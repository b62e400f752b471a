/** The ELF loader (src/elf/elf.c) on top of the memory manager. */
module Elf {
  import opened Bytes
  import opened Pmm
  import opened Ptes
  import opened PageTables
  import opened TableSteps
  import opened VmSteps
  import opened FrameCounts
  import opened Views
  import opened Vmm
  import opened ElfImage

  // ----- One segment

  /** Address space root shows the pages of a segment below `limit`; nothing else changed anywhere. */
  ghost predicate LoadedTo(mem0: seq<Page>, tree0: map<Node, nat>, mem: seq<Page>, root: nat,
                           buf: seq<Byte>, ph: Phdr, limit: nat)
    requires FileInside(buf, ph)
  {
    forall r, v | N4(r) in tree0 && UserPage(v) ::
      View(mem, r, v) == if r == root && RoundDown(ph.vaddr) <= AddressOf(v) < limit
                         then Some(SegmentPage(buf, ph, AddressOf(v))) else View(mem0, r, v)
  }

  lemma AddressAligned(v: VPage)
    ensures AddressOf(v) % PAGE_SIZE == 0
  {
    assert AddressOf(v) == (((v.a * ENTRIES + v.b) * ENTRIES + v.c) * ENTRIES + v.d) * PAGE_SIZE;
  }

  /** One more page. */
  lemma LoadNext(mem0: seq<Page>, tree0: map<Node, nat>, mem1: seq<Page>, tree1: map<Node, nat>, mem2: seq<Page>,
                 root: nat, buf: seq<Byte>, ph: Phdr, va: nat)
    requires FileInside(buf, ph) && LoadedTo(mem0, tree0, mem1, root, buf, ph, va) && SameRoots(tree0, tree1)
    requires va % PAGE_SIZE == 0 && RoundDown(ph.vaddr) <= va < USER_TOP
    requires SameViewsBut(mem1, mem2, tree1, root, PageOf(va))
    requires View(mem2, root, PageOf(va)) == Some(SegmentPage(buf, ph, va))
    ensures LoadedTo(mem0, tree0, mem2, root, buf, ph, va + PAGE_SIZE)
  {
    hide View, SegmentPage, AddressOf, PageOf, RoundDown;
    AddressFromIndices(va);
    forall r, v | N4(r) in tree0 && UserPage(v)
      ensures View(mem2, r, v) == if r == root && RoundDown(ph.vaddr) <= AddressOf(v) < va + PAGE_SIZE
                                  then Some(SegmentPage(buf, ph, AddressOf(v))) else View(mem0, r, v)
    {
      AddressAligned(v);
      IndicesFromAddress(v);
      assert N4(r) in tree1;
    }
  }

  lemma NothingLoaded(mem: seq<Page>, tree: map<Node, nat>, root: nat, buf: seq<Byte>, ph: Phdr)
    requires FileInside(buf, ph)
    ensures LoadedTo(mem, tree, mem, root, buf, ph, RoundDown(ph.vaddr))
  {
    hide View, SegmentPage;
  }

  /** A failed mapping changes nothing anyone sees. */
  lemma LoadedSame(mem0: seq<Page>, tree0: map<Node, nat>, mem1: seq<Page>, tree1: map<Node, nat>, mem2: seq<Page>,
                   root: nat, buf: seq<Byte>, ph: Phdr, va: nat)
    requires FileInside(buf, ph) && LoadedTo(mem0, tree0, mem1, root, buf, ph, va) && SameRoots(tree0, tree1)
    requires SameViews(mem1, mem2, tree1)
    ensures LoadedTo(mem0, tree0, mem2, root, buf, ph, va)
  {
    hide View, SegmentPage;
  }

  /** The zeroed frame with its slice of the file. */
  method FillPage(buf: seq<Byte>, ph: Phdr, va: nat) returns (page: seq<Byte>)
    requires FileInside(buf, ph)
    ensures page == ImagePage(buf, ph, va)
  {
    page := ZeroPage();
    var copyStart, copyEnd := CopyStart(ph, va), CopyEnd(ph, va);
    if copyStart < copyEnd {
      CopiedSlice(buf, ph, va);
      var dst, src, len := copyStart - va, ph.offset + (copyStart - ph.vaddr), copyEnd - copyStart;
      if src + len <= |buf| {
        page := page[..dst] + buf[src..src + len] + page[dst + len..];
      }
    } else {
      NothingToCopy(buf, ph, va);
    }
  }

  /** The body of the loop of elf_load_segment. */
  method LoadPage(mmu: Mmu, buf: seq<Byte>, ph: Phdr, root: nat, vaddr: nat,
                  ghost mem0: seq<Page>, ghost tree0: map<Node, nat>) returns (mapped: bool)
    requires mmu.Valid() && N4(root) in mmu.tree && SameRoots(tree0, mmu.tree)
    requires vaddr % PAGE_SIZE == 0 && RoundDown(ph.vaddr) <= vaddr < USER_TOP
    requires FileInside(buf, ph) && LoadedTo(mem0, tree0, mmu.mem, root, buf, ph, vaddr)
    modifies mmu`mem, mmu`tree, mmu`role, mmu`tlb, mmu.pmm, mmu.pmm.bitmap
    ensures mmu.Valid() && SameRoots(tree0, mmu.tree) && (old(mmu.Exact()) ==> mmu.Exact())
    ensures LoadedTo(mem0, tree0, mmu.mem, root, buf, ph, if mapped then vaddr + PAGE_SIZE else vaddr)
    ensures mapped <==> |old(mmu.pmm.free)| > Missing(old(mmu.tree), root, PageOf(vaddr))
    ensures !mapped ==> |mmu.pmm.free| <= 1
  {
    hide View, Inv, TlbOk, TlbExact, NewPage, SameViews, LoadedTo, Represents, FreeAgree, ImagePage, PageOf, AddressOf,
         Missing, Path, Extends;
    var flags := Pte(false, ph.writable, true, false, false, !ph.executable, 0, 0);
    var page := FillPage(buf, ph, vaddr);
    ghost var mem1, tree1, role1 := mmu.mem, mmu.tree, mmu.role;
    AddressFromIndices(vaddr);
    ghost var e;
    mapped, e := mmu.MapNewPage(root, PageOf(vaddr), page, flags);
    if mapped {
      NewPageView(mem1, tree1, role1, mmu.mem, mmu.tree, mmu.role, root, PageOf(vaddr), e, page);
      LoadNext(mem0, tree0, mem1, tree1, mmu.mem, root, buf, ph, vaddr);
    } else {
      LoadedSame(mem0, tree0, mem1, tree1, mmu.mem, root, buf, ph, vaddr);
    }
  }

  lemma Rounding(lo: nat, hi: nat)
    requires lo <= hi
    ensures RoundDown(lo) % PAGE_SIZE == 0 && RoundUp(hi) % PAGE_SIZE == 0 && RoundDown(lo) <= RoundUp(hi)
    ensures lo < hi ==> RoundDown(lo) < RoundUp(hi)
  {
  }

  lemma NextPage(va: nat, end: nat)
    requires va % PAGE_SIZE == 0 && end % PAGE_SIZE == 0 && va < end
    ensures va + PAGE_SIZE <= end && (va + PAGE_SIZE) % PAGE_SIZE == 0
  {
  }

  /** elf_load_segment */
  method LoadSegment(mmu: Mmu, buf: seq<Byte>, ph: Phdr, root: nat) returns (ok: bool, ghost limit: nat)
    requires mmu.Valid() && N4(root) in mmu.tree && (ph.memsz > 0 ==> InRange(ph))
    modifies mmu`mem, mmu`tree, mmu`role, mmu`tlb, mmu.pmm, mmu.pmm.bitmap
    ensures mmu.Valid() && SameRoots(old(mmu.tree), mmu.tree) && (old(mmu.Exact()) ==> mmu.Exact())
    ensures ph.memsz == 0 ==> ok && mmu.mem == old(mmu.mem)
    ensures ph.memsz > 0 && !FileInside(buf, ph) ==> !ok && mmu.mem == old(mmu.mem)
    ensures ph.memsz > 0 && FileInside(buf, ph) ==>
      && LoadedTo(old(mmu.mem), old(mmu.tree), mmu.mem, root, buf, ph, limit)
      && limit <= RoundUp(ph.vaddr + ph.memsz) && (ok <==> limit == RoundUp(ph.vaddr + ph.memsz))
      && (!ok ==> |mmu.pmm.free| <= 1)
  {
    hide View, Inv, TlbOk, TlbExact, LoadedTo, Represents, FreeAgree, RoundDown, RoundUp, Missing, PageOf;
    Rounding(ph.vaddr, ph.vaddr + ph.memsz);
    limit := RoundDown(ph.vaddr);
    if ph.memsz == 0 { return true, limit; }
    if ph.filesz > 0 {
      if ph.offset + ph.filesz > |buf| { return false, limit; }
    }
    ghost var mem0, tree0 := mmu.mem, mmu.tree;
    var end := RoundUp(ph.vaddr + ph.memsz);
    var vaddr := RoundDown(ph.vaddr);
    NothingLoaded(mem0, tree0, root, buf, ph);
    while vaddr < end
      invariant mmu.Valid() && SameRoots(tree0, mmu.tree) && (old(mmu.Exact()) ==> mmu.Exact())
      invariant RoundDown(ph.vaddr) <= vaddr <= end && vaddr % PAGE_SIZE == 0
      invariant LoadedTo(mem0, tree0, mmu.mem, root, buf, ph, vaddr)
    {
      NextPage(vaddr, end);
      var mapped := LoadPage(mmu, buf, ph, root, vaddr, mem0, tree0);
      if !mapped { return false, vaddr; }
      vaddr := vaddr + PAGE_SIZE;
    }
    return true, vaddr;
  }

  // ----- The whole file

  /** Address space root shows the image of the first n program headers over what it showed before; no other
      address space changed. */
  ghost predicate Shows(mem0: seq<Page>, tree0: map<Node, nat>, mem: seq<Page>, root: nat, buf: seq<Byte>, n: nat)
    requires Headers(buf) && n <= PhNum(buf) && FilesInside(buf, n)
  {
    forall r, v | N4(r) in tree0 && UserPage(v) ::
      View(mem, r, v) == if r == root && Image(buf, n, AddressOf(v)).Some?
                         then Image(buf, n, AddressOf(v)) else View(mem0, r, v)
  }

  ghost predicate OthersSame(mem0: seq<Page>, tree0: map<Node, nat>, mem: seq<Page>, root: nat)
  {
    forall r, v | N4(r) in tree0 && UserPage(v) && r != root :: View(mem, r, v) == View(mem0, r, v)
  }

  lemma ShowsNext(mem0: seq<Page>, tree0: map<Node, nat>, mem1: seq<Page>, tree1: map<Node, nat>, mem2: seq<Page>,
                  root: nat, buf: seq<Byte>, n: nat)
    requires Headers(buf) && n < PhNum(buf) && FilesInside(buf, n) && SameRoots(tree0, tree1)
    requires Shows(mem0, tree0, mem1, root, buf, n) && PhdrAt(buf, n).load
    requires PhdrAt(buf, n).memsz == 0 ==> mem2 == mem1
    requires PhdrAt(buf, n).memsz > 0 ==>
      && FileInside(buf, PhdrAt(buf, n))
      && LoadedTo(mem1, tree1, mem2, root, buf, PhdrAt(buf, n), RoundUp(PhdrAt(buf, n).vaddr + PhdrAt(buf, n).memsz))
    ensures FilesInside(buf, n + 1) && Shows(mem0, tree0, mem2, root, buf, n + 1)
  {
    hide View, SegmentPage, AddressOf, PhdrAt, RoundDown, RoundUp, Check;
    forall r, v | N4(r) in tree0 && UserPage(v)
      ensures View(mem2, r, v) == if r == root && Image(buf, n + 1, AddressOf(v)).Some?
                                  then Image(buf, n + 1, AddressOf(v)) else View(mem0, r, v)
    {
      assert N4(r) in tree1;
    }
  }

  lemma SkippedHeader(mem0: seq<Page>, tree0: map<Node, nat>, mem: seq<Page>, root: nat, buf: seq<Byte>, n: nat)
    requires Headers(buf) && n < PhNum(buf) && FilesInside(buf, n) && !PhdrAt(buf, n).load
    requires Shows(mem0, tree0, mem, root, buf, n)
    ensures FilesInside(buf, n + 1) && Shows(mem0, tree0, mem, root, buf, n + 1)
  {
    hide View, SegmentPage, AddressOf, PhdrAt, RoundDown, RoundUp, Check;
    forall r, v | N4(r) in tree0 && UserPage(v)
      ensures Image(buf, n + 1, AddressOf(v)) == Image(buf, n, AddressOf(v))
    {
    }
  }

  /** elf_load.  On success the address space shows the file's image; on failure no other one has changed, and a
      file that is well formed fails only when frames run out. */
  method Load(mmu: Mmu, buf: seq<Byte>, root: nat) returns (ok: bool, entry: nat)
    requires mmu.Valid() && N4(root) in mmu.tree
    requires Check(buf) ==> Headers(buf) && SegmentsInRange(buf)
    modifies mmu`mem, mmu`tree, mmu`role, mmu`tlb, mmu.pmm, mmu.pmm.bitmap
    ensures mmu.Valid() && SameRoots(old(mmu.tree), mmu.tree) && (old(mmu.Exact()) ==> mmu.Exact())
    ensures ok ==>
      && Headers(buf) && FilesInside(buf, PhNum(buf)) && entry == Entry(buf)
      && (exists i :: 0 <= i < PhNum(buf) && PhdrAt(buf, i).load)
      && Shows(old(mmu.mem), old(mmu.tree), mmu.mem, root, buf, PhNum(buf))
    ensures !ok ==> OthersSame(old(mmu.mem), old(mmu.tree), mmu.mem, root)
    ensures !Check(buf) ==> !ok && mmu.mem == old(mmu.mem)
    ensures Check(buf) && !ok ==>
      || !FilesInside(buf, PhNum(buf)) || (forall i | 0 <= i < PhNum(buf) :: !PhdrAt(buf, i).load)
      || |mmu.pmm.free| <= 1
  {
    hide View, Inv, TlbOk, TlbExact, Shows, LoadedTo, Represents, FreeAgree, Check, PhdrAt, InRange, PhNum, Entry;
    ghost var mem0, tree0 := mmu.mem, mmu.tree;
    entry := 0;
    if !Check(buf) { return false, 0; }
    NothingShown(mem0, tree0, root, buf);
    var loaded := 0;
    for i := 0 to PhNum(buf)
      invariant mmu.Valid() && SameRoots(tree0, mmu.tree) && (old(mmu.Exact()) ==> mmu.Exact())
      invariant FilesInside(buf, i) && Shows(mem0, tree0, mmu.mem, root, buf, i)
      invariant loaded > 0 <==> exists j :: 0 <= j < i && PhdrAt(buf, j).load
    {
      var ph := PhdrAt(buf, i);
      if !ph.load {
        SkippedHeader(mem0, tree0, mmu.mem, root, buf, i);
      } else {
        ghost var mem1, tree1 := mmu.mem, mmu.tree;
        var done; ghost var limit;
        done, limit := LoadSegment(mmu, buf, ph, root);
        assert ph == PhdrAt(buf, i);
        if !done {
          Elsewhere(mem0, tree0, mem1, tree1, mmu.mem, root, buf, i, ph, limit);
          return false, 0;
        }
        ShowsNext(mem0, tree0, mem1, tree1, mmu.mem, root, buf, i);
        loaded := loaded + 1;
      }
    }
    if loaded == 0 {
      ShowsElsewhere(mem0, tree0, mmu.mem, root, buf, PhNum(buf));
      return false, 0;
    }
    return true, Entry(buf);
  }

  /** What the loaded program sees: every address of every segment holds its file byte or zero, with the
      rights of p_flags, if no page belongs to two segments. */
  lemma ProgramSees(mem0: seq<Page>, tree0: map<Node, nat>, mem: seq<Page>, root: nat, buf: seq<Byte>, i: nat, va: nat)
    requires Headers(buf) && FilesInside(buf, PhNum(buf)) && SegmentsInRange(buf) && PagesDisjoint(buf)
    requires N4(root) in tree0 && Shows(mem0, tree0, mem, root, buf, PhNum(buf)) && i < PhNum(buf)
    requires var ph := PhdrAt(buf, i);
      Loads(ph) && ph.filesz <= ph.memsz && RoundDown(ph.vaddr) <= va < RoundUp(ph.vaddr + ph.memsz)
    ensures var ph := PhdrAt(buf, i); var page := View(mem, root, PageOf(va));
      && page.Some? && |page.value.bytes| == PAGE_SIZE
      && page.value.user && page.value.writable == ph.writable && page.value.nx == !ph.executable
      && page.value.bytes[va % PAGE_SIZE] ==
           if ph.vaddr <= va < ph.vaddr + ph.filesz then buf[ph.offset + (va - ph.vaddr)] else 0
  {
    hide PhdrAt, Check, View, Image, AddressOf, PageOf, PagesDisjoint;
    AddressFromIndices(va);
    MemoryImage(buf, i, va);
    assert AddressOf(PageOf(va)) == RoundDown(va);
  }

  lemma NothingShown(mem: seq<Page>, tree: map<Node, nat>, root: nat, buf: seq<Byte>)
    requires Headers(buf)
    ensures FilesInside(buf, 0) && Shows(mem, tree, mem, root, buf, 0)
  {
    hide View, PhdrAt, Check, AddressOf, SegmentPage;
  }

  lemma ShowsElsewhere(mem0: seq<Page>, tree0: map<Node, nat>, mem: seq<Page>, root: nat, buf: seq<Byte>, n: nat)
    requires Headers(buf) && n <= PhNum(buf) && FilesInside(buf, n) && Shows(mem0, tree0, mem, root, buf, n)
    ensures OthersSame(mem0, tree0, mem, root)
  {
    hide View, PhdrAt, Check, AddressOf, SegmentPage;
  }

  lemma Elsewhere(mem0: seq<Page>, tree0: map<Node, nat>, mem1: seq<Page>, tree1: map<Node, nat>, mem2: seq<Page>,
                  root: nat, buf: seq<Byte>, n: nat, ph: Phdr, limit: nat)
    requires Headers(buf) && n <= PhNum(buf) && FilesInside(buf, n) && SameRoots(tree0, tree1)
    requires Shows(mem0, tree0, mem1, root, buf, n)
    requires mem2 == mem1 || (FileInside(buf, ph) && LoadedTo(mem1, tree1, mem2, root, buf, ph, limit))
    ensures OthersSame(mem0, tree0, mem2, root)
  {
    hide View, PhdrAt, Check, AddressOf, SegmentPage, RoundDown;
    ShowsElsewhere(mem0, tree0, mem1, root, buf, n);
    forall r, v | N4(r) in tree0 && UserPage(v) && r != root
      ensures View(mem2, r, v) == View(mem0, r, v)
    {
      assert N4(r) in tree1;
    }
  }
}
