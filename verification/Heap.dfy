/** The slab allocator of src/heap/heap.c, for requests of up to 2048 bytes.  Pointers are offsets into the
    kernel's window on physical memory, 0 for NULL; frame 0 is never free, so no object is at 0. */
module Heap {
  import opened Pmm
  import opened Seqs
  import opened SlabGeometry
  import opened Slabs
  import opened HeapLists

  class KernelHeap {
    const pmm: Allocator
    /** The descriptors at the start of the slab pages. */
    var slabs: map<nat, Slab>
    /** The words of the slab pages behind the descriptors. */
    var words: map<nat, nat>
    /** caches[].partial and caches[].full */
    var partial: seq<nat>
    var full: seq<nat>

    /** The addresses handed out and not given back. */
    ghost var live: set<nat>
    ghost var fls: map<nat, seq<nat>>
    ghost var partials: seq<seq<nat>>
    ghost var fulls: seq<seq<nat>>

    ghost predicate Pages()
      reads this, pmm, pmm.bitmap
    {
      && pmm.Valid() && 0 !in pmm.free && slabs.Keys !! pmm.free
      && (forall f | f in slabs :: 0 < f < MAX_FRAMES) && fls.Keys == slabs.Keys
      && SlabsOk(slabs, fls, words, live) && LiveOk(slabs, live)
    }

    ghost predicate Lists()
      reads this
    {
      && |partial| == |partials| == |full| == |fulls| == NUM_CACHES
      && ListsOk(slabs, partial, partials, false) && ListsOk(slabs, full, fulls, true)
    }

    ghost predicate Valid()
      reads this, pmm, pmm.bitmap
    {
      Pages() && Lists() && Busy(slabs)
    }

    /** The frames the heap uses or could take. */
    ghost function Frames(): set<nat>
      reads this, pmm
    {
      slabs.Keys + pmm.free
    }

    /** heap_init */
    constructor (pmm: Allocator)
      requires pmm.Valid() && 0 !in pmm.free
      ensures this.pmm == pmm && Valid() && live == {} && slabs == map[]
    {
      this.pmm := pmm;
      slabs, words, live, fls := map[], map[], {}, map[];
      partial, full := seq(NUM_CACHES, _ => 0), seq(NUM_CACHES, _ => 0);
      partials, fulls := seq(NUM_CACHES, _ => []), seq(NUM_CACHES, _ => []);
    }

    /** slab_create */
    method SlabCreate(c: nat) returns (f: nat)
      requires c <= 8 && Pages()
      modifies `slabs, `words, `fls, pmm, pmm.bitmap
      ensures Pages()
      ensures f == 0 <==> old(pmm.free) == {}
      ensures f == 0 ==> slabs == old(slabs) && words == old(words) && fls == old(fls) && pmm.free == {}
      ensures forall g | g in old(slabs) :: SamePage(g, old(words), live, words, live)
      ensures f > 0 ==> var size := SizeOf(c); var n := Total(size);
        && f in old(pmm.free) && pmm.free == old(pmm.free) - {f}
        && slabs == old(slabs)[f := Slab(0, SlotAt(f, size, 0), size, n, n)]
      ensures f > 0 ==> f in slabs && slabs[f].total == Capacity(c)
    {
      hide Capacity, SlabsOk, LiveOk, Total, SizeOf, SlotAt, Chained, SamePage, AllSlots, Represents;
      BelowMax(pmm.bitmap[..], pmm.free);
      SameAsBefore(slabs.Keys, words, live);
      var phys := pmm.Alloc();
      if phys == 0 { return 0; }
      f := phys / SLAB_SIZE;
      assert f in old(pmm.free);
      var size := SizeOf(c);
      var total := Total(size);
      ghost var slab := Slab(0, SlotAt(f, size, 0), size, total, total);
      PageUnused(slabs, live, f, slab);
      ghost var before := words;
      NothingChained(words, f, size);
      for i := 0 to total
        modifies `words
        invariant Chained(words, f, size, i)
        invariant forall g | g in slabs :: SamePage(g, before, live, words, live)
      {
        Linked(slabs.Keys, before, live, words, f, c, i);
        words := words[SlotAt(f, size, i) := LinkAfter(f, size, i)];
      }
      FreshSlab(words, live, f, c);
      OnePageChanges(slabs, fls, before, live, f, slab, AllSlots(f, size), words, live);
      slabs := slabs[f := Slab(0, SlotAt(f, size, 0), size, total, total)];
      fls := fls[f := AllSlots(f, size)];
      TotalIs(c);
    }

    /** The start of cache_alloc: make sure there is a partial slab. */
    method Refill(c: nat) returns (ok: bool)
      requires c <= 8 && Valid()
      modifies `slabs, `words, `fls, `partial, `partials, pmm, pmm.bitmap
      ensures Pages() && Lists() && Frames() == old(Frames())
      ensures forall g | g in slabs && g != partial[c] :: slabs[g].freeCount < slabs[g].total
      ensures ok <==> partial[c] > 0
      ensures !ok <==> old(partial[c]) == 0 && old(pmm.free) == {}
      ensures !ok ==> slabs == old(slabs) && pmm.free == {}
      ensures forall g | g in old(slabs) :: g in slabs && slabs[g] == old(slabs)[g]
      ensures forall g | g in old(slabs) :: SamePage(g, old(words), live, words, live)
    {
      hide SlabsOk, LiveOk, Total, SizeOf, SlotAt, ListsOk, Represents, SamePage;
      SameAsBefore(slabs.Keys, words, live);
      if partial[c] > 0 { return true; }
      ghost var before := slabs;
      var f := SlabCreate(c);
      if f == 0 { return false; }
      HoldsAnObject(c);
      JoinKeepsLists(before, partial, partials, false, c, f, slabs[f]);
      ElsewhereKeepsLists(before, full, fulls, true, f, slabs);
      partial := partial[c := f];
      partials := partials[c := [f] + partials[c]];
      return true;
    }

    /** slab_alloc_from */
    method SlabAllocFrom(f: nat) returns (a: nat)
      requires Pages() && f in slabs && slabs[f].freeCount > 0
      modifies `slabs, `fls, `live
      ensures Pages() && f in slabs && slabs == old(slabs)[f := slabs[f]]
      ensures var s := old(slabs[f]); slabs[f] == Slab(s.next, slabs[f].freelist, s.objSize, s.freeCount - 1, s.total)
      ensures a > 0 && a !in old(live) && live == old(live) + {a} && a / SLAB_SIZE == f && IsObject(slabs, a)
      ensures slabs[f].freeCount < slabs[f].total
    {
      hide SlabsOk, LiveOk, Total, SizeOf, Represents, Slots, IsClass;
      TakeKeeps(slabs, fls, words, live, f);
      CountBound(slabs, fls, words, live, f);
      a := slabs[f].freelist;
      slabs := slabs[f := slabs[f].(freelist := words[a], freeCount := slabs[f].freeCount - 1)];
      fls := fls[f := fls[f][1..]];
      live := live + {a};
    }

    /** The end of cache_alloc: a slab that has become full moves to the full list. */
    method ToFull(c: nat, ghost before: map<nat, Slab>)
      requires c < NUM_CACHES && Pages() && |partial| == |partials| == |full| == |fulls| == NUM_CACHES
      requires ListsOk(before, partial, partials, false) && ListsOk(before, full, fulls, true)
      requires partial[c] > 0 && partial[c] in before && partial[c] in slabs
      requires slabs == before[partial[c] := slabs[partial[c]]] && before[partial[c]].freeCount > 0
      requires before[partial[c]].objSize == SizeOf(c)
      requires var s := before[partial[c]]; var s' := slabs[partial[c]];
        s'.freeCount == 0 && s'.next == s.next && s'.objSize == s.objSize
      modifies `slabs, `partial, `full, `partials, `fulls
      ensures Pages() && Lists() && Relinked(old(slabs), slabs)
    {
      hide SlabsOk, LiveOk, SizeOf, ListsOk, Represents, Without;
      var f := partial[c];
      ghost var taken := slabs;
      partial := partial[c := slabs[f].next];
      slabs := slabs[f := slabs[f].(next := full[c])];
      full := full[c := f];
      assert slabs == before[f := slabs[f]];
      MoveKeepsLists(before, old(partial), partials, old(full), fulls, c, slabs[f]);
      partials := partials[c := Without(partials[c], 0)];
      fulls := fulls[c := [f] + fulls[c]];
      RelinkKeeps(taken, fls, words, live, slabs);
    }

    /** The rest of cache_alloc: slab_alloc_from, and the move to the full list. */
    method TakeFrom(c: nat) returns (a: nat)
      requires c < NUM_CACHES && Pages() && Lists() && partial[c] > 0
      requires forall g | g in slabs && g != partial[c] :: slabs[g].freeCount < slabs[g].total
      modifies `slabs, `fls, `partial, `full, `partials, `fulls, `live
      ensures Valid() && slabs.Keys == old(slabs).Keys && SameSizes(old(slabs), slabs)
      ensures a > 0 && a !in old(live) && live == old(live) + {a}
      ensures IsObject(slabs, a) && slabs[a / SLAB_SIZE].objSize == SizeOf(c)
    {
      hide SlabsOk, LiveOk, Total, SizeOf, ListsOk, Represents, Slots, IsClass, Without;
      ghost var before := slabs;
      var f := partial[c];
      PartialHead(slabs, partial, partials, c);
      a := SlabAllocFrom(f);
      if slabs[f].freeCount == 0 {
        ToFull(c, before);
      } else {
        TouchKeepsLists(before, partial, partials, false, f, slabs[f]);
        TouchKeepsLists(before, full, fulls, true, f, slabs[f]);
      }
    }

    /** cache_alloc */
    method CacheAlloc(c: nat) returns (a: nat)
      requires c <= 8 && Valid()
      modifies this, pmm, pmm.bitmap
      ensures Valid() && Frames() == old(Frames())
      ensures a == 0 <==> old(partial[c]) == 0 && old(pmm.free) == {}
      ensures a == 0 ==> live == old(live) && slabs == old(slabs)
      ensures Untouched(old(live), old(slabs), old(words), slabs, words)
      ensures a > 0 ==>
        && a !in old(live) && live == old(live) + {a}
        && IsObject(slabs, a) && slabs[a / SLAB_SIZE].objSize == SizeOf(c)
    {
      hide SlabsOk, LiveOk, Total, SizeOf, ListsOk, Represents, IsObject, SamePage;
      ghost var slabs0, words0, live0 := slabs, words, live;
      var ok := Refill(c);
      if ok {
        a := TakeFrom(c);
      } else {
        a := 0;
      }
      NewPagesOnly(slabs0, words0, live0, slabs, words);
    }

    /** The loop of cache_free that looks for slab f on a list, with a pointer to the link it came by. */
    method FindLink(head: nat, f: nat, ghost list: seq<nat>) returns (prev: nat, cur: nat, ghost k: nat)
      requires f > 0 && IsList(slabs, head, list)
      ensures cur == 0 <==> f !in list
      ensures cur != 0 ==> k < |list| && cur == list[k] == f && prev == if k == 0 then 0 else list[k - 1]
    {
      hide IsList;
      prev, cur, k := 0, head, 0;
      LinkAt(slabs, head, list, 0);
      while cur != 0 && cur != f
        invariant k <= |list| && cur == At(list, k) && prev == if k == 0 then 0 else list[k - 1]
        invariant k < |list| ==> list[k] > 0 && NextOk(slabs, list, k)
        invariant forall i | 0 <= i < k :: list[i] != f
        decreases |list| - k
      {
        LinkAt(slabs, head, list, k + 1);
        prev, cur, k := cur, slabs[cur].next, k + 1;
      }
    }

    /** Take slab f off the list that starts at head. */
    method Unlink(head: nat, f: nat, ghost list: seq<nat>) returns (head': nat, ghost k: nat)
      requires f > 0 && IsList(slabs, head, list)
      modifies `slabs
      ensures f !in list ==> slabs == old(slabs) && head' == head
      ensures f in list ==>
        && k < |list| && list[k] == f && IsList(slabs, head', Without(list, k))
        && Unlinked(old(slabs), slabs, list, k)
    {
      hide IsList, Unlinked, Without;
      head' := head;
      var prev, cur;
      prev, cur, k := FindLink(head, f, list);
      if cur == 0 { return; }
      UnlinkAt(slabs, head, list, k);
      if prev == 0 {
        head' := slabs[f].next;
      } else {
        slabs := slabs[prev := slabs[prev].(next := slabs[f].next)];
      }
    }

    /** cache_free puts the object on its slab's freelist. */
    method PushFree(a: nat) returns (f: nat)
      requires Pages() && a in live
      modifies `slabs, `words, `fls, `live
      ensures Pages() && f == a / SLAB_SIZE && f in old(slabs) && f in slabs && slabs == old(slabs)[f := slabs[f]]
      ensures var s := old(slabs)[f]; slabs[f] == Slab(s.next, a, s.objSize, s.freeCount + 1, s.total)
      ensures live == old(live) - {a} && forall x: nat | x != a :: SameWord(old(words), words, x)
    {
      hide SlabsOk, LiveOk, Represents;
      GiveKeeps(slabs, fls, words, live, a);
      f := a / SLAB_SIZE;
      words := words[a := slabs[f].freelist];
      slabs := slabs[f := slabs[f].(freelist := a, freeCount := slabs[f].freeCount + 1)];
      fls := fls[f := [a] + fls[f]];
      live := live - {a};
    }

    /** A slab that was full goes from the full to the partial list. */
    method ToPartial(c: nat, f: nat, ghost before: map<nat, Slab>)
      requires c < NUM_CACHES && Pages() && |partial| == |partials| == |full| == |fulls| == NUM_CACHES
      requires ListsOk(before, partial, partials, false) && ListsOk(before, full, fulls, true)
      requires f in before && f in slabs && slabs == before[f := slabs[f]] && Belongs(before, f, SizeOf(c), true)
      requires slabs[f].next == before[f].next && slabs[f].objSize == SizeOf(c) && slabs[f].freeCount > 0
      modifies `slabs, `partial, `full, `partials, `fulls
      ensures Pages() && Lists() && Relinked(old(slabs), slabs)
    {
      hide SlabsOk, LiveOk, SizeOf, ListsOk, Represents, Without, IsList;
      ghost var given := slabs;
      OnItsList(before, full, fulls, true, c, f, slabs);
      var head, k := Unlink(full[c], f, fulls[c]);
      full := full[c := head];
      ghost var unlinked := slabs;
      slabs := slabs[f := slabs[f].(next := partial[c])];
      FullToPartial(before, partial, partials, old(full), fulls, c, k, given[f], unlinked, head, slabs[f]);
      partial := partial[c := f];
      partials := partials[c := [f] + partials[c]];
      fulls := fulls[c := Without(fulls[c], k)];
      RelinkKeeps(given, fls, words, live, slabs);
    }

    /** Take an empty slab off its partial list. */
    method LeavePartial(c: nat, f: nat)
      requires c < NUM_CACHES && Pages() && Lists() && Belongs(slabs, f, SizeOf(c), false)
      requires slabs[f].freeCount == slabs[f].total
      modifies `slabs, `fls, `partial, `partials
      ensures SlabsOk(slabs, fls, words, live) && LiveOk(slabs, live) && Lists() && fls.Keys == slabs.Keys
      ensures slabs.Keys == old(slabs).Keys - {f}
      ensures forall g | g in slabs :: slabs[g] == old(slabs)[g].(next := slabs[g].next)
    {
      hide SlabsOk, LiveOk, SizeOf, ListsOk, Represents, Without, IsList;
      ghost var before := slabs;
      OnItsList(slabs, partial, partials, false, c, f, slabs);
      var head, k := Unlink(partial[c], f, partials[c]);
      DropFromLists(before, partial, partials, full, fulls, c, k, slabs, head);
      partial := partial[c := head];
      partials := partials[c := Without(partials[c], k)];
      RelinkKeeps(before, fls, words, live, slabs);
      DropKeeps(slabs, fls, words, live, f);
      slabs := slabs - {f};
      fls := fls - {f};
    }

    method ReturnPage(f: nat)
      requires pmm.Valid() && f < MAX_FRAMES
      modifies pmm, pmm.bitmap
      ensures pmm.Valid() && pmm.free == old(pmm.free) + {f}
    {
      pmm.FreeFrame(f * SLAB_SIZE);
    }

    /** The second half of cache_free: a slab without live objects gives its frame back. */
    method DropEmpty(c: nat, f: nat)
      requires c < NUM_CACHES && Pages() && Lists() && Belongs(slabs, f, SizeOf(c), false)
      requires forall g | g in slabs && g != f :: slabs[g].freeCount < slabs[g].total
      modifies `slabs, `fls, `partial, `partials, pmm, pmm.bitmap
      ensures Valid() && Frames() == old(Frames()) && SameSizes(old(slabs), slabs) && slabs.Keys <= old(slabs).Keys
    {
      hide SlabsOk, LiveOk, SizeOf, ListsOk, Represents, pmm.Valid;
      CountBound(slabs, fls, words, live, f);
      if slabs[f].freeCount == slabs[f].total {
        LeavePartial(c, f);
        MovedFrame(f, old(slabs).Keys, pmm.free);
        ReturnPage(f);
      }
    }

    /** cache_free */
    method CacheFree(c: nat, a: nat)
      requires c < NUM_CACHES && Valid() && a in live && IsObject(slabs, a) && slabs[a / SLAB_SIZE].objSize == SizeOf(c)
      modifies this, pmm, pmm.bitmap
      ensures Valid() && Frames() == old(Frames()) && live == old(live) - {a}
      ensures Untouched(live, old(slabs), old(words), slabs, words)
    {
      hide SlabsOk, LiveOk, SizeOf, ListsOk, Represents, Slots, IsClass, SameWord, Untouched, SamePage;
      ghost var before, words0, live0 := slabs, words, live;
      var wasFull := slabs[a / SLAB_SIZE].freeCount == 0;
      var f := PushFree(a);
      if wasFull {
        ToPartial(c, f, before);
      } else {
        TouchKeepsLists(before, partial, partials, false, f, slabs[f]);
        TouchKeepsLists(before, full, fulls, true, f, slabs[f]);
      }
      DropEmpty(c, f);
      FreedWordOnly(before, words0, live0, a, slabs, words);
    }

    /** kmalloc, for requests the slab caches serve: NULL exactly for size 0 or when no frame is free and every slab
        of the class is full, otherwise an object that was not live, of the least object size that holds the request. */
    method Kmalloc(size: nat) returns (a: nat)
      requires size <= 2048 && Valid()
      modifies this, pmm, pmm.bitmap
      ensures Valid() && Frames() == old(Frames())
      ensures a == 0 <==> size == 0 || (old(pmm.free) == {} && ClassFull(old(slabs), size))
      ensures a == 0 ==> live == old(live) && slabs == old(slabs)
      ensures Untouched(old(live), old(slabs), old(words), slabs, words)
      ensures a > 0 ==>
        && a !in old(live) && live == old(live) + {a} && IsObject(slabs, a)
        && exists c :: Serves(c, size) && slabs[a / SLAB_SIZE].objSize == SizeOf(c)
    {
      hide SlabsOk, LiveOk, ListsOk, Represents, IsObject, Busy, SamePage, Untouched;
      if size == 0 {
        SameAsBefore(slabs.Keys, words, live);
        NewPagesOnly(slabs, words, live, slabs, words);
        return 0;
      }
      var objSize; ghost var c;
      objSize, c := RoundUpPow2(if size < 8 then 8 else size);
      var idx := CacheIndex(objSize);
      IndexServes(size, c, idx);
      NoPartial(slabs, partial, partials, idx, size);
      hide ClassFull;
      a := CacheAlloc(idx);
    }

    /** kfree.  The size found in the descriptor is that of a cache, so the object goes back to its slab. */
    method Kfree(a: nat)
      requires Valid() && (a == 0 || a in live)
      modifies this, pmm, pmm.bitmap
      ensures Valid() && Frames() == old(Frames()) && live == old(live) - {a}
      ensures Untouched(live, old(slabs), old(words), slabs, words)
    {
      hide SlabsOk, ListsOk, Represents, Busy, Untouched, SamePage;
      NoObjectAtNull(slabs, live);
      if a == 0 {
        SameAsBefore(slabs.Keys, words, live);
        NewPagesOnly(slabs, words, live, slabs, words);
        return;
      }
      assert IsObject(slabs, a);
      var objSize := slabs[a / SLAB_SIZE].objSize;
      ClassSize(objSize);
      if 8 <= objSize <= 4096 {
        var idx := CacheIndex(objSize);
        ClassIndex(objSize, idx);
        CacheFree(idx, a);
      }
    }

    /** The owner of a live object writes into it: this never reaches the allocator's own data. */
    method Store(obj: nat, offset: nat, value: nat)
      requires Valid() && obj in live && IsObject(slabs, obj)
      requires offset % 8 == 0 && offset + 8 <= slabs[obj / SLAB_SIZE].objSize
      modifies `words
      ensures Valid() && words == old(words)[obj + offset := value]
    {
      hide ListsOk, Represents;
      StoreKeeps(slabs, fls, words, live, obj, offset, value);
      words := words[obj + offset := value];
    }
  }

  /** c is the least size class that holds the request. */
  ghost predicate Serves(c: nat, size: nat)
  {
    c <= 8 && size <= SizeOf(c) && forall d | 0 <= d < c :: SizeOf(d) < size
  }

  /** Every slab of the class for such a request is full. */
  ghost predicate ClassFull(slabs: map<nat, Slab>, size: nat)
  {
    forall c, f | Serves(c, size) && f in slabs && slabs[f].objSize == SizeOf(c) :: slabs[f].freeCount == 0
  }

  lemma NoPartial(slabs: map<nat, Slab>, heads: seq<nat>, lists: seq<seq<nat>>, idx: nat, size: nat)
    requires ListsOk(slabs, heads, lists, false) && Serves(idx, size)
    ensures heads[idx] == 0 <==> ClassFull(slabs, size)
  {
    hide SizeOf;
    assert ListOk(slabs, heads[idx], lists[idx], SizeOf(idx), false);
    forall f | f in slabs && slabs[f].objSize == SizeOf(idx)
      ensures f in lists[idx] <==> slabs[f].freeCount != 0
    {
      assert f in lists[idx] <==> Belongs(slabs, f, SizeOf(idx), false);
    }
    if lists[idx] != [] {
      assert Belongs(slabs, lists[idx][0], SizeOf(idx), false);
    }
  }

  lemma IndexServes(size: nat, c: nat, idx: nat)
    requires 0 < size <= 2048 && idx < NUM_CACHES
    requires SizeOf(c) >= size && SizeOf(c) >= 8
    requires forall d | 0 <= d < c :: SizeOf(d) < if size < 8 then 8 else size
    requires SizeOf(c) <= 4096 ==> SizeOf(c) <= SizeOf(idx)
    requires forall d | 0 <= d < idx :: SizeOf(d) < SizeOf(c)
    ensures idx == c && Serves(idx, size)
  {
    hide SizeOf;
    Sizes();
    if idx < c { SizeGrows(idx, c); }
  }

  lemma ClassSize(size: nat)
    requires IsClass(size)
    ensures 8 <= size <= 2048
  {
    Sizes();
  }

  lemma ClassIndex(size: nat, idx: nat)
    requires IsClass(size) && idx < NUM_CACHES && size <= SizeOf(idx) && forall d | 0 <= d < idx :: SizeOf(d) < size
    ensures SizeOf(idx) == size
  {
    hide SizeOf;
    var c :| 0 <= c <= 8 && size == SizeOf(c);
    if idx < c { SizeGrows(idx, c); }
  }

  lemma NoObjectAtNull(slabs: map<nat, Slab>, live: set<nat>)
    requires LiveOk(slabs, live) && 0 !in slabs
    ensures 0 !in live
  {
  }

  lemma StoreKeeps(slabs: map<nat, Slab>, fls: map<nat, seq<nat>>, words: map<nat, nat>, live: set<nat>,
                   obj: nat, offset: nat, value: nat)
    requires SlabsOk(slabs, fls, words, live) && LiveOk(slabs, live) && obj in live && IsObject(slabs, obj)
    requires offset % 8 == 0 && offset + 8 <= slabs[obj / SLAB_SIZE].objSize
    ensures SlabsOk(slabs, fls, words[obj + offset := value], live)
  {
    var f := obj / SLAB_SIZE;
    var words' := words[obj + offset := value];
    hide Slots, Total, IsClass;
    InPage(f, slabs[f].objSize, obj);
    assert SlabOk(f, slabs[f], fls[f], words, live);
    OtherWord(f, slabs[f], fls[f], words, live, obj, offset, value);
    hide SlabOk;
    OnePageChanges(slabs, fls, words, live, f, slabs[f], fls[f], words', live);
    assert slabs[f := slabs[f]] == slabs && fls[f := fls[f]] == fls;
  }

  /** A slab's freelist does not run through a live object. */
  lemma OtherWord(f: nat, s: Slab, fl: seq<nat>, words: map<nat, nat>, live: set<nat>, obj: nat, offset: nat, value: nat)
    requires SlabOk(f, s, fl, words, live) && obj in live && obj in Slots(f, s.objSize) && offset < s.objSize
    ensures SlabOk(f, s, fl, words[obj + offset := value], live)
  {
    hide Slots, Total, IsClass;
    var words' := words[obj + offset := value];
    forall i | 0 <= i < |fl|
      ensures ChainOk(words', fl, i)
    {
      assert ChainOk(words, fl, i) && fl[i] in fl;
      NotInside(f, s.objSize, obj, fl[i], offset);
    }
  }

  /** No object of a slab starts inside another. */
  lemma NotInside(f: nat, size: nat, a: nat, b: nat, offset: nat)
    requires size > 0 && IsClass(size) && a in Slots(f, size) && b in Slots(f, size) && a != b && offset < size
    ensures b != a + offset
  {
    hide Slots, SizeOf;
    var c :| 0 <= c <= 8 && size == SizeOf(c);
    SlotsApart(f, c, a, b);
  }

  lemma MovedFrame(f: nat, pages: set<nat>, free: set<nat>)
    requires f in pages && f !in free
    ensures (pages - {f}) + (free + {f}) == pages + free
    ensures pages !! free ==> pages - {f} !! free + {f}
  {
  }

  lemma OnItsList(slabs: map<nat, Slab>, heads: seq<nat>, lists: seq<seq<nat>>, full: bool, c: nat, f: nat,
                  slabs': map<nat, Slab>)
    requires ListsOk(slabs, heads, lists, full) && c < NUM_CACHES && Belongs(slabs, f, SizeOf(c), full)
    requires forall g | g in slabs :: g in slabs' && slabs'[g].next == slabs[g].next
    ensures f > 0 && f in lists[c] && IsList(slabs', heads[c], lists[c])
  {
    assert ListOk(slabs, heads[c], lists[c], SizeOf(c), full);
    assert f in lists[c];
    SameNexts(slabs, slabs', heads[c], lists[c]);
  }

  /** The head of partial list c, now full, goes to the head of full list c. */
  lemma MoveKeepsLists(slabs: map<nat, Slab>, partial: seq<nat>, partials: seq<seq<nat>>,
                       full: seq<nat>, fulls: seq<seq<nat>>, c: nat, s': Slab)
    requires ListsOk(slabs, partial, partials, false) && ListsOk(slabs, full, fulls, true)
    requires c < NUM_CACHES && partial[c] > 0 && partial[c] in slabs && slabs[partial[c]].objSize == SizeOf(c)
    requires slabs[partial[c]].freeCount > 0
    requires s'.freeCount == 0 && s'.next == full[c] && s'.objSize == SizeOf(c)
    ensures partials[c] != []
    ensures var f := partial[c]; var slabs' := slabs[f := s'];
      && ListsOk(slabs', partial[c := slabs[f].next], partials[c := Without(partials[c], 0)], false)
      && ListsOk(slabs', full[c := f], fulls[c := [f] + fulls[c]], true)
  {
    hide IsList, Without, SizeOf, ListOk;
    HeadLeaves(slabs, partial, partials, c, s');
    JoinKeepsLists(slabs, full, fulls, true, c, partial[c], s');
  }

  lemma PartialHead(slabs: map<nat, Slab>, heads: seq<nat>, lists: seq<seq<nat>>, c: nat)
    requires ListsOk(slabs, heads, lists, false) && c < NUM_CACHES && heads[c] > 0
    ensures lists[c] != [] && heads[c] == lists[c][0]
    ensures heads[c] in slabs && slabs[heads[c]].freeCount > 0 && slabs[heads[c]].objSize == SizeOf(c)
  {
    assert ListOk(slabs, heads[c], lists[c], SizeOf(c), false);
    assert heads[c] in lists[c] <==> Belongs(slabs, heads[c], SizeOf(c), false);
  }

  /** The head of partial list c, now full, leaves the list. */
  lemma HeadLeaves(slabs: map<nat, Slab>, heads: seq<nat>, lists: seq<seq<nat>>, c: nat, s': Slab)
    requires ListsOk(slabs, heads, lists, false) && c < NUM_CACHES && heads[c] > 0
    requires heads[c] in slabs && s'.freeCount == 0
    ensures lists[c] != []
    ensures ListsOk(slabs[heads[c] := s'], heads[c := slabs[heads[c]].next], lists[c := Without(lists[c], 0)], false)
  {
    hide IsList;
    var slabs' := slabs[heads[c] := s'];
    assert ListOk(slabs, heads[c], lists[c], SizeOf(c), false);
    PartialHead(slabs, heads, lists, c);
    PopSlab(slabs, heads[c], lists[c]);
    assert Without(lists[c], 0) == lists[c][1..];
    SameNexts(slabs, slabs', slabs[heads[c]].next, lists[c][1..]);
    LeaveKeepsLists(slabs, heads, lists, false, c, 0, slabs', slabs[heads[c]].next);
  }

  lemma NothingChained(words: map<nat, nat>, f: nat, size: nat)
    requires size > 0
    ensures Chained(words, f, size, 0)
  {
  }

  lemma SameAsBefore(pages: set<nat>, words: map<nat, nat>, live: set<nat>)
    ensures forall g | g in pages :: SamePage(g, words, live, words, live)
  {
  }

  lemma WordElsewhere(pages: set<nat>, before: map<nat, nat>, live: set<nat>, words: map<nat, nat>, a: nat, v: nat)
    requires a / SLAB_SIZE !in pages && forall g | g in pages :: SamePage(g, before, live, words, live)
    ensures forall g | g in pages :: SamePage(g, before, live, words[a := v], live)
  {
    forall g | g in pages
      ensures SamePage(g, before, live, words[a := v], live)
    {
      forall x: nat | x / SLAB_SIZE == g
        ensures SameWord(before, words[a := v], x)
      {
        assert SameWord(before, words, x);
      }
    }
  }

  /** Writing the link word of object i of page f, and nothing on other pages. */
  lemma Linked(pages: set<nat>, before: map<nat, nat>, live: set<nat>, words: map<nat, nat>, f: nat, c: nat, i: nat)
    requires c <= 8 && i < Total(SizeOf(c)) && Chained(words, f, SizeOf(c), i) && f !in pages
    requires forall g | g in pages :: SamePage(g, before, live, words, live)
    ensures var size := SizeOf(c); var a := SlotAt(f, size, i);
            var words' := words[a := LinkAfter(f, size, i)];
      Chained(words', f, size, i + 1) && forall g | g in pages :: SamePage(g, before, live, words', live)
  {
    hide SlotAt, Total, SizeOf;
    var size := SizeOf(c);
    assert SlotAt(f, size, i) in Slots(f, size);
    InPage(f, size, SlotAt(f, size, i));
    WordElsewhere(pages, before, live, words, SlotAt(f, size, i), LinkAfter(f, size, i));
    hide SamePage;
    forall j | 0 <= j < i
      ensures SlotAt(f, size, j) != SlotAt(f, size, i)
    {
      SlotGap(f, size, j, i);
    }
  }
}
