/** The virtual memory manager (src/vmm/vmm.c): address spaces built on demand, copy-on-write fork,
    the write-fault handler, teardown, CR3 and the TLB. */
module Vmm {
  import opened Bytes
  import opened Pmm
  import opened Ptes
  import opened PageTables
  import opened TableSteps
  import opened CloneSteps
  import opened VmSteps
  import opened FrameCounts
  import opened Views

  class Mmu {
    var mem: seq<Page>
    const pmm: Allocator
    const boot: nat
    var cr3: nat
    var tlb: map<VPage, Pte>
    ghost var tree: map<Node, nat>
    ghost var role: seq<Role>

    ghost predicate Synced()
      reads this, pmm, pmm.bitmap
    {
      pmm.Valid() && FreeAgree(role, pmm.free) && role[0] != Free && 0 < boot < MAX_FRAMES && role[boot] != Free
    }

    ghost predicate Good()
      reads this, pmm, pmm.bitmap
    {
      Synced() && Inv(mem, tree, role, boot, {})
    }

    ghost predicate Valid()
      reads this, pmm, pmm.bitmap
    {
      Good() && TlbOk(mem, tree, role, cr3, tlb)
    }

    ghost predicate Exact()
      reads this
    {
      TlbExact(mem, cr3, tlb)
    }

    /** vmm_init: no user address space yet, running on the boot PML4. */
    constructor (memory: seq<Page>, bootPml4: nat, allocator: Allocator)
      requires |memory| == MAX_FRAMES && (forall f | 0 <= f < MAX_FRAMES :: Sized(memory[f]))
      requires 0 < bootPml4 < MAX_FRAMES && memory[bootPml4].Table?
      requires allocator.Valid() && 0 !in allocator.free && bootPml4 !in allocator.free
      ensures Valid() && Exact() && tree == map[] && cr3 == bootPml4 && tlb == map[]
      ensures mem == memory && pmm == allocator && boot == bootPml4
    {
      mem, pmm, boot, cr3, tlb := memory, allocator, bootPml4, bootPml4, map[];
      tree := map[];
      ghost var free := allocator.free;
      role := seq(MAX_FRAMES, f => if f in free then Free else Kernel);
    }

    /** pmm_alloc_frame, as a frame number. */
    method AllocFrame() returns (f: nat)
      requires Synced()
      modifies `role, pmm, pmm.bitmap
      ensures Synced()
      ensures f == 0 ==> role == old(role) && pmm.free == old(pmm.free) == {}
      ensures f != 0 ==> f < MAX_FRAMES && old(role)[f] == Free && f != boot && role == old(role)[f := Kernel]
      ensures f != 0 ==> f in old(pmm.free) && pmm.free == old(pmm.free) - {f}
    {
      var phys := pmm.Alloc();
      f := phys / FRAME_SIZE;
      if f != 0 { role := role[f := Kernel]; }
    }

    /** pmm_free_frame, by frame number. */
    method FreeFrame(f: nat)
      requires pmm.Valid() && f < MAX_FRAMES
      modifies pmm, pmm.bitmap
      ensures pmm.Valid() && pmm.free == old(pmm.free) + {f}
    {
      pmm.FreeFrame(f * FRAME_SIZE);
    }

    /** get_or_alloc_table on entry i of the table at n. */
    method GetOrAllocTable(t: nat, i: nat, ghost n: Node) returns (child: nat)
      requires Good() && n in tree && tree[n] == t && !n.N1? && i < Fan(n)
      modifies `mem, `tree, `role, pmm, pmm.bitmap
      ensures Good()
      ensures TableTaken(old(tree), old(pmm.free), Child(n, i), child, tree, pmm.free)
      ensures child == 0 || Child(n, i) in old(tree) ==> mem == old(mem) && role == old(role)
      ensures Grown(old(mem), old(tree), old(role), mem, tree, role, n.r)
    {
      hide Inv, Walk, Grown, Represents;
      TableAt(mem, tree, role, boot, {}, n);
      LinkAt(mem, tree, role, boot, {}, n, i);
      GrownRefl(mem, tree, role, boot, n.r);
      var e := mem[t].entries[i];
      if e.present {
        return e.frame;
      }
      child := AllocFrame();
      if child == 0 { return; }
      ChangeKernelFrame(mem, tree, old(role), boot, {}, child, Kernel);
      InstallTable(mem, tree, role, boot, n, i, child);
      InstallGrows(mem, tree, old(role), boot, n, i, child);
      mem := mem[child := ZeroTable()];
      mem := SetEntry(mem, t, i, TableLink(child));
      tree := tree[Child(n, i) := child];
      role := role[child := TableOf(Child(n, i))];
      assert role == old(role)[child := TableOf(Child(n, i))];
    }

    /** The three get_or_alloc_table calls of vmm_map_user_page; 0 exactly when there are fewer free frames
        than missing tables. */
    method LeafTableFor(root: nat, v: VPage) returns (pt: nat)
      requires Good() && N4(root) in tree && UserPage(v)
      modifies `mem, `tree, `role, pmm, pmm.bitmap
      ensures Good() && Grown(old(mem), old(tree), old(role), mem, tree, role, root) && Extends(old(tree), tree)
      ensures pt != 0 <==> |old(pmm.free)| >= Missing(old(tree), root, v)
      ensures pt == 0 ==> pmm.free == {} && tree.Keys <= old(tree).Keys + Path(root, v)
      ensures pt != 0 ==> N1(root, v.a, v.b, v.c) in tree && tree[N1(root, v.a, v.b, v.c)] == pt
      ensures pt != 0 ==> tree.Keys == old(tree).Keys + Path(root, v)
      ensures pt != 0 ==> pmm.free <= old(pmm.free) && |pmm.free| == |old(pmm.free)| - Missing(old(tree), root, v)
    {
      hide Inv, Walk, Grown, FreeAgree, Extends, Missing, Represents;
      ghost var mem0, tree0, role0 := mem, tree, role;
      MissingBelow(mem, tree, role, boot, root, v);
      TableAt(mem, tree, role, boot, {}, N4(root));
      pt := GetOrAllocTable(root, v.a, N4(root));
      ghost var c3, mem3, tree3, role3, free3 := pt, mem, tree, role, pmm.free;
      if pt != 0 {
        pt := GetOrAllocTable(pt, v.b, N3(root, v.a));
        GrownTrans(mem0, tree0, role0, mem3, tree3, role3, mem, tree, role, root);
      }
      ghost var c2, mem2, tree2, role2, free2 := pt, mem, tree, role, pmm.free;
      if pt != 0 {
        pt := GetOrAllocTable(pt, v.c, N2(root, v.a, v.b));
        GrownTrans(mem0, tree0, role0, mem2, tree2, role2, mem, tree, role, root);
      }
      PathTaken(tree0, old(pmm.free), c3, tree3, free3, c2, tree2, free2, pt, tree, pmm.free, root, v);
      GrownExtends(mem0, tree0, role0, mem, tree, role, root);
    }

    /** vmm_map_user_page: page v of the address space at root now leads to a data frame that the
        kernel holds and no entry reaches, with the given flags. */
    method MapUserPage(root: nat, v: VPage, frame: nat, flags: Pte) returns (ok: bool)
      requires Valid() && N4(root) in tree && UserPage(v)
      requires 0 < frame < MAX_FRAMES && role[frame] == Kernel && mem[frame].Data?
      modifies `mem, `tree, `role, `tlb, pmm, pmm.bitmap
      ensures Valid() && (old(Exact()) ==> Exact()) && Extends(old(tree), tree)
      ensures ok <==> |old(pmm.free)| >= Missing(old(tree), root, v)
      ensures !ok ==> Grown(old(mem), old(tree), old(role), mem, tree, role, root) && pmm.free == {}
                      && tree.Keys <= old(tree).Keys + Path(root, v)
      ensures ok ==> MappedPage(old(mem), old(tree), old(role), mem, tree, role, root, v, flags.(present := true, frame := frame))
      ensures ok ==> tree.Keys == old(tree).Keys + Path(root, v)
      ensures ok ==> pmm.free <= old(pmm.free) && |pmm.free| == |old(pmm.free)| - Missing(old(tree), root, v)
    {
      hide Inv, Walk, Grown, TlbOk, TlbExact, MappedPage, Represents, Missing, LeafRole, Extends;
      ghost var mem0, tree0, role0 := mem, tree, role;
      InvShape(mem, tree, role, boot, {});
      var pt := LeafTableFor(root, v);
      if pt == 0 {
        TlbGrown(mem0, tree0, role0, boot, mem, tree, role, root, cr3, tlb);
        return false;
      }
      var e := flags.(present := true, frame := frame);
      MapFinish(mem0, tree0, role0, boot, mem, tree, role, root, v, e, cr3, tlb);
      role := LeafRole(mem, tree, role, N1(root, v.a, v.b, v.c), v.d, frame);
      mem := SetEntry(mem, pt, v.d, e);
      if cr3 == root { tlb := tlb - {v}; }
      ok := true;
    }

    /** The loop bodies of elf_load_segment and alloc_user_stack: take a frame, fill it, map it at page v;
        give it back if that fails, which is when there are no more free frames than missing tables. */
    method MapNewPage(root: nat, v: VPage, bytes: seq<Byte>, flags: Pte) returns (ok: bool, ghost e: Pte)
      requires Valid() && N4(root) in tree && UserPage(v) && |bytes| == PAGE_SIZE
      modifies `mem, `tree, `role, `tlb, pmm, pmm.bitmap
      ensures Valid() && (old(Exact()) ==> Exact()) && Extends(old(tree), tree)
      ensures ok <==> |old(pmm.free)| > Missing(old(tree), root, v)
      ensures ok ==> && NewPage(old(mem), old(tree), old(role), mem, tree, role, root, v, e, bytes)
                     && e == flags.(present := true, frame := e.frame)
      ensures ok ==> && tree.Keys == old(tree).Keys + Path(root, v) && pmm.free <= old(pmm.free)
                     && |pmm.free| == |old(pmm.free)| - 1 - Missing(old(tree), root, v)
      ensures !ok ==> && SameViews(old(mem), mem, old(tree)) && SameWalks(old(mem), mem, old(tree)) && SameRoots(old(tree), tree)
                      && PoolLoses(old(role), role, root, 0)
      ensures !ok ==> && tree.Keys <= old(tree).Keys + Path(root, v)
                      && pmm.free <= old(pmm.free) && |pmm.free| <= 1
    {
      hide Inv, Walk, Grown, TlbOk, TlbExact, MappedPage, SameViews, SameWalks, SameRoots, NewPage, PoolLoses, Missing, Extends,
           Path, Represents;
      ExtendsSelf(tree);
      ghost var mem0, tree0, role0 := mem, tree, role;
      InvShape(mem, tree, role, boot, {});
      var f := AllocFrame();
      e := flags.(present := true, frame := f);
      if f == 0 {
        SameAsSelf(mem, tree, role);
        return false, e;
      }
      FilledFrame(mem0, tree0, role0, boot, f, bytes);
      FilledTlb(mem0, tree0, role0, boot, f, bytes, cr3, tlb);
      mem := mem[f := Data(bytes)];
      ok := MapUserPage(root, v, f, flags);
      if ok {
        NewPageOk(mem0, tree0, role0, boot, f, bytes, mem, tree, role, root, v, e);
      } else {
        ReturnedFrame(mem0, tree0, role0, boot, f, bytes, mem, tree, role, root, cr3, tlb);
        GrownKeeps(mem0[f := Data(bytes)], tree0, role0[f := Kernel], mem, tree, role, root, f);
        FreeFrame(f);
        role := role[f := Free];
      }
    }

    /** The body of the loop of cow_clone_pt. */
    method CloneLeafEntry(src: nat, frame: nat, i: nat, ghost s: Node, ghost d: Node, ghost busy: set<Node>,
                          ghost mem0: seq<Page>, ghost tree0: map<Node, nat>, ghost role0: seq<Role>)
      requires Synced() && Cloning(mem0, tree0, role0, mem, tree, role, boot, busy, s, d, frame)
      requires s.N1? && i < ENTRIES && s in tree && tree[s] == src && LeafProgress(mem, role, src, frame, i)
      modifies `mem, `role
      ensures Synced() && Cloning(mem0, tree0, role0, mem, tree, role, boot, busy, s, d, frame)
      ensures LeafProgress(mem, role, src, frame, i + 1)
    {
      hide Cloning, LeafProgress;
      CloningFrames(mem0, tree0, role0, mem, tree, role, boot, busy, s, d, frame);
      var e := mem[src].entries[i];
      if !e.present {
        CloningWrite(mem0, tree0, role0, mem, tree, role, boot, busy, s, d, frame, i, ABSENT);
        ProgressAbsent(mem, role, src, frame, i);
        mem := SetEntry(mem, frame, i, ABSENT);
      } else {
        ShareStep(mem0, tree0, role0, mem, tree, role, boot, busy, s, d, frame, i);
        SetEntrySame(mem, src, i);
        if e.write {
          e := Cowed(e);
          mem := SetEntry(mem, src, i, e);
        }
        mem := SetEntry(mem, frame, i, e);
        role := role[e.frame := Shared];
      }
    }

    /** A free frame becomes the table at d, to be filled from the table at s; 0 when none is free. */
    method StartClone(ghost s: Node, ghost at: Option<Node>, ghost busy: set<Node>) returns (frame: nat, ghost d: Node)
      requires Synced() && Inv(mem, tree, role, boot, busy) && s in tree
      requires at.Some? ==> CloneReady(mem, tree, role, boot, busy, s, at.value) && !at.value.N4?
      requires at.None? ==> s.N4? && busy == {}
      modifies `mem, `tree, `role, pmm, pmm.bitmap
      ensures Synced()
      ensures frame != 0 ==> && d == (if at.Some? then at.value else N4(frame))
                             && Cloning(old(mem), old(tree), old(role), mem, tree, role, boot, busy, s, d, frame)
                             && tree == old(tree)[d := frame] && (at.None? ==> d !in old(tree))
      ensures frame == 0 ==> Abandoned(old(mem), old(tree), old(role), mem, tree, role, boot, busy, s)
      ensures frame == 0 <==> FreeCount(old(role)) == 0
    {
      hide Inv, Marked, RoleStep, TakenFor, WrittenOff, AsTable, FreeCount;
      ghost var role0 := role;
      InvShape(mem, tree, role, boot, busy);
      FreeCountIs(role, pmm.bitmap[..], pmm.free);
      frame := AllocFrame();
      d := if at.Some? then at.value else N4(frame);
      if frame == 0 {
        AbandonNothing(mem, tree, role, boot, busy, s);
        return;
      }
      NewRoot(mem, tree, role0, boot, busy, s, frame);
      BeginClone(mem, tree, role0, boot, busy, s, d, frame, AsTable(mem[frame]));
      mem := mem[frame := AsTable(mem[frame])];
      tree := tree[d := frame];
      role := role0[frame := TableOf(d)];
    }

    /** cow_clone_pt: clone the leaf table at s to the place d; 0 when no frame is free. */
    method ClonePt(src: nat, ghost s: Node, ghost d: Node, ghost busy: set<Node>) returns (frame: nat)
      requires Synced() && CloneReady(mem, tree, role, boot, busy, s, d) && s.N1? && tree[s] == src
      modifies `mem, `tree, `role, pmm, pmm.bitmap
      ensures Synced()
      ensures frame != 0 ==> Cloned(old(mem), old(tree), old(role), mem, tree, role, boot, busy, s, d) && d in tree && tree[d] == frame
      ensures frame == 0 ==> Abandoned(old(mem), old(tree), old(role), mem, tree, role, boot, busy, s)
      ensures frame != 0 <==> FreeCount(old(role)) >= Size(old(tree), s)
    {
      hide Cloning, LeafProgress, Cloned, Abandoned, CloneReady, Inv, FreeCount, Size;
      ghost var mem0, tree0, role0 := mem, tree, role;
      ReadyParts(mem, tree, role, boot, busy, s, d);
      SizePositive(tree, s);
      ghost var d';
      frame, d' := StartClone(s, Some(d), busy);
      if frame == 0 { return; }
      CloningFrames(mem0, tree0, role0, mem, tree, role, boot, busy, s, d, frame);
      NoProgress(mem, role, src, frame);
      for i := 0 to ENTRIES
        invariant Synced() && Cloning(mem0, tree0, role0, mem, tree, role, boot, busy, s, d, frame)
        invariant tree == tree0[d := frame] && tree[s] == src && LeafProgress(mem, role, src, frame, i)
      {
        CloneLeafEntry(src, frame, i, s, d, busy, mem0, tree0, role0);
      }
      LeafDone(mem0, tree0, role0, mem, tree, role, boot, busy, s, d, frame);
      ClonedCount(mem0, tree0, role0, mem, tree, role, boot, busy, s, d);
    }

    /** The body of the loops of cow_clone_pdt, cow_clone_pdpt and vmm_fork_pml4: one entry of a table
        of the given level (2 for a PDT, 3 for a PDPT, 4 for a PML4). */
    method CloneEntry(level: nat, src: nat, frame: nat, i: nat, ghost s: Node, ghost d: Node, ghost busy: set<Node>,
                      ghost mem0: seq<Page>, ghost tree0: map<Node, nat>, ghost role0: seq<Role>)
      returns (ok: bool)
      requires Synced() && Cloning(mem0, tree0, role0, mem, tree, role, boot, busy, s, d, frame)
      requires !s.N1? && level == Level(s) && i < Fan(d) && s in tree && tree[s] == src && DirProgress(mem, tree, s, d, i)
      modifies `mem, `tree, `role, pmm, pmm.bitmap
      ensures Synced() && s in tree && tree[s] == src
      ensures ok ==> && Cloning(mem0, tree0, role0, mem, tree, role, boot, busy, s, d, frame)
                     && DirProgress(mem, tree, s, d, i + 1)
                     && |mem| == |old(mem)| && SameRestOfTable(old(mem), mem, frame, i)
      ensures !ok ==> && CloneFailed(mem0, tree0, role0, mem, tree, role, boot, busy, s, d)
                      && tree == old(tree) && frame < |mem| == |old(mem)| && mem[frame] == old(mem)[frame]
                      && FreeCount(role0) < Size(tree0, s)
      decreases level, 0
    {
      hide Inv, Cloning, DirProgress, Cloned, Abandoned, CloneReady, CloneFailed, Nodes, Frames, BootOk, LinkOk, FreeCount, Size;
      CloningFrames(mem0, tree0, role0, mem, tree, role, boot, busy, s, d, frame);
      CloningParts(mem0, tree0, role0, mem, tree, role, boot, busy, s, d, frame);
      LinkAt(mem, tree, role, boot, busy + {d}, s, i);
      InvShape(mem, tree, role, boot, busy + {d});
      var e := mem[src].entries[i];
      if !e.present {
        CloningWrite(mem0, tree0, role0, mem, tree, role, boot, busy, s, d, frame, i, ABSENT);
        DirAbsentStep(mem, tree, role, s, d, i);
        mem := SetEntry(mem, frame, i, ABSENT);
        return true;
      }
      ghost var mem1, tree1, role1 := mem, tree, role;
      ChildReady(mem0, tree0, role0, mem, tree, role, boot, busy, s, d, frame, i);
      ghost var sc, dc := Child(s, i), Child(d, i);
      ReadyParts(mem, tree, role, boot, busy + {d}, sc, dc);
      var child;
      if level == 2 {
        child := ClonePt(e.frame, sc, dc, busy + {d});
      } else {
        child := CloneDir(level - 1, e.frame, sc, dc, busy + {d});
      }
      if child == 0 {
        ChildFailed(mem0, tree0, role0, mem1, tree1, role1, mem, tree, role, boot, busy, s, d, frame, i);
        FailedCount(mem0, tree0, role0, mem1, tree1, role1, boot, busy, s, d, frame, i);
        return false;
      }
      ChildLinked(mem0, tree0, role0, mem1, tree1, role1, mem, tree, role, boot, busy, s, d, frame, i, e.(frame := child));
      mem := SetEntry(mem, frame, i, e.(frame := child));
      ok := true;
    }

    /** cow_clone_pdt (level 2) and cow_clone_pdpt (level 3): clone the directory at s to the place d.
        When frames run out the new directory is freed; the tables already made below it leak. */
    method CloneDir(level: nat, src: nat, ghost s: Node, ghost d: Node, ghost busy: set<Node>) returns (frame: nat)
      requires Synced() && CloneReady(mem, tree, role, boot, busy, s, d) && tree[s] == src
      requires level == Level(s) && (s.N2? || s.N3?)
      modifies `mem, `tree, `role, pmm, pmm.bitmap
      ensures Synced()
      ensures frame != 0 ==> Cloned(old(mem), old(tree), old(role), mem, tree, role, boot, busy, s, d) && d in tree && tree[d] == frame
      ensures frame == 0 ==> Abandoned(old(mem), old(tree), old(role), mem, tree, role, boot, busy, s)
      ensures frame != 0 <==> FreeCount(old(role)) >= Size(old(tree), s)
      decreases level, 1
    {
      hide Cloning, DirProgress, Cloned, Abandoned, CloneReady, CloneFailed, Inv, FreeCount, Size;
      ghost var mem0, tree0, role0 := mem, tree, role;
      ReadyParts(mem, tree, role, boot, busy, s, d);
      SizePositive(tree, s);
      ghost var d';
      frame, d' := StartClone(s, Some(d), busy);
      if frame == 0 { return; }
      CloningFrames(mem0, tree0, role0, mem, tree, role, boot, busy, s, d, frame);
      CloningParts(mem0, tree0, role0, mem, tree, role, boot, busy, s, d, frame);
      NoDirProgress(mem0, tree0, role0, mem, tree, role, boot, busy, s, d, frame);
      for i := 0 to ENTRIES
        invariant Synced() && Cloning(mem0, tree0, role0, mem, tree, role, boot, busy, s, d, frame)
        invariant s in tree && tree[s] == src && DirProgress(mem, tree, s, d, i)
      {
        var ok := CloneEntry(level, src, frame, i, s, d, busy, mem0, tree0, role0);
        if !ok {
          GiveUp(frame, s, d, busy, mem0, tree0, role0);
          return 0;
        }
      }
      DirDone(mem0, tree0, role0, mem, tree, role, boot, busy, s, d, frame);
      CloningFrames(mem0, tree0, role0, mem, tree, role, boot, busy, s, d, frame);
      CloningParts(mem0, tree0, role0, mem, tree, role, boot, busy, s, d, frame);
      ClonedCount(mem0, tree0, role0, mem, tree, role, boot, busy, s, d);
    }

    /** pmm_free_frame(frame); return 0. */
    method GiveUp(frame: nat, ghost s: Node, ghost d: Node, ghost busy: set<Node>,
                  ghost mem0: seq<Page>, ghost tree0: map<Node, nat>, ghost role0: seq<Role>)
      requires Synced() && CloneFailed(mem0, tree0, role0, mem, tree, role, boot, busy, s, d)
      requires 0 < frame < MAX_FRAMES && |role0| == MAX_FRAMES && role0[frame] == Free
      modifies `tree, `role, pmm, pmm.bitmap
      ensures Synced() && Abandoned(mem0, tree0, role0, mem, tree, role, boot, busy, s)
    {
      hide Abandoned, Inv, Represents;
      FreeFrame(frame);
      tree := tree0;
      role := WriteOff(role0, role)[frame := Free];
      assert WrittenOff(role0, role);
    }

    /** free_user_pdpt: give back the PTs and PDTs below the PDPT at index a of the root, then itself. */
    method FreeUserPdpt(pdpt: nat, ghost root: nat, ghost a: nat, ghost free0: set<nat>)
      requires pmm.Valid() && Inv(mem, tree, role, boot, {}) && N3(root, a) in tree && tree[N3(root, a)] == pdpt
      requires FreedTo(pmm.free, free0, role, root, a, 0, 0)
      modifies pmm, pmm.bitmap
      ensures pmm.Valid() && FreedTo(pmm.free, free0, role, root, a + 1, 0, 0)
    {
      hide Inv, FreedTo, Represents;
      TableAt(mem, tree, role, boot, {}, N3(root, a));
      for i := 0 to ENTRIES
        invariant pmm.Valid() && FreedTo(pmm.free, free0, role, root, a, i, 0)
      {
        var e2 := mem[pdpt].entries[i];
        LinkAt(mem, tree, role, boot, {}, N3(root, a), i);
        if e2.present && !e2.huge {
          TableAt(mem, tree, role, boot, {}, N2(root, a, i));
          for j := 0 to ENTRIES
            invariant pmm.Valid() && FreedTo(pmm.free, free0, role, root, a, i, j)
          {
            var e1 := mem[e2.frame].entries[j];
            LinkAt(mem, tree, role, boot, {}, N2(root, a, i), j);
            FreedPt(mem, tree, role, boot, pmm.free, free0, root, a, i, j);
            if e1.present && !e1.huge {
              FreeFrame(e1.frame);
            }
          }
        }
        FreedPdt(mem, tree, role, boot, pmm.free, free0, root, a, i);
        if e2.present && !e2.huge {
          FreeFrame(e2.frame);
        }
      }
      FreedPdpt(mem, tree, role, boot, pmm.free, free0, root, a);
      FreeFrame(pdpt);
    }

    /** vmm_destroy_user_pml4: the tables of the address space, and nothing else, go back to the
        allocator.  Cached translations stay right unless it is the running one. */
    method DestroyUserPml4(root: nat)
      requires Good() && N4(root) in tree
      modifies `tree, `role, pmm, pmm.bitmap
      ensures Good() && (old(Valid()) && root != cr3 ==> Valid())
      ensures pmm.free == old(pmm.free) + TablesOf(old(tree), root)
      ensures tree == Without(old(tree), root) && role == Released(old(role), root)
    {
      hide Inv, FreedTo, FreeAgree, Represents, Released, Without, TablesOf, TlbOk, TlbExact;
      ghost var free0 := pmm.free;
      TableAt(mem, tree, role, boot, {}, N4(root));
      BelowMax(pmm.bitmap[..], free0);
      FreedNothing(role, root, free0);
      for i := 0 to USER_ENTRIES
        modifies pmm, pmm.bitmap
        invariant pmm.Valid() && FreedTo(pmm.free, free0, role, root, i, 0, 0)
      {
        var e := mem[root].entries[i];
        LinkAt(mem, tree, role, boot, {}, N4(root), i);
        if e.present {
          FreeUserPdpt(e.frame, root, i, free0);
        } else {
          FreedAbsent(mem, tree, role, boot, pmm.free, free0, root, i);
        }
      }
      FreedAll(mem, tree, role, boot, pmm.free, free0, root);
      ReleaseKeepsInv(mem, tree, role, boot, root);
      InvShape(mem, Without(tree, root), Released(role, root), boot, {});
      if root != cr3 && TlbOk(mem, tree, role, cr3, tlb) { TlbReleased(mem, tree, role, cr3, tlb, root); }
      FreeFrame(root);
      tree := Without(tree, root);
      role := Released(role, root);
    }

    /** The opening of vmm_create_user_pml4 and of vmm_fork_pml4: zero the user half of a frame taken
        for a PML4, and copy the kernel half of another one. */
    method InitPml4(frame: nat, from: nat)
      requires frame < |mem| && from < |mem| && frame != from
      requires Sized(mem[frame]) && mem[from].Table? && Sized(mem[from])
      modifies `mem
      ensures |mem| == |old(mem)| && mem == old(mem)[frame := mem[frame]]
      ensures FreshPml4(mem[frame], mem[from])
    {
      hide AsTable;
      var table := AsTable(mem[frame]).entries;
      mem := mem[frame := Table(seq(ENTRIES, i requires 0 <= i < ENTRIES => if i < USER_ENTRIES then ABSENT else table[i]))];
      for i := 0 to USER_ENTRIES
        invariant |mem| == |old(mem)| && mem[frame].Table? && |mem[frame].entries| == ENTRIES
        invariant mem == old(mem)[frame := mem[frame]]
        invariant forall j | 0 <= j < USER_ENTRIES :: mem[frame].entries[j] == ABSENT
        invariant forall j | USER_ENTRIES <= j < USER_ENTRIES + i :: mem[frame].entries[j] == mem[from].entries[j]
      {
        mem := SetEntry(mem, frame, USER_ENTRIES + i, mem[from].entries[USER_ENTRIES + i]);
      }
    }

    /** vmm_create_user_pml4: an address space with nothing mapped below the kernel half. */
    method CreateUserPml4() returns (root: nat)
      requires Valid()
      modifies `mem, `tree, `role, pmm, pmm.bitmap
      ensures Valid() && (old(Exact()) ==> Exact())
      ensures root == 0 ==> mem == old(mem) && tree == old(tree) && role == old(role) && pmm.free == old(pmm.free) == {}
      ensures root != 0 ==> Created(old(mem), old(tree), old(role), mem, tree, role, root)
      ensures root != 0 ==> root in old(pmm.free) && pmm.free == old(pmm.free) - {root}
    {
      hide Inv, Walk, TlbOk, TlbExact, Created, AsTable;
      ghost var mem0, tree0, role0 := mem, tree, role;
      InvShape(mem, tree, role, boot, {});
      root := AllocFrame();
      if root == 0 { return; }
      InitPml4(root, boot);
      CreateInv(mem0, tree0, role0, boot, root, mem[root]);
      CreateGrows(mem0, tree0, role0, boot, root, mem[root], cr3, tlb);
      tree := tree[N4(root) := root];
      role := role0[root := TableOf(N4(root))];
    }

    /** vmm_fork_pml4: a copy-on-write clone of the address space at src, which is left running.
        When frames run out, the tables linked so far are freed again and 0 is returned. */
    method ForkPml4(src: nat) returns (child: nat)
      requires Valid() && N4(src) in tree
      modifies `mem, `tree, `role, `cr3, `tlb, pmm, pmm.bitmap
      ensures Valid()
      ensures child != 0 <==> |old(pmm.free)| >= |TablesOf(old(tree), src)|
      ensures child != 0 ==> |pmm.free| == |old(pmm.free)| - |TablesOf(old(tree), src)|
      ensures child != 0 ==>
        && Cloned(old(mem), old(tree), old(role), mem, tree, role, boot, {}, N4(src), N4(child))
        && N4(child) !in old(tree) && cr3 == src && tlb == map[]
      ensures child == 0 ==>
        && Abandoned(old(mem), old(tree), old(role), mem, tree, role, boot, {}, N4(src))
        && cr3 == old(cr3) && tlb == old(tlb)
      ensures child == 0 && old(Exact()) ==> (Exact() <==> WritesAllowed(mem, cr3, tlb))
    {
      hide Inv, Cloning, DirProgress, Cloned, Abandoned, CloneFailed, TlbOk, ForkTable, TreeStep, RoleStep, KernelHalfOk;
      hide FreeCount, Size, TablesOf, TlbExact, WritesAllowed;
      ghost var mem0, tree0, role0 := mem, tree, role;
      ghost var s := N4(src);
      FreeCountIs(role, pmm.bitmap[..], pmm.free);
      TablesCount(mem, tree, role, boot, src);
      SizePositive(tree, s);
      TableAt(mem, tree, role, boot, {}, s);
      KernelHalfAt(mem, tree, role, boot, src);
      var frame;
      ghost var d;
      frame, d := StartClone(s, None, {});
      if frame == 0 {
        TlbAfterFailure(mem0, tree0, role0, boot, mem, tree, role, s, cr3, tlb);
        if TlbExact(mem0, cr3, tlb) { ExactAfterFailure(mem0, tree0, role0, boot, mem, tree, role, s, cr3, tlb); }
        return 0;
      }
      ghost var mem1 := mem;
      CloningFrames(mem0, tree0, role0, mem, tree, role, boot, {}, s, d, frame);
      InitPml4(frame, src);
      CloningRewrite(mem0, tree0, role0, mem1, tree, role, boot, {}, s, d, frame, mem[frame]);
      NoDirProgress(mem0, tree0, role0, mem, tree, role, boot, {}, s, d, frame);
      ForkTableStart(mem0, tree0, role0, mem, tree, role, boot, src, frame);
      for i := 0 to USER_ENTRIES
        invariant Synced() && Cloning(mem0, tree0, role0, mem, tree, role, boot, {}, s, d, frame)
        invariant s in tree && tree[s] == src && DirProgress(mem, tree, s, d, i) && ForkTable(mem, boot, frame, i)
        invariant cr3 == old(cr3) && tlb == old(tlb)
      {
        ghost var memB, treeB, roleB := mem, tree, role;
        CloningSparesBoot(mem0, tree0, role0, mem, tree, role, boot, {}, s, d, frame);
        var ok := CloneEntry(4, src, frame, i, s, d, {}, mem0, tree0, role0);
        if !ok {
          UndoFork(src, frame, i, mem0, tree0, role0, memB, treeB, roleB);
          if TlbExact(mem0, cr3, tlb) { ExactAfterFailure(mem0, tree0, role0, boot, mem, tree, role, s, cr3, tlb); }
          return 0;
        }
        CloningSparesBoot(mem0, tree0, role0, mem, tree, role, boot, {}, s, d, frame);
        ForkTableStep(memB, mem, boot, frame, i);
      }
      ForkTableDone(mem, boot, frame);
      DirDone(mem0, tree0, role0, mem, tree, role, boot, {}, s, d, frame);
      ClonedInv(mem0, tree0, role0, mem, tree, role, boot, {}, s, d);
      CloningParts(mem0, tree0, role0, mem, tree, role, boot, {}, s, d, frame);
      ClonedCount(mem0, tree0, role0, mem, tree, role, boot, {}, s, d);
      FreeCountIs(role, pmm.bitmap[..], pmm.free);
      cr3 := src;
      tlb := map[];
      TlbEmpty(mem, tree, role, cr3);
      child := frame;
    }

    /** The failure branch of vmm_fork_pml4. */
    method UndoFork(src: nat, frame: nat, i: nat, ghost mem0: seq<Page>, ghost tree0: map<Node, nat>, ghost role0: seq<Role>,
                    ghost memB: seq<Page>, ghost treeB: map<Node, nat>, ghost roleB: seq<Role>)
      requires Synced() && i <= USER_ENTRIES && Inv(mem0, tree0, role0, boot, {}) && N4(frame) !in tree0
      requires TlbOk(mem0, tree0, role0, cr3, tlb)
      requires Cloning(mem0, tree0, role0, memB, treeB, roleB, boot, {}, N4(src), N4(frame), frame)
      requires DirProgress(memB, treeB, N4(src), N4(frame), i) && ForkTable(memB, boot, frame, i)
      requires CloneFailed(mem0, tree0, role0, mem, tree, role, boot, {}, N4(src), N4(frame))
      requires tree == treeB && frame < |mem| == |memB| && mem[frame] == memB[frame]
      modifies `tree, `role, pmm, pmm.bitmap
      ensures Valid() && Abandoned(mem0, tree0, role0, mem, tree, role, boot, {}, N4(src))
    {
      hide Inv, Cloning, DirProgress, Abandoned, TlbOk, ForkTable, TreeStep, RoleStep, Released, Without, TablesOf, WriteOff;
      FailedParts(mem0, tree0, role0, memB, treeB, roleB, mem, tree, role, boot, src, frame, i);
      PartialRoot(memB, mem, tree, role, boot, N4(src), frame, i);
      ForkUndone(mem0, tree0, role0, tree, role, boot, frame);
      ghost var off := WriteOff(role0, Released(role, frame));
      WriteOffOk(role0, Released(role, frame));
      assert Abandoned(mem0, tree0, role0, mem, tree0, off, boot, {}, N4(src));
      DestroyUserPml4(frame);
      role := off;
      TlbAfterFailure(mem0, tree0, role0, boot, mem, tree, role, N4(src), cr3, tlb);
    }

    /** The read-only walk of cow_handle: the leaf table and entry of page v, ABSENT when there is none. */
    method FindLeaf(root: nat, v: VPage) returns (pt: nat, e: Pte)
      requires Good() && N4(root) in tree && UserPage(v)
      ensures e.present <==> Walk(mem, root, v).Some?
      ensures e.present ==> Walk(mem, root, v) == Some(e) && N1(root, v.a, v.b, v.c) in tree && pt == tree[N1(root, v.a, v.b, v.c)]
    {
      hide Inv;
      WalkFollowsTree(mem, tree, role, boot, {}, root, v);
      var e4 := At(mem, root, v.a);
      if !e4.present { return 0, ABSENT; }
      var e3 := At(mem, e4.frame, v.b);
      if !e3.present || e3.huge { return 0, ABSENT; }
      var e2 := At(mem, e3.frame, v.c);
      if !e2.present || e2.huge { return 0, ABSENT; }
      pt, e := e2.frame, At(mem, e2.frame, v.d);
      if e.present { LeafTableOfWalk(mem, tree, role, boot, root, v); }
    }

    /** cow_handle: give page v of the running address space its own copy, if it is copy-on-write. */
    method CowHandle(v: VPage) returns (handled: bool)
      requires Valid() && N4(cr3) in tree && UserPage(v)
      modifies `mem, `role, `tlb, pmm, pmm.bitmap
      ensures Valid() && (old(Exact()) ==> Exact())
      ensures handled <==> old(Walk(mem, cr3, v).Some? && Walk(mem, cr3, v).value.cow && pmm.free != {})
      ensures handled ==> v !in tlb && exists f: nat ::
        f in old(pmm.free) && pmm.free == old(pmm.free) - {f} && SplitPage(old(mem), mem, tree, role, cr3, v, f)
      ensures !handled ==> mem == old(mem) && role == old(role) && tlb == old(tlb) && pmm.free == old(pmm.free)
    {
      hide Inv, Walk, TlbOk, TlbExact, SplitPage, Represents;
      var pt, e := FindLeaf(cr3, v);
      if !e.present || !e.cow { return false; }
      ghost var role0 := role;
      var f := AllocFrame();
      if f == 0 { return false; }
      SplitStep(mem, tree, role0, boot, cr3, v, f, tlb);
      mem := mem[f := mem[e.frame]];
      ghost var role1 := LeafRole(mem, tree, role, N1(cr3, v.a, v.b, v.c), v.d, f);
      mem := SetEntry(mem, pt, v.d, e.(frame := f, cow := false, write := true));
      role := role1;
      tlb := tlb - {v};
      handled := true;
    }

    /** vmm_switch_to; also the CR3 load of context_switch, which skips the switch for 0. */
    method SwitchTo(root: nat)
      requires Valid() && N4(root) in tree
      modifies `cr3, `tlb
      ensures Valid() && (old(Exact()) ==> Exact()) && cr3 == root
      ensures tlb == (if old(cr3) == root then old(tlb) else map[])
    {
      hide Inv, Walk;
      if root != cr3 {
        cr3 := root;
        tlb := map[];
      }
    }

    /** The processor may cache the translation of any page it walks. */
    method CacheTranslation(v: VPage)
      requires Valid() && N4(cr3) in tree && UserPage(v)
      modifies `tlb
      ensures Valid() && (old(Exact()) ==> Exact())
      ensures tlb == (if v !in old(tlb) && Walk(mem, cr3, v).Some? then old(tlb)[v := Walk(mem, cr3, v).value] else old(tlb))
    {
      hide Inv, Walk;
      var _, e := FindLeaf(cr3, v);
      if v !in tlb && e.present {
        WalkReachesData(mem, tree, role, boot, cr3, v);
        tlb := tlb[v := e];
      }
    }

    /** ... and may drop any cached translation. */
    method DropTranslation(v: VPage)
      requires Valid()
      modifies `tlb
      ensures Valid() && (old(Exact()) ==> Exact()) && tlb == old(tlb) - {v}
    {
      hide Inv, Walk;
      tlb := tlb - {v};
    }

    /** A user-mode load: through the cached translation if there is one, else by a walk. */
    method UserLoad(v: VPage, off: nat) returns (b: Option<Byte>)
      requires Valid() && N4(cr3) in tree && UserPage(v) && off < PAGE_SIZE
      ensures b.Some? <==> View(mem, cr3, v).Some? && View(mem, cr3, v).value.user
      ensures b.Some? ==> off < |View(mem, cr3, v).value.bytes| && b.value == View(mem, cr3, v).value.bytes[off]
    {
      hide Inv, Walk;
      var _, e := FindLeaf(cr3, v);
      if v in tlb {
        CachedIsWalk(mem, tree, role, boot, cr3, v, tlb);
        e := tlb[v];
      }
      if !e.present || !e.user { return None; }
      WalkReachesData(mem, tree, role, boot, cr3, v);
      b := Some(mem[e.frame].bytes[off]);
    }

    /** One attempt at a user-mode store; it faults unless the translation allows user writes. */
    method TryStore(v: VPage, off: nat, b: Byte) returns (ok: bool)
      requires Valid() && N4(cr3) in tree && UserPage(v) && off < PAGE_SIZE
      modifies `mem
      ensures Valid() && (old(Exact()) ==> Exact())
      ensures ok <==> old(Walk(mem, cr3, v).Some? && Walk(mem, cr3, v).value.user
                          && (Walk(mem, cr3, v).value.write || (v in tlb && tlb[v].write)))
      ensures !ok ==> mem == old(mem)
      ensures ok ==> StoredByte(old(mem), mem, tree, cr3, v, off, b)
    {
      hide Inv, Walk, TlbOk, TlbExact, StoredByte;
      var _, e := FindLeaf(cr3, v);
      if v in tlb {
        CachedIsWalk(mem, tree, role, boot, cr3, v, tlb);
        e := tlb[v];
      }
      if !e.present || !e.user || !e.write { return false; }
      WalkReachesData(mem, tree, role, boot, cr3, v);
      StoreViews(mem, tree, role, boot, cr3, v, off, b);
      StoreTlb(mem, tree, role, boot, e.frame, off, b, cr3, tlb);
      mem := mem[e.frame := Data(mem[e.frame].bytes[off := b])];
      ok := true;
    }

    /** A user-mode store: on a protection fault the handler runs and the store is tried once more;
        false means the kernel reports a page fault and halts. */
    method UserStore(v: VPage, off: nat, b: Byte) returns (ok: bool)
      requires Valid() && N4(cr3) in tree && UserPage(v) && off < PAGE_SIZE
      modifies `mem, `role, `tlb, pmm, pmm.bitmap
      ensures Valid() && (old(Exact()) ==> Exact())
      ensures ok ==> StoredByte(old(mem), mem, tree, cr3, v, off, b)
      ensures !ok ==> SameViews(old(mem), mem, tree)
      ensures pmm.free == old(pmm.free) || exists f: nat :: f in old(pmm.free) && pmm.free == old(pmm.free) - {f}
      ensures ok <==> old(Walk(mem, cr3, v).Some? && Walk(mem, cr3, v).value.user
                          && (Walk(mem, cr3, v).value.write || (v in tlb && tlb[v].write)
                              || (Walk(mem, cr3, v).value.cow && pmm.free != {})))
    {
      hide Inv, Walk, TlbOk, TlbExact, View;
      ok := TryStore(v, off, b);
      if ok { return; }
      var handled := CowHandle(v);
      if handled {
        ok := TryStore(v, off, b);
      }
    }
  }
}
