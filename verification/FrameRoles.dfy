/** Consequences of the invariant that `CowRefinement.Run` keeps: every frame has one use, and teardown
    gives back exactly the tables of the address space. */
module FrameRoles {
  import opened Bytes
  import opened Pmm
  import opened Ptes
  import opened PageTables
  import opened TableSteps
  import opened CloneSteps
  import opened VmSteps
  import opened FrameCounts
  import opened Views
  import opened Vmm

  /** A frame that two different user pages reach is writable through neither. */
  lemma SharedIsReadOnly(mmu: Mmu, r: nat, v: VPage, r': nat, v': VPage)
    requires mmu.Valid() && N4(r) in mmu.tree && N4(r') in mmu.tree && UserPage(v) && UserPage(v')
    requires Walk(mmu.mem, r, v).Some? && Walk(mmu.mem, r', v').Some? && (r != r' || v != v')
    requires Walk(mmu.mem, r, v).value.frame == Walk(mmu.mem, r', v').value.frame
    ensures !Walk(mmu.mem, r, v).value.write && !Walk(mmu.mem, r', v').value.write
  {
    hide Inv, Walk;
    WalkReachesData(mmu.mem, mmu.tree, mmu.role, mmu.boot, r, v);
    WalkReachesData(mmu.mem, mmu.tree, mmu.role, mmu.boot, r', v');
  }

  /** Tables, mapped data, free frames and the boot PML4 are four disjoint kinds of frame, and a table
      frame is the table of one place in one address space. */
  lemma OneUsePerFrame(mmu: Mmu, n: Node, m: Node, r: nat, v: VPage)
    requires mmu.Valid() && n in mmu.tree && m in mmu.tree && N4(r) in mmu.tree && UserPage(v)
    ensures mmu.tree[n] == mmu.tree[m] ==> n == m
    ensures mmu.tree[n] !in mmu.pmm.free && mmu.tree[n] != mmu.boot
    ensures Walk(mmu.mem, r, v).Some? ==>
      var f := Walk(mmu.mem, r, v).value.frame; f != mmu.tree[n] && f !in mmu.pmm.free && f != mmu.boot && f != 0
  {
    hide Inv, Walk;
    InvShape(mmu.mem, mmu.tree, mmu.role, mmu.boot, {});
    TableAt(mmu.mem, mmu.tree, mmu.role, mmu.boot, {}, n);
    TableAt(mmu.mem, mmu.tree, mmu.role, mmu.boot, {}, m);
    if Walk(mmu.mem, r, v).Some? { WalkReachesData(mmu.mem, mmu.tree, mmu.role, mmu.boot, r, v); }
  }

  // ----- Conservation

  /** The pool of an address space is the free frames and its tables. */
  lemma PoolIs(mmu: Mmu, root: nat)
    requires mmu.Valid()
    ensures forall f :: InPool(mmu.role, root, f) <==> f in mmu.pmm.free + TablesOf(mmu.tree, root)
  {
    PoolOf(mmu.mem, mmu.tree, mmu.role, mmu.boot, mmu.pmm.bitmap[..], mmu.pmm.free, root);
  }

  lemma PoolOf(mem: seq<Page>, tree: map<Node, nat>, role: seq<Role>, boot: nat, words: seq<nat>, free: set<nat>, root: nat)
    requires Inv(mem, tree, role, boot, {}) && FreeAgree(role, free) && Represents(words, free)
    ensures forall f :: InPool(role, root, f) <==> f in free + TablesOf(tree, root)
  {
    hide Represents;
    BelowMax(words, free);
    forall f: nat
      ensures InPool(role, root, f) <==> f in free + TablesOf(tree, root)
    {
      if f in TablesOf(tree, root) {
        var n :| n in tree && n.r == root && tree[n] == f;
        assert NodeOk(mem, tree, role, n);
      }
      if f < |role| && role[f].TableOf? && role[f].node.r == root {
        assert role[f].node in tree && tree[role[f].node] == f;
      }
    }
  }

  /** A successful fork takes from the allocator the child's tables and nothing else. */
  lemma ForkTakesTables(mem0: seq<Page>, tree0: map<Node, nat>, role0: seq<Role>, free0: set<nat>,
                        mem: seq<Page>, tree: map<Node, nat>, role: seq<Role>, boot: nat, words: seq<nat>, free: set<nat>,
                        s: Node, child: nat)
    requires Inv(mem0, tree0, role0, boot, {}) && FreeAgree(role0, free0) && N4(child) !in tree0
    requires Cloned(mem0, tree0, role0, mem, tree, role, boot, {}, s, N4(child))
    requires FreeAgree(role, free) && Represents(words, free) && (forall f | f in free0 :: f < MAX_FRAMES)
    ensures free + TablesOf(tree, child) == free0
  {
    hide Represents, Marked, Mirror;
    InvShape(mem0, tree0, role0, boot, {});
    ClonedInv(mem0, tree0, role0, mem, tree, role, boot, {}, s, N4(child));
    hide Inv;
    PoolOf(mem, tree, role, boot, words, free, child);
    forall f: nat
      ensures f in free0 <==> InPool(role, child, f)
    {
      if f < MAX_FRAMES && role0[f].TableOf? && role0[f].node.r == child {
        NothingUnder(mem0, tree0, role0, N4(child), role0[f].node);
      }
    }
  }

  /** Fork followed by teardown of the child leaves the free frames as they were.  The fork succeeds exactly
      when there is a free frame for every table of the parent. */
  method ForkAndDestroy(mmu: Mmu, src: nat) returns (ok: bool)
    requires mmu.Valid() && N4(src) in mmu.tree
    modifies mmu`mem, mmu`tree, mmu`role, mmu`cr3, mmu`tlb, mmu.pmm, mmu.pmm.bitmap
    ensures mmu.Valid()
    ensures ok <==> |old(mmu.pmm.free)| >= |TablesOf(old(mmu.tree), src)|
    ensures ok ==> mmu.pmm.free == old(mmu.pmm.free) && mmu.tree == old(mmu.tree)
  {
    hide Inv, Walk, Cloned, Abandoned, TlbOk, TlbExact, Represents, FreeAgree, TablesOf, Released, Without;
    ghost var mem0, tree0, role0, free0 := mmu.mem, mmu.tree, mmu.role, mmu.pmm.free;
    BelowMax(mmu.pmm.bitmap[..], free0);
    var child := mmu.ForkPml4(src);
    if child == 0 { return false; }
    ForkTakesTables(mem0, tree0, role0, free0, mmu.mem, mmu.tree, mmu.role, mmu.boot, mmu.pmm.bitmap[..],
                    mmu.pmm.free, N4(src), child);
    ChildRoot(mem0, tree0, role0, mmu.mem, mmu.tree, mmu.role, mmu.boot, N4(src), child);
    mmu.DestroyUserPml4(child);
    ok := true;
  }

  lemma ChildRoot(mem0: seq<Page>, tree0: map<Node, nat>, role0: seq<Role>,
                  mem: seq<Page>, tree: map<Node, nat>, role: seq<Role>, boot: nat, s: Node, child: nat)
    requires Cloned(mem0, tree0, role0, mem, tree, role, boot, {}, s, N4(child))
    requires Inv(mem0, tree0, role0, boot, {}) && N4(child) !in tree0
    ensures N4(child) in tree && Without(tree, child) == tree0
  {
    hide Inv, RoleStep, TakenFor, Marked, Mirror;
    NoneUnderNewRoot(mem0, tree0, role0, boot, child);
    assert forall n | n in tree && n !in tree0 :: Under(n, N4(child));
  }

  datatype Request = Request(v: VPage, bytes: seq<Byte>, flags: Pte)

  /** How many requests succeeded. */
  function Successes(results: seq<bool>): nat
  {
    if results == [] then 0 else Successes(results[..|results| - 1]) + (if results[|results| - 1] then 1 else 0)
  }

  /** One request: a data frame taken from the pool and at most three tables, or fewer than four frames left. */
  method MapRequest(mmu: Mmu, q: Request, root: nat, ghost free0: set<nat>, ghost data: set<nat>)
    returns (done: bool, ghost data': set<nat>)
    requires mmu.Valid() && N4(root) in mmu.tree && UserPage(q.v) && |q.bytes| == PAGE_SIZE && data <= free0
    requires forall f :: InPool(mmu.role, root, f) <==> f in free0 && f !in data
    modifies mmu`mem, mmu`tree, mmu`role, mmu`tlb, mmu.pmm, mmu.pmm.bitmap
    ensures mmu.Valid() && N4(root) in mmu.tree && data' <= free0
    ensures forall f :: InPool(mmu.role, root, f) <==> f in free0 && f !in data'
    ensures |data'| == |data| + (if done then 1 else 0)
    ensures done ==> |mmu.pmm.free| + 4 >= |old(mmu.pmm.free)|
    ensures !done ==> |old(mmu.pmm.free)| <= 3
  {
    hide Inv, Walk, TlbOk, TlbExact, NewPage, SameViews, SameWalks, FreeAgree, Represents, InPool, Extends, Path;
    ghost var memB, treeB, roleB := mmu.mem, mmu.tree, mmu.role;
    ghost var e;
    done, e := mmu.MapNewPage(root, q.v, q.bytes, q.flags);
    data' := data;
    if done {
      NewPagePool(memB, treeB, roleB, mmu.mem, mmu.tree, mmu.role, root, q.v, e, q.bytes);
      data' := data + {e.frame};
    } else {
      ZeroNotInPool(memB, treeB, roleB, mmu.boot, root);
    }
  }

  /** Create an address space, map any pages into it, destroy it: the allocator has lost exactly the data
      frames of the mappings that succeeded, one for each.  Creation fails only without a frame, and a
      mapping only when what was free has gone into data and at most three tables for each request so far. */
  method CreateMapDestroy(mmu: Mmu, requests: seq<Request>) returns (ok: bool, results: seq<bool>, ghost data: set<nat>)
    requires mmu.Valid()
    requires forall q | q in requests :: UserPage(q.v) && |q.bytes| == PAGE_SIZE
    modifies mmu`mem, mmu`tree, mmu`role, mmu`tlb, mmu.pmm, mmu.pmm.bitmap
    ensures mmu.Good()
    ensures ok <==> old(mmu.pmm.free) != {}
    ensures !ok ==> results == [] && data == {}
    ensures ok ==> |results| == |requests|
    ensures data <= old(mmu.pmm.free) && |data| == Successes(results) && mmu.pmm.free == old(mmu.pmm.free) - data
    ensures forall i | 0 <= i < |results| && !results[i] :: |old(mmu.pmm.free)| <= Successes(results[..i]) + 3 * i + 4
  {
    hide Inv, Walk, TlbOk, TlbExact, NewPage, SameViews, SameWalks, VmSteps.Created, FreeAgree, Represents, TablesOf, InPool,
         Released, Without, Extends, Path;
    ghost var free0 := mmu.pmm.free;
    results, data := [], {};
    ghost var mem0, tree0, role0 := mmu.mem, mmu.tree, mmu.role;
    assert FreeAgree(role0, free0);
    BelowMax(mmu.pmm.bitmap[..], free0);
    var root := mmu.CreateUserPml4();
    if root == 0 { return false, [], {}; }
    FirstPool(mem0, tree0, role0, mmu.boot, free0, mmu.mem, mmu.tree, mmu.role, root);
    for i := 0 to |requests|
      invariant mmu.Valid() && N4(root) in mmu.tree && |results| == i
      invariant data <= free0 && |data| == Successes(results)
      invariant forall f :: InPool(mmu.role, root, f) <==> f in free0 && f !in data
      invariant |mmu.pmm.free| + Successes(results) + 3 * i + 1 >= |free0|
      invariant forall j | 0 <= j < i && !results[j] :: |free0| <= Successes(results[..j]) + 3 * j + 4
    {
      var done;
      done, data := MapRequest(mmu, requests[i], root, free0, data);
      assert (results + [done])[..i] == results;
      assert forall j | 0 <= j < i :: (results + [done])[..j] == results[..j];
      results := results + [done];
    }
    PoolIs(mmu, root);
    mmu.DestroyUserPml4(root);
    assert mmu.pmm.free == free0 - data;
    ok := true;
  }

  lemma FirstPool(mem: seq<Page>, tree: map<Node, nat>, role: seq<Role>, boot: nat, free: set<nat>,
                  mem': seq<Page>, tree': map<Node, nat>, role': seq<Role>, root: nat)
    requires Inv(mem, tree, role, boot, {}) && FreeAgree(role, free) && (forall f | f in free :: f < MAX_FRAMES)
    requires VmSteps.Created(mem, tree, role, mem', tree', role', root)
    ensures N4(root) in tree'
    ensures forall f :: InPool(role', root, f) <==> f in free
  {
    InvShape(mem, tree, role, boot, {});
    hide Inv;
    forall f: nat
      ensures InPool(role', root, f) <==> f in free
    {
      if f < MAX_FRAMES && role[f].TableOf? && role[f].node.r == root {
        NothingUnder(mem, tree, role, N4(root), role[f].node);
      }
    }
  }

  lemma NewPagePool(mem: seq<Page>, tree: map<Node, nat>, role: seq<Role>,
                    mem': seq<Page>, tree': map<Node, nat>, role': seq<Role>, root: nat, v: VPage, e: Pte, bytes: seq<Byte>)
    requires NewPage(mem, tree, role, mem', tree', role', root, v, e, bytes)
    ensures InPool(role, root, e.frame) && SameRoots(tree, tree')
    ensures forall g :: InPool(role', root, g) <==> InPool(role, root, g) && g != e.frame
  {
    hide Walk;
  }

  lemma ZeroNotInPool(mem: seq<Page>, tree: map<Node, nat>, role: seq<Role>, boot: nat, root: nat)
    requires Inv(mem, tree, role, boot, {})
    ensures !InPool(role, root, 0)
  {
  }
}
