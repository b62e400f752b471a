/** What a user program sees of its address space, and what each operation of the memory manager does to
    what every program sees. */
module Views {
  import opened Bytes
  import opened Pmm
  import opened Ptes
  import opened PageTables
  import opened TableSteps
  import opened CloneSteps
  import opened VmSteps

  /** A mapped page: its bytes and what user mode may do with it.  A page that is read-only until copied
      counts as writable. */
  datatype PageView = PageView(bytes: seq<Byte>, user: bool, writable: bool, nx: bool)

  function BytesOf(mem: seq<Page>, f: nat): seq<Byte>
  {
    if f < |mem| && mem[f].Data? then mem[f].bytes else []
  }

  function ViewOf(mem: seq<Page>, e: Pte): PageView
  {
    PageView(BytesOf(mem, e.frame), e.user, e.write || e.cow, e.nx)
  }

  /** Page v as the program in the address space r sees it. */
  function View(mem: seq<Page>, r: nat, v: VPage): Option<PageView>
  {
    match Walk(mem, r, v)
    case None => None
    case Some(e) => Some(ViewOf(mem, e))
  }

  /** All programs of `tree` see what they saw. */
  ghost predicate SameViews(mem: seq<Page>, mem': seq<Page>, tree: map<Node, nat>)
  {
    forall r, v | N4(r) in tree && UserPage(v) :: View(mem', r, v) == View(mem, r, v)
  }

  ghost predicate SameViewsBut(mem: seq<Page>, mem': seq<Page>, tree: map<Node, nat>, r0: nat, v0: VPage)
  {
    forall r, v | N4(r) in tree && UserPage(v) && (r != r0 || v != v0) :: View(mem', r, v) == View(mem, r, v)
  }

  /** The leaf entry a walk finds leads to data that is no table and not free. */
  lemma WalkReachesData(mem: seq<Page>, tree: map<Node, nat>, role: seq<Role>, boot: nat, r: nat, v: VPage)
    requires Inv(mem, tree, role, boot, {}) && N4(r) in tree && UserPage(v) && Walk(mem, r, v).Some?
    ensures var n, e := N1(r, v.a, v.b, v.c), Walk(mem, r, v).value;
      && n in tree && |mem| == |role| == MAX_FRAMES && e == At(mem, tree[n], v.d) && e.present
      && 0 < e.frame < MAX_FRAMES && mem[e.frame].Data? && |mem[e.frame].bytes| == PAGE_SIZE
      && (role[e.frame] == Priv(n, v.d) || (role[e.frame] == Shared && !e.write))
  {
    hide Inv, Walk;
    InvShape(mem, tree, role, boot, {});
    WalkFollowsTree(mem, tree, role, boot, {}, r, v);
    LeafAt(mem, tree, role, boot, {}, N1(r, v.a, v.b, v.c), v.d);
  }

  lemma GrownViews(mem: seq<Page>, tree: map<Node, nat>, role: seq<Role>, boot: nat,
                   mem': seq<Page>, tree': map<Node, nat>, role': seq<Role>, root: nat)
    requires Inv(mem, tree, role, boot, {}) && Grown(mem, tree, role, mem', tree', role', root)
    ensures SameViews(mem, mem', tree)
  {
    hide Inv, Walk;
    forall r, v | N4(r) in tree && UserPage(v)
      ensures View(mem', r, v) == View(mem, r, v)
    {
      if Walk(mem, r, v).Some? { WalkReachesData(mem, tree, role, boot, r, v); }
    }
  }

  /** A mapping shows its page the frame's bytes and the given rights, and changes no other view. */
  lemma MappedViews(mem: seq<Page>, tree: map<Node, nat>, role: seq<Role>, boot: nat,
                    mem': seq<Page>, tree': map<Node, nat>, role': seq<Role>, root: nat, v0: VPage, e: Pte)
    requires Inv(mem, tree, role, boot, {}) && MappedPage(mem, tree, role, mem', tree', role', root, v0, e)
    requires role[e.frame] == Kernel
    ensures SameViewsBut(mem, mem', tree, root, v0)
    ensures View(mem', root, v0) == Some(ViewOf(mem, e))
  {
    hide Inv, Walk;
    forall r, v | N4(r) in tree && UserPage(v) && (r != root || v != v0)
      ensures View(mem', r, v) == View(mem, r, v)
    {
      if Walk(mem, r, v).Some? { WalkReachesData(mem, tree, role, boot, r, v); }
    }
  }

  lemma CreatedViews(mem: seq<Page>, tree: map<Node, nat>, role: seq<Role>, boot: nat,
                     mem': seq<Page>, tree': map<Node, nat>, role': seq<Role>, root: nat)
    requires Inv(mem, tree, role, boot, {}) && Created(mem, tree, role, mem', tree', role', root)
    ensures SameViews(mem, mem', tree)
    ensures forall v | UserPage(v) :: View(mem', root, v) == None
  {
    hide Inv, Walk;
    forall r, v | N4(r) in tree && UserPage(v)
      ensures View(mem', r, v) == View(mem, r, v)
    {
      if Walk(mem, r, v).Some? { WalkReachesData(mem, tree, role, boot, r, v); }
    }
  }

  /** Marking entries copy-on-write is invisible. */
  lemma MarkedView(mem0: seq<Page>, tree0: map<Node, nat>, role0: seq<Role>, boot: nat,
                   mem: seq<Page>, tree: map<Node, nat>, role: seq<Role>, s: Node, r: nat, v: VPage)
    requires Inv(mem0, tree0, role0, boot, {}) && Inv(mem, tree, role, boot, {}) && Marked(mem0, mem, role0, s)
    requires N4(r) in tree0 && N4(r) in tree && UserPage(v)
    requires N1(r, v.a, v.b, v.c) in tree <==> N1(r, v.a, v.b, v.c) in tree0
    requires N1(r, v.a, v.b, v.c) in tree ==> tree[N1(r, v.a, v.b, v.c)] == tree0[N1(r, v.a, v.b, v.c)]
    ensures View(mem, r, v) == View(mem0, r, v)
  {
    hide Inv, Walk;
    WalkFollowsTree(mem0, tree0, role0, boot, {}, r, v);
    WalkFollowsTree(mem, tree, role, boot, {}, r, v);
    var n := N1(r, v.a, v.b, v.c);
    if n in tree {
      TableAt(mem0, tree0, role0, boot, {}, n);
      TableAt(mem, tree, role, boot, {}, n);
      assert MarkedEntry(mem0[tree0[n]].entries[v.d], mem[tree0[n]].entries[v.d]);
      if Walk(mem0, r, v).Some? { WalkReachesData(mem0, tree0, role0, boot, r, v); }
    }
  }

  /** Fork: the child sees what the parent sees, and no view changes. */
  lemma ClonedViews(mem0: seq<Page>, tree0: map<Node, nat>, role0: seq<Role>,
                    mem: seq<Page>, tree: map<Node, nat>, role: seq<Role>, boot: nat, src: nat, child: nat)
    requires Inv(mem0, tree0, role0, boot, {}) && N4(src) in tree0 && N4(child) !in tree0
    requires Cloned(mem0, tree0, role0, mem, tree, role, boot, {}, N4(src), N4(child))
    ensures SameViews(mem0, mem, tree0)
    ensures forall v | UserPage(v) :: View(mem, child, v) == View(mem0, src, v)
    ensures forall r | N4(r) in tree :: N4(r) in tree0 || r == child
  {
    hide Inv, Walk, View;
    InvShape(mem0, tree0, role0, boot, {});
    forall r, v | N4(r) in tree0 && UserPage(v)
      ensures View(mem, r, v) == View(mem0, r, v)
    {
      MarkedView(mem0, tree0, role0, boot, mem, tree, role, N4(src), r, v);
    }
    forall v | UserPage(v)
      ensures View(mem, child, v) == View(mem0, src, v)
    {
      MirrorView(mem, tree, role, boot, src, child, v);
      assert View(mem, src, v) == View(mem0, src, v);
    }
  }

  lemma MirrorView(mem: seq<Page>, tree: map<Node, nat>, role: seq<Role>, boot: nat, src: nat, child: nat, v: VPage)
    requires Inv(mem, tree, role, boot, {}) && N4(src) in tree && N4(child) in tree && UserPage(v)
    requires Mirror(mem, tree, src, N4(child))
    ensures View(mem, child, v) == View(mem, src, v)
  {
    hide Inv, Walk;
    WalkFollowsTree(mem, tree, role, boot, {}, src, v);
    WalkFollowsTree(mem, tree, role, boot, {}, child, v);
    var q := N1(child, v.a, v.b, v.c);
    assert MirrorNode(mem, tree, src, q);
    if q in tree {
      assert MirrorEntry(At(mem, tree[Rebase(q, src)], v.d), At(mem, tree[q], v.d));
    }
  }

  /** A fork that fails is invisible. */
  lemma AbandonedViews(mem0: seq<Page>, tree0: map<Node, nat>, role0: seq<Role>,
                       mem: seq<Page>, tree: map<Node, nat>, role: seq<Role>, boot: nat, s: Node)
    requires Inv(mem0, tree0, role0, boot, {}) && Abandoned(mem0, tree0, role0, mem, tree, role, boot, {}, s)
    ensures SameViews(mem0, mem, tree0)
  {
    hide Inv, Walk, View;
    forall r, v | N4(r) in tree0 && UserPage(v)
      ensures View(mem, r, v) == View(mem0, r, v)
    {
      MarkedView(mem0, tree0, role0, boot, mem, tree, role, s, r, v);
    }
  }

  /** A byte stored in a private frame is seen through the one page that reaches it, and no other. */
  lemma StoreViews(mem: seq<Page>, tree: map<Node, nat>, role: seq<Role>, boot: nat, r0: nat, v0: VPage, off: nat, b: Byte)
    requires Inv(mem, tree, role, boot, {}) && N4(r0) in tree && UserPage(v0) && off < PAGE_SIZE
    requires Walk(mem, r0, v0).Some? && Walk(mem, r0, v0).value.frame < |role|
    requires role[Walk(mem, r0, v0).value.frame] == Priv(N1(r0, v0.a, v0.b, v0.c), v0.d)
    ensures var f := Walk(mem, r0, v0).value.frame;
      && f < MAX_FRAMES == |mem| && mem[f].Data? && |mem[f].bytes| == PAGE_SIZE
      && var mem' := mem[f := Data(mem[f].bytes[off := b])];
         Inv(mem', tree, role, boot, {}) && SameWalks(mem, mem', tree) && StoredByte(mem, mem', tree, r0, v0, off, b)
  {
    hide Inv, Walk;
    WalkReachesData(mem, tree, role, boot, r0, v0);
    var f := Walk(mem, r0, v0).value.frame;
    var mem' := mem[f := Data(mem[f].bytes[off := b])];
    WriteFrame(mem, tree, role, boot, f, mem'[f]);
    WriteFrameWalks(mem, tree, role, boot, f, mem'[f]);
    forall r, v | N4(r) in tree && UserPage(v) && (r != r0 || v != v0)
      ensures View(mem', r, v) == View(mem, r, v)
    {
      if Walk(mem, r, v).Some? { WalkReachesData(mem, tree, role, boot, r, v); }
    }
  }

  /** The entry cow_handle writes: the copy, writable, no longer copy-on-write. */
  function Owned(e: Pte, f: nat): Pte
  {
    e.(frame := f, cow := false, write := true)
  }

  /** Page v of r has been given its own copy of its frame, in frame f: it is writable and private,
      no other walk changes, and nobody sees a difference. */
  ghost predicate SplitPage(mem: seq<Page>, mem': seq<Page>, tree: map<Node, nat>, role': seq<Role>, r: nat, v: VPage, f: nat)
  {
    && Walk(mem, r, v).Some? && Walk(mem', r, v) == Some(Owned(Walk(mem, r, v).value, f))
    && f < |role'| && role'[f] == Priv(N1(r, v.a, v.b, v.c), v.d)
    && SameWalksBut(mem, mem', tree, r, v)
    && SameViews(mem, mem', tree)
  }

  lemma CopyFrame(mem: seq<Page>, tree: map<Node, nat>, role: seq<Role>, boot: nat, r: nat, v: VPage, f: nat)
    requires Inv(mem, tree, role, boot, {}) && N4(r) in tree && UserPage(v) && Walk(mem, r, v).Some?
    requires 0 < f < MAX_FRAMES && f != boot && role[f] == Kernel
    ensures Walk(mem, r, v).value.frame < |mem| == MAX_FRAMES
    ensures var mem1 := mem[f := mem[Walk(mem, r, v).value.frame]];
      Inv(mem1, tree, role, boot, {}) && SameWalks(mem, mem1, tree) && SameViews(mem, mem1, tree)
  {
    hide Inv, Walk;
    InvShape(mem, tree, role, boot, {});
    WalkReachesData(mem, tree, role, boot, r, v);
    var p := mem[Walk(mem, r, v).value.frame];
    WriteFrame(mem, tree, role, boot, f, p);
    WriteFrameWalks(mem, tree, role, boot, f, p);
    forall r, v | N4(r) in tree && UserPage(v)
      ensures View(mem[f := p], r, v) == View(mem, r, v)
    {
      if Walk(mem, r, v).Some? { WalkReachesData(mem, tree, role, boot, r, v); }
    }
  }

  lemma SplitWalk(mem: seq<Page>, tree: map<Node, nat>, role: seq<Role>, boot: nat, r: nat, v: VPage, f: nat)
    requires Inv(mem, tree, role, boot, {}) && N4(r) in tree && UserPage(v) && Walk(mem, r, v).Some?
    requires Walk(mem, r, v).value.cow && 0 < f < MAX_FRAMES && role[f] == Kernel
    requires Walk(mem, r, v).value.frame < |mem| && mem[f] == mem[Walk(mem, r, v).value.frame]
    ensures var n := N1(r, v.a, v.b, v.c);
      && n in tree && tree[n] < |mem| == MAX_FRAMES && mem[tree[n]].Table? && |mem[tree[n]].entries| == ENTRIES
      && CanSetLeaf(mem, tree, role, boot, n, v.d, Owned(Walk(mem, r, v).value, f))
      && var mem' := SetEntry(mem, tree[n], v.d, Owned(Walk(mem, r, v).value, f));
         var role' := LeafRole(mem, tree, role, n, v.d, f);
         Inv(mem', tree, role', boot, {}) && SplitPage(mem, mem', tree, role', r, v, f)
  {
    hide Inv, Walk;
    WalkReachesData(mem, tree, role, boot, r, v);
    var n, e := N1(r, v.a, v.b, v.c), Owned(Walk(mem, r, v).value, f);
    SetLeaf(mem, tree, role, boot, n, v.d, e);
    SetLeafWalks(mem, tree, role, boot, n, v.d, e);
    var mem' := SetEntry(mem, tree[n], v.d, e);
    forall r', v' | N4(r') in tree && UserPage(v')
      ensures View(mem', r', v') == View(mem, r', v')
    {
      if Walk(mem, r', v').Some? { WalkReachesData(mem, tree, role, boot, r', v'); }
    }
  }

  /** Cached translations do not mind changes outside the tables and to frames that are not private. */
  lemma TlbSame(mem: seq<Page>, tree: map<Node, nat>, role: seq<Role>, boot: nat, mem': seq<Page>, role': seq<Role>,
                cr3: nat, tlb: map<VPage, Pte>)
    requires Inv(mem, tree, role, boot, {}) && TlbOk(mem, tree, role, cr3, tlb)
    requires |mem'| == |role'| == MAX_FRAMES && SameWalks(mem, mem', tree)
    requires forall f | 0 <= f < MAX_FRAMES && role[f].TableOf? :: mem'[f] == mem[f]
    requires forall f | 0 <= f < MAX_FRAMES && role[f].Priv? :: role'[f] == role[f]
    ensures TlbOk(mem', tree, role', cr3, tlb)
    ensures TlbExact(mem, cr3, tlb) ==> TlbExact(mem', cr3, tlb)
  {
    hide Inv, Walk;
    forall v | v in tlb
      ensures TlbEntryOk(mem', tree, role', cr3, v, tlb[v])
      ensures Walk(mem', cr3, v) == Walk(mem, cr3, v)
    {
      assert TlbEntryOk(mem, tree, role, cr3, v, tlb[v]);
      var n := N1(cr3, v.a, v.b, v.c);
      RootOfLeaf(mem, tree, role, boot, n);
      TableAt(mem, tree, role, boot, {}, n);
    }
  }

  /** The last table of a walk that finds an entry. */
  lemma LeafTableOfWalk(mem: seq<Page>, tree: map<Node, nat>, role: seq<Role>, boot: nat, r: nat, v: VPage)
    requires Inv(mem, tree, role, boot, {}) && N4(r) in tree && UserPage(v) && Walk(mem, r, v).Some?
    ensures var n := N1(r, v.a, v.b, v.c);
      n in tree && At(mem, At(mem, At(mem, r, v.a).frame, v.b).frame, v.c).frame == tree[n]
  {
    hide Inv;
    WalkFollowsTree(mem, tree, role, boot, {}, r, v);
    var n := N1(r, v.a, v.b, v.c);
    RootOfLeaf(mem, tree, role, boot, n);
    TableAt(mem, tree, role, boot, {}, N4(r));
    LinkAt(mem, tree, role, boot, {}, N4(r), v.a);
    LinkAt(mem, tree, role, boot, {}, N3(r, v.a), v.b);
    LinkAt(mem, tree, role, boot, {}, N2(r, v.a, v.b), v.c);
  }

  /** The whole of cow_handle once a frame f has been taken. */
  lemma SplitStep(mem: seq<Page>, tree: map<Node, nat>, role: seq<Role>, boot: nat, r: nat, v: VPage, f: nat, tlb: map<VPage, Pte>)
    requires Inv(mem, tree, role, boot, {}) && N4(r) in tree && UserPage(v) && Walk(mem, r, v).Some? && Walk(mem, r, v).value.cow
    requires 0 < f < MAX_FRAMES && f != boot && role[f] == Free && TlbOk(mem, tree, role, r, tlb)
    ensures var n, e := N1(r, v.a, v.b, v.c), Walk(mem, r, v).value;
      && e.frame < |mem| == |role| == MAX_FRAMES && n in tree && tree[n] < |mem|
      && var mem1 := mem[f := mem[e.frame]];
         && mem1[tree[n]].Table? && |mem1[tree[n]].entries| == ENTRIES
         && var mem2, role2 := SetEntry(mem1, tree[n], v.d, Owned(e, f)), LeafRole(mem1, tree, role[f := Kernel], n, v.d, f);
            && Inv(mem2, tree, role2, boot, {}) && SplitPage(mem, mem2, tree, role2, r, v, f)
            && TlbOk(mem2, tree, role2, r, tlb - {v}) && (TlbExact(mem, r, tlb) ==> TlbExact(mem2, r, tlb - {v}))
            && forall g | 0 <= g < MAX_FRAMES :: role2[g] == Free <==> role[g] == Free && g != f
  {
    hide Inv, Walk, View, TlbOk, TlbExact, TlbEntryOk;
    InvShape(mem, tree, role, boot, {});
    WalkReachesData(mem, tree, role, boot, r, v);
    var n, e := N1(r, v.a, v.b, v.c), Walk(mem, r, v).value;
    TableAt(mem, tree, role, boot, {}, n);
    var role1 := role[f := Kernel];
    ChangeKernelFrame(mem, tree, role, boot, {}, f, Kernel);
    CopyFrame(mem, tree, role1, boot, r, v, f);
    var mem1 := mem[f := mem[e.frame]];
    TlbSame(mem, tree, role, boot, mem1, role1, r, tlb);
    assert Walk(mem1, r, v) == Walk(mem, r, v);
    SplitWalk(mem1, tree, role1, boot, r, v, f);
    LeafTlb(mem1, tree, role1, boot, n, v.d, Owned(e, f), r, tlb);
  }

  /** A cached translation has the frame and the user right of the leaf entry, and allows writing only
      where the entry does or the frame is private and still to be copied. */
  lemma CachedIsWalk(mem: seq<Page>, tree: map<Node, nat>, role: seq<Role>, boot: nat, cr3: nat, v: VPage, tlb: map<VPage, Pte>)
    requires Inv(mem, tree, role, boot, {}) && N4(cr3) in tree && UserPage(v) && v in tlb && TlbOk(mem, tree, role, cr3, tlb)
    ensures Walk(mem, cr3, v).Some? && |role| == MAX_FRAMES && tlb[v].present
    ensures var e, t := Walk(mem, cr3, v).value, tlb[v];
      && t.frame == e.frame < MAX_FRAMES && t.user == e.user && t.nx == e.nx && (e.write ==> t.write)
      && (t.write ==> (e.write || e.cow) && role[e.frame] == Priv(N1(cr3, v.a, v.b, v.c), v.d))
  {
    hide Inv, Walk;
    assert TlbEntryOk(mem, tree, role, cr3, v, tlb[v]);
    WalkFollowsTree(mem, tree, role, boot, {}, cr3, v);
    WalkReachesData(mem, tree, role, boot, cr3, v);
  }

  lemma StoreTlb(mem: seq<Page>, tree: map<Node, nat>, role: seq<Role>, boot: nat, f: nat, off: nat, b: Byte,
                 cr3: nat, tlb: map<VPage, Pte>)
    requires Inv(mem, tree, role, boot, {}) && TlbOk(mem, tree, role, cr3, tlb)
    requires f < MAX_FRAMES && mem[f].Data? && off < |mem[f].bytes|
    ensures TlbOk(mem[f := Data(mem[f].bytes[off := b])], tree, role, cr3, tlb)
    ensures TlbExact(mem, cr3, tlb) ==> TlbExact(mem[f := Data(mem[f].bytes[off := b])], cr3, tlb)
  {
    hide Inv, Walk, TlbOk, TlbExact;
    InvShape(mem, tree, role, boot, {});
    var p := Data(mem[f].bytes[off := b]);
    WriteFrameWalks(mem, tree, role, boot, f, p);
    forall g | 0 <= g < MAX_FRAMES && role[g].TableOf?
      ensures mem[f := p][g] == mem[g]
    {
      TableAt(mem, tree, role, boot, {}, role[g].node);
    }
    TlbSame(mem, tree, role, boot, mem[f := p], role, cr3, tlb);
  }

  /** Byte `off` of page v of r is now b, and nobody sees any other change. */
  ghost predicate StoredByte(mem: seq<Page>, mem': seq<Page>, tree: map<Node, nat>, r: nat, v: VPage, off: nat, b: Byte)
  {
    && SameViewsBut(mem, mem', tree, r, v)
    && View(mem, r, v).Some? && off < |View(mem, r, v).value.bytes|
    && View(mem', r, v) == Some(View(mem, r, v).value.(bytes := View(mem, r, v).value.bytes[off := b]))
  }

  ghost predicate SameRoots(tree: map<Node, nat>, tree': map<Node, nat>)
  {
    forall r :: N4(r) in tree <==> N4(r) in tree'
  }

  /** The frames that are free or hold a table of the address space at root. */
  ghost predicate InPool(role: seq<Role>, root: nat, f: nat)
  {
    f < |role| && (role[f] == Free || (role[f].TableOf? && role[f].node.r == root))
  }

  /** From role to role', the pool of root loses exactly the frame f (nothing, when f is 0). */
  ghost predicate PoolLoses(role: seq<Role>, role': seq<Role>, root: nat, f: nat)
  {
    forall g :: InPool(role', root, g) <==> InPool(role, root, g) && g != f
  }

  /** Page v of root is new: entry e, the given bytes, nothing else visible changed, and the free frames
      lose only e.frame and new tables of root. */
  ghost predicate NewPage(mem: seq<Page>, tree: map<Node, nat>, role: seq<Role>,
                          mem': seq<Page>, tree': map<Node, nat>, role': seq<Role>, root: nat, v: VPage, e: Pte, bytes: seq<Byte>)
  {
    && e.present && Walk(mem', root, v) == Some(e) && BytesOf(mem', e.frame) == bytes
    && SameViewsBut(mem, mem', tree, root, v) && SameWalksBut(mem, mem', tree, root, v)
    && SameRoots(tree, tree')
    && 0 < e.frame < |role| && role[e.frame] == Free && PoolLoses(role, role', root, e.frame)
  }

  lemma NewPageView(mem: seq<Page>, tree: map<Node, nat>, role: seq<Role>,
                    mem': seq<Page>, tree': map<Node, nat>, role': seq<Role>, root: nat, v: VPage, e: Pte, bytes: seq<Byte>)
    requires NewPage(mem, tree, role, mem', tree', role', root, v, e, bytes)
    ensures View(mem', root, v) == Some(PageView(bytes, e.user, e.write || e.cow, e.nx))
    ensures SameViewsBut(mem, mem', tree, root, v) && SameRoots(tree, tree')
  {
    hide Walk;
  }

  /** A frame taken and filled, then mapped, is a new page. */
  lemma NewPageOk(mem: seq<Page>, tree: map<Node, nat>, role: seq<Role>, boot: nat, f: nat, bytes: seq<Byte>,
                  mem': seq<Page>, tree': map<Node, nat>, role': seq<Role>, root: nat, v: VPage, e: Pte)
    requires Inv(mem, tree, role, boot, {}) && N4(root) in tree && UserPage(v) && |bytes| == PAGE_SIZE
    requires 0 < f < MAX_FRAMES && f != boot && role[f] == Free && e.present && e.frame == f
    requires MappedPage(mem[f := Data(bytes)], tree, role[f := Kernel], mem', tree', role', root, v, e)
    ensures NewPage(mem, tree, role, mem', tree', role', root, v, e, bytes)
  {
    hide Inv, Walk;
    InvShape(mem, tree, role, boot, {});
    FilledFrame(mem, tree, role, boot, f, bytes);
    var mem1, role1 := mem[f := Data(bytes)], role[f := Kernel];
    MappedViews(mem1, tree, role1, boot, mem', tree', role', root, v, e);
  }

  /** Filling a free frame for later use is invisible. */
  lemma FilledFrame(mem: seq<Page>, tree: map<Node, nat>, role: seq<Role>, boot: nat, f: nat, bytes: seq<Byte>)
    requires Inv(mem, tree, role, boot, {}) && 0 < f < MAX_FRAMES && f != boot && role[f] == Free && |bytes| == PAGE_SIZE
    ensures Inv(mem[f := Data(bytes)], tree, role[f := Kernel], boot, {})
    ensures SameWalks(mem, mem[f := Data(bytes)], tree) && SameViews(mem, mem[f := Data(bytes)], tree)
  {
    hide Inv, Walk;
    InvShape(mem, tree, role, boot, {});
    var role1, p := role[f := Kernel], Data(bytes);
    ChangeKernelFrame(mem, tree, role, boot, {}, f, Kernel);
    WriteFrame(mem, tree, role1, boot, f, p);
    WriteFrameWalks(mem, tree, role1, boot, f, p);
    forall r, v | N4(r) in tree && UserPage(v)
      ensures View(mem[f := p], r, v) == View(mem, r, v)
    {
      if Walk(mem, r, v).Some? { WalkReachesData(mem, tree, role, boot, r, v); }
    }
  }

  lemma FilledTlb(mem: seq<Page>, tree: map<Node, nat>, role: seq<Role>, boot: nat, f: nat, bytes: seq<Byte>,
                  cr3: nat, tlb: map<VPage, Pte>)
    requires Inv(mem, tree, role, boot, {}) && 0 < f < MAX_FRAMES && f != boot && role[f] == Free && |bytes| == PAGE_SIZE
    requires TlbOk(mem, tree, role, cr3, tlb)
    ensures TlbOk(mem[f := Data(bytes)], tree, role[f := Kernel], cr3, tlb)
    ensures TlbExact(mem, cr3, tlb) ==> TlbExact(mem[f := Data(bytes)], cr3, tlb)
  {
    hide Inv, Walk, TlbOk, TlbExact;
    InvShape(mem, tree, role, boot, {});
    FilledFrame(mem, tree, role, boot, f, bytes);
    TlbSame(mem, tree, role, boot, mem[f := Data(bytes)], role[f := Kernel], cr3, tlb);
  }

  /** The frame of a mapping that failed goes back. */
  lemma ReturnedFrame(mem: seq<Page>, tree: map<Node, nat>, role: seq<Role>, boot: nat, f: nat, bytes: seq<Byte>,
                      mem': seq<Page>, tree': map<Node, nat>, role': seq<Role>, root: nat, cr3: nat, tlb: map<VPage, Pte>)
    requires Inv(mem, tree, role, boot, {}) && 0 < f < MAX_FRAMES && f != boot && role[f] == Free && |bytes| == PAGE_SIZE
    requires Grown(mem[f := Data(bytes)], tree, role[f := Kernel], mem', tree', role', root)
    requires Inv(mem', tree', role', boot, {}) && TlbOk(mem', tree', role', cr3, tlb)
    ensures Inv(mem', tree', role'[f := Free], boot, {}) && TlbOk(mem', tree', role'[f := Free], cr3, tlb)
    ensures SameViews(mem, mem', tree) && SameWalks(mem, mem', tree) && SameRoots(tree, tree')
    ensures PoolLoses(role, role'[f := Free], root, 0)
  {
    hide Inv, Walk, TlbOk;
    InvShape(mem, tree, role, boot, {});
    FilledFrame(mem, tree, role, boot, f, bytes);
    GrownViews(mem[f := Data(bytes)], tree, role[f := Kernel], boot, mem', tree', role', root);
    ChangeKernelFrame(mem', tree', role', boot, {}, f, Free);
    assert SameWalks(mem', mem', tree');
    TlbSame(mem', tree', role', boot, mem', role'[f := Free], cr3, tlb);
  }

  lemma SameAsSelf(mem: seq<Page>, tree: map<Node, nat>, role: seq<Role>)
    requires |role| > 0 && role[0] == Kernel
    ensures SameViews(mem, mem, tree) && SameWalks(mem, mem, tree) && SameRoots(tree, tree)
    ensures forall root :: PoolLoses(role, role, root, 0)
  {
  }
}
