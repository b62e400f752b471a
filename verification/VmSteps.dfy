/** What the operations of the virtual memory manager do to the tables, roles and cached translations,
    as values: growth of the tree, mapping, teardown, creation, and the parts of fork. */
module VmSteps {
  import opened Pmm
  import opened Ptes
  import opened PageTables
  import opened TableSteps
  import opened CloneSteps

  ghost predicate FreeAgree(role: seq<Role>, free: set<nat>)
  {
    && |role| == MAX_FRAMES
    && forall f | 0 <= f < MAX_FRAMES :: role[f] == Free <==> f in free
  }

  /** A cached translation t of page v: the leaf entry itself, or the writable form it had before an
      abandoned fork marked it, which is harmless while the frame is private. */
  ghost predicate TlbEntryOk(mem: seq<Page>, tree: map<Node, nat>, role: seq<Role>, cr3: nat, v: VPage, t: Pte)
  {
    var n := N1(cr3, v.a, v.b, v.c);
    && UserPage(v) && n in tree && |role| == MAX_FRAMES
    && var e := At(mem, tree[n], v.d);
       && e.present && t.present
       && (t == e || (t.write && e == Cowed(t) && e.frame < MAX_FRAMES && role[e.frame] == Priv(n, v.d)))
  }

  ghost predicate TlbOk(mem: seq<Page>, tree: map<Node, nat>, role: seq<Role>, cr3: nat, tlb: map<VPage, Pte>)
  {
    forall v | v in tlb :: TlbEntryOk(mem, tree, role, cr3, v, tlb[v])
  }

  /** Every cached translation is what a walk finds now. */
  ghost predicate TlbExact(mem: seq<Page>, cr3: nat, tlb: map<VPage, Pte>)
  {
    forall v | v in tlb :: Walk(mem, cr3, v) == Some(tlb[v])
  }

  /** No user entry, and the kernel half of q. */
  ghost predicate FreshPml4(p: Page, q: Page)
  {
    && p.Table? && q.Table? && |p.entries| == |q.entries| == ENTRIES
    && (forall j | 0 <= j < USER_ENTRIES :: p.entries[j] == ABSENT)
    && p.entries[USER_ENTRIES..] == q.entries[USER_ENTRIES..]
  }

  /** A new root with no user page; everything else as before. */
  ghost predicate Created(mem: seq<Page>, tree: map<Node, nat>, role: seq<Role>,
                          mem': seq<Page>, tree': map<Node, nat>, role': seq<Role>, root: nat)
  {
    && |mem| == |role| == |mem'| == |role'| == MAX_FRAMES && 0 < root < MAX_FRAMES && role[root] == Free
    && N4(root) !in tree && tree' == tree[N4(root) := root] && role' == role[root := TableOf(N4(root))]
    && mem' == mem[root := mem'[root]]
    && SameWalks(mem, mem', tree)
    && forall v | UserPage(v) :: Walk(mem', root, v) == None
  }

  lemma CreateInv(mem: seq<Page>, tree: map<Node, nat>, role: seq<Role>, boot: nat, f: nat, p: Page)
    requires Inv(mem, tree, role, boot, {}) && 0 < f < MAX_FRAMES && f != boot && role[f] == Free
    requires FreshPml4(p, mem[boot])
    ensures N4(f) !in tree
    ensures Inv(mem[f := p], tree[N4(f) := f], role[f := TableOf(N4(f))], boot, {})
  {
    hide Inv;
    var d := N4(f);
    assert d !in tree by {
      if d in tree { TableAt(mem, tree, role, boot, {}, d); }
    }
    InvShape(mem, tree, role, boot, {});
    StartTable(mem, tree, role, boot, {}, d, f, p);
    var mem', tree' := mem[f := p], tree[d := f];
    forall i | 0 <= i < Fan(d)
      ensures LinkOk(mem', tree', d, i)
    {
      NothingUnder(mem, tree, role, d, Child(d, i));
    }
    FinishDirectory(mem', tree', role[f := TableOf(d)], boot, {} + {d}, d);
    assert {} + {d} - {d} == {};
  }

  lemma CreateWalks(mem: seq<Page>, tree: map<Node, nat>, role: seq<Role>, boot: nat, f: nat, p: Page)
    requires Inv(mem, tree, role, boot, {}) && 0 < f < MAX_FRAMES && f != boot && role[f] == Free
    requires N4(f) !in tree && Inv(mem[f := p], tree[N4(f) := f], role[f := TableOf(N4(f))], boot, {})
    ensures Created(mem, tree, role, mem[f := p], tree[N4(f) := f], role[f := TableOf(N4(f))], f)
  {
    hide Inv, Walk;
    InvShape(mem, tree, role, boot, {});
    var mem', tree', role' := mem[f := p], tree[N4(f) := f], role[f := TableOf(N4(f))];
    forall r, v | N4(r) in tree && UserPage(v)
      ensures Walk(mem', r, v) == Walk(mem, r, v)
    {
      WalkFollowsTree(mem, tree, role, boot, {}, r, v);
      WalkFollowsTree(mem', tree', role', boot, {}, r, v);
      var leaf := N1(r, v.a, v.b, v.c);
      if leaf in tree { TableAt(mem, tree, role, boot, {}, leaf); }
    }
    forall v | UserPage(v)
      ensures Walk(mem', f, v) == None
    {
      WalkFollowsTree(mem', tree', role', boot, {}, f, v);
      NothingUnder(mem, tree, role, N4(f), N1(f, v.a, v.b, v.c));
    }
  }

  lemma CreateGrows(mem: seq<Page>, tree: map<Node, nat>, role: seq<Role>, boot: nat, f: nat, p: Page, cr3: nat, tlb: map<VPage, Pte>)
    requires Inv(mem, tree, role, boot, {}) && 0 < f < MAX_FRAMES && f != boot && role[f] == Free
    requires N4(f) !in tree && Inv(mem[f := p], tree[N4(f) := f], role[f := TableOf(N4(f))], boot, {})
    requires TlbOk(mem, tree, role, cr3, tlb)
    ensures Created(mem, tree, role, mem[f := p], tree[N4(f) := f], role[f := TableOf(N4(f))], f)
    ensures TlbOk(mem[f := p], tree[N4(f) := f], role[f := TableOf(N4(f))], cr3, tlb)
    ensures TlbExact(mem, cr3, tlb) ==> TlbExact(mem[f := p], cr3, tlb)
  {
    hide Inv, Walk, TlbEntryOk;
    CreateWalks(mem, tree, role, boot, f, p);
    InvShape(mem, tree, role, boot, {});
    hide Nodes;
    var mem', tree', role' := mem[f := p], tree[N4(f) := f], role[f := TableOf(N4(f))];
    forall v | v in tlb
      ensures TlbEntryOk(mem', tree', role', cr3, v, tlb[v])
      ensures Walk(mem', cr3, v) == Walk(mem, cr3, v)
    {
      CreateTlbEntry(mem, tree, role, boot, f, p, cr3, v, tlb[v]);
    }
  }

  lemma CreateTlbEntry(mem: seq<Page>, tree: map<Node, nat>, role: seq<Role>, boot: nat, f: nat, p: Page,
                       cr3: nat, v: VPage, e: Pte)
    requires Inv(mem, tree, role, boot, {}) && f < MAX_FRAMES && |mem| == |role| == MAX_FRAMES && role[f] == Free
    requires TlbEntryOk(mem, tree, role, cr3, v, e)
    ensures TlbEntryOk(mem[f := p], tree[N4(f) := f], role[f := TableOf(N4(f))], cr3, v, e) && N4(cr3) in tree && UserPage(v)
  {
    hide Inv, Walk;
    var m := N1(cr3, v.a, v.b, v.c);
    RootOfLeaf(mem, tree, role, boot, m);
    TableAt(mem, tree, role, boot, {}, m);
  }

  // ----- Teardown

  /** Tables below a root that the teardown has given back when it is at indices a, b, c. */
  predicate Done(n: Node, a: nat, b: nat, c: nat)
  {
    match n
    case N4(_) => false
    case N3(_, na) => na < a
    case N2(_, na, nb) => na < a || (na == a && nb < b)
    case N1(_, na, nb, nc) => na < a || (na == a && (nb < b || (nb == b && nc < c)))
  }

  ghost predicate FreedTo(free: set<nat>, free0: set<nat>, role: seq<Role>, root: nat, a: nat, b: nat, c: nat)
  {
    && |role| == MAX_FRAMES
    && (forall f | f in free :: f < MAX_FRAMES)
    && (forall f | f in free0 :: f < MAX_FRAMES)
    && forall f | 0 <= f < MAX_FRAMES ::
         f in free <==> f in free0 || (role[f].TableOf? && role[f].node.r == root && Done(role[f].node, a, b, c))
  }

  ghost function TablesOf(tree: map<Node, nat>, root: nat): set<nat>
  {
    set n | n in tree && n.r == root :: tree[n]
  }

  ghost function Without(tree: map<Node, nat>, root: nat): map<Node, nat>
  {
    map n | n in tree && n.r != root :: tree[n]
  }

  ghost function ReleasedRole(x: Role, root: nat): Role
  {
    if x.TableOf? && x.node.r == root then Free else if x.Priv? && x.node.r == root then Kernel else x
  }

  ghost function Released(role: seq<Role>, root: nat): (role': seq<Role>)
    ensures |role'| == |role|
  {
    seq(|role|, f requires 0 <= f < |role| => ReleasedRole(role[f], root))
  }

  lemma FreedNothing(role: seq<Role>, root: nat, free: set<nat>)
    requires FreeAgree(role, free) && (forall f | f in free :: f < MAX_FRAMES)
    ensures FreedTo(free, free, role, root, 0, 0, 0)
  {
  }

  lemma FreedPt(mem: seq<Page>, tree: map<Node, nat>, role: seq<Role>, boot: nat, free: set<nat>, free0: set<nat>,
                root: nat, a: nat, b: nat, c: nat)
    requires Inv(mem, tree, role, boot, {}) && FreedTo(free, free0, role, root, a, b, c)
    ensures N1(root, a, b, c) !in tree ==> FreedTo(free, free0, role, root, a, b, c + 1)
    ensures N1(root, a, b, c) in tree ==>
      tree[N1(root, a, b, c)] < MAX_FRAMES && FreedTo(free + {tree[N1(root, a, b, c)]}, free0, role, root, a, b, c + 1)
  {
    var n := N1(root, a, b, c);
    assert n in tree ==> NodeOk(mem, tree, role, n);
    forall f | 0 <= f < MAX_FRAMES && role[f].TableOf? && role[f].node.r == root
      ensures Done(role[f].node, a, b, c + 1) <==> Done(role[f].node, a, b, c) || (n in tree && f == tree[n])
    {
      assert role[f].node in tree && tree[role[f].node] == f;
    }
  }

  lemma FreedPdt(mem: seq<Page>, tree: map<Node, nat>, role: seq<Role>, boot: nat, free: set<nat>, free0: set<nat>,
                 root: nat, a: nat, b: nat)
    requires Inv(mem, tree, role, boot, {})
    requires FreedTo(free, free0, role, root, a, b, if N2(root, a, b) in tree then ENTRIES else 0)
    ensures N2(root, a, b) !in tree ==> FreedTo(free, free0, role, root, a, b + 1, 0)
    ensures N2(root, a, b) in tree ==>
      tree[N2(root, a, b)] < MAX_FRAMES && FreedTo(free + {tree[N2(root, a, b)]}, free0, role, root, a, b + 1, 0)
  {
    var n := N2(root, a, b);
    assert n in tree ==> NodeOk(mem, tree, role, n);
    forall f | 0 <= f < MAX_FRAMES && role[f].TableOf? && role[f].node.r == root
      ensures Done(role[f].node, a, b + 1, 0) <==>
                Done(role[f].node, a, b, if n in tree then ENTRIES else 0) || (n in tree && f == tree[n])
    {
      assert role[f].node in tree && tree[role[f].node] == f && NodeOk(mem, tree, role, role[f].node);
    }
  }

  lemma FreedPdpt(mem: seq<Page>, tree: map<Node, nat>, role: seq<Role>, boot: nat, free: set<nat>, free0: set<nat>,
                  root: nat, a: nat)
    requires Inv(mem, tree, role, boot, {}) && N3(root, a) in tree && FreedTo(free, free0, role, root, a, ENTRIES, 0)
    ensures tree[N3(root, a)] < MAX_FRAMES && FreedTo(free + {tree[N3(root, a)]}, free0, role, root, a + 1, 0, 0)
  {
    var n := N3(root, a);
    assert NodeOk(mem, tree, role, n);
    forall f | 0 <= f < MAX_FRAMES && role[f].TableOf? && role[f].node.r == root
      ensures Done(role[f].node, a + 1, 0, 0) <==> Done(role[f].node, a, ENTRIES, 0) || f == tree[n]
    {
      assert role[f].node in tree && tree[role[f].node] == f && NodeOk(mem, tree, role, role[f].node);
    }
  }

  lemma FreedAbsent(mem: seq<Page>, tree: map<Node, nat>, role: seq<Role>, boot: nat, free: set<nat>, free0: set<nat>,
                    root: nat, a: nat)
    requires Inv(mem, tree, role, boot, {}) && N3(root, a) !in tree && FreedTo(free, free0, role, root, a, 0, 0)
    ensures FreedTo(free, free0, role, root, a + 1, 0, 0)
  {
    forall f | 0 <= f < MAX_FRAMES && role[f].TableOf? && role[f].node.r == root
      ensures Done(role[f].node, a + 1, 0, 0) <==> Done(role[f].node, a, 0, 0)
    {
      var n := role[f].node;
      assert n in tree && NodeOk(mem, tree, role, n);
      if Under(n, N3(root, a)) { NothingUnder(mem, tree, role, N3(root, a), n); assert false; }
    }
  }

  lemma FreedAll(mem: seq<Page>, tree: map<Node, nat>, role: seq<Role>, boot: nat, free: set<nat>, free0: set<nat>, root: nat)
    requires Inv(mem, tree, role, boot, {}) && N4(root) in tree && FreedTo(free, free0, role, root, USER_ENTRIES, 0, 0)
    requires FreeAgree(role, free0)
    ensures tree[N4(root)] == root < MAX_FRAMES
    ensures free + {root} == free0 + TablesOf(tree, root)
    ensures FreeAgree(Released(role, root), free + {root})
  {
    assert NodeOk(mem, tree, role, N4(root));
    forall f | 0 <= f < MAX_FRAMES && role[f].TableOf? && role[f].node.r == root
      ensures f in TablesOf(tree, root) && (f in free + {root})
    {
      var n := role[f].node;
      assert n in tree && tree[n] == f && NodeOk(mem, tree, role, n);
    }
    forall f | f in TablesOf(tree, root)
      ensures f < MAX_FRAMES && role[f].TableOf? && role[f].node.r == root
    {
      var n :| n in tree && n.r == root && tree[n] == f;
      assert NodeOk(mem, tree, role, n);
    }
  }

  lemma ReleaseNodes(mem: seq<Page>, tree: map<Node, nat>, role: seq<Role>, boot: nat, root: nat)
    requires Inv(mem, tree, role, boot, {})
    ensures Frames(mem, Released(role, root)) && BootOk(mem, Released(role, root), boot)
    ensures Nodes(mem, Without(tree, root), Released(role, root))
  {
    hide Links, Leaves, KernelHalves;
    var tree', role' := Without(tree, root), Released(role, root);
    forall m | m in tree'
      ensures NodeOk(mem, tree', role', m)
    {
      assert NodeOk(mem, tree, role, m);
    }
  }

  lemma ReleaseLinks(mem: seq<Page>, tree: map<Node, nat>, role: seq<Role>, boot: nat, root: nat)
    requires Inv(mem, tree, role, boot, {})
    ensures Links(mem, Without(tree, root), {}) && KernelHalves(mem, Without(tree, root), boot, {})
  {
    hide Nodes, Leaves;
    var tree' := Without(tree, root);
    forall m, j | m in tree' && !m.N1? && 0 <= j < Fan(m)
      ensures LinkOk(mem, tree', m, j)
    {
      assert LinkOk(mem, tree, m, j);
    }
    forall m | m in tree' && m.N4?
      ensures KernelHalfOk(mem, boot, tree'[m])
    {
      assert KernelHalfOk(mem, boot, tree[m]);
    }
  }

  lemma ReleaseLeaves(mem: seq<Page>, tree: map<Node, nat>, role: seq<Role>, boot: nat, root: nat)
    requires Inv(mem, tree, role, boot, {})
    ensures Frames(mem, Released(role, root)) && Leaves(mem, Without(tree, root), Released(role, root), {})
  {
    hide Nodes, Links, KernelHalves;
    var tree', role' := Without(tree, root), Released(role, root);
    forall m, j | m in tree' && m.N1? && 0 <= j < ENTRIES
      ensures LeafOk(mem, tree', role', m, j)
    {
      assert LeafOk(mem, tree, role, m, j);
    }
  }

  /** The other address spaces keep the invariant; data the dead one had to itself is the kernel's. */
  lemma ReleaseKeepsInv(mem: seq<Page>, tree: map<Node, nat>, role: seq<Role>, boot: nat, root: nat)
    requires Inv(mem, tree, role, boot, {})
    ensures Inv(mem, Without(tree, root), Released(role, root), boot, {})
  {
    hide Frames, BootOk, Nodes, Links, Leaves, KernelHalves, Without, Released;
    ReleaseNodes(mem, tree, role, boot, root);
    ReleaseLinks(mem, tree, role, boot, root);
    ReleaseLeaves(mem, tree, role, boot, root);
  }

  lemma TlbReleased(mem: seq<Page>, tree: map<Node, nat>, role: seq<Role>, cr3: nat, tlb: map<VPage, Pte>, root: nat)
    requires TlbOk(mem, tree, role, cr3, tlb) && root != cr3
    ensures TlbOk(mem, Without(tree, root), Released(role, root), cr3, tlb)
  {
    forall v | v in tlb
      ensures TlbEntryOk(mem, Without(tree, root), Released(role, root), cr3, v, tlb[v])
    {
      assert TlbEntryOk(mem, tree, role, cr3, v, tlb[v]);
    }
  }

  function Level(n: Node): nat
  {
    match n
    case N4(_) => 4
    case N3(_, _) => 3
    case N2(_, _, _) => 2
    case N1(_, _, _, _) => 1
  }

  ghost function WriteOff(role0: seq<Role>, role: seq<Role>): (role': seq<Role>)
    requires |role0| == |role| == MAX_FRAMES
    ensures |role'| == MAX_FRAMES
  {
    seq(MAX_FRAMES, f requires 0 <= f < MAX_FRAMES => if role0[f] == Free && role[f] != Free then Kernel else role0[f])
  }

  /** A clone that ran out of frames: it can be abandoned with any roles that write off what it took. */
  ghost predicate CloneFailed(mem0: seq<Page>, tree0: map<Node, nat>, role0: seq<Role>,
                              mem: seq<Page>, tree: map<Node, nat>, role: seq<Role>, boot: nat, busy: set<Node>, s: Node, d: Node)
  {
    && Inv(mem, tree, role, boot, busy + {d})
    && |role0| == |role| == MAX_FRAMES
    && RoleStep(role0, role)
    && |mem0| == |mem| == MAX_FRAMES && Marked(mem0, mem, role0, s)
    && role0[0] != Free && boot < MAX_FRAMES && role0[boot] != Free
    && (forall r | |r| == MAX_FRAMES && WrittenOff(role0, r) :: Abandoned(mem0, tree0, role0, mem, tree0, r, boot, busy, s))
  }

  ghost predicate SameRestOfTable(mem: seq<Page>, mem': seq<Page>, f: nat, i: nat)
  {
    && f < |mem| == |mem'| && mem[f].Table? && mem'[f].Table? && |mem[f].entries| == |mem'[f].entries| == ENTRIES
    && forall j | 0 <= j < ENTRIES && j != i :: mem'[f].entries[j] == mem[f].entries[j]
  }

  lemma CloningParts(mem0: seq<Page>, tree0: map<Node, nat>, role0: seq<Role>,
                     mem: seq<Page>, tree: map<Node, nat>, role: seq<Role>, boot: nat, busy: set<Node>, s: Node, d: Node, f: nat)
    requires Cloning(mem0, tree0, role0, mem, tree, role, boot, busy, s, d, f)
    ensures Inv(mem0, tree0, role0, boot, busy) && Inv(mem, tree, role, boot, busy + {d})
    ensures d == Rebase(s, d.r) && d.r != s.r && d in tree && tree[d] == f && d !in tree0 && |role0| == MAX_FRAMES && role0[f] == Free
  {
    hide Inv;
    InvShape(mem0, tree0, role0, boot, busy);
  }

  lemma NoDirProgress(mem0: seq<Page>, tree0: map<Node, nat>, role0: seq<Role>,
                      mem: seq<Page>, tree: map<Node, nat>, role: seq<Role>, boot: nat, busy: set<Node>, s: Node, d: Node, f: nat)
    requires Cloning(mem0, tree0, role0, mem, tree, role, boot, busy, s, d, f) && !s.N1?
    requires tree == tree0[d := f]
    ensures DirProgress(mem, tree, s, d, 0)
  {
    hide Inv;
    InvShape(mem0, tree0, role0, boot, busy);
    forall j: nat
      ensures Child(d, j) !in tree
    {
      NothingUnder(mem0, tree0, role0, d, Child(d, j));
    }
  }

  lemma RoleStepOff(role0: seq<Role>, role1: seq<Role>, role: seq<Role>)
    requires |role0| == |role1| == |role| == MAX_FRAMES && RoleStep(role0, role1) && WrittenOff(role1, role)
    ensures RoleStep(role0, role)
  {
  }

  lemma ChildFailed(mem0: seq<Page>, tree0: map<Node, nat>, role0: seq<Role>,
                    mem1: seq<Page>, tree1: map<Node, nat>, role1: seq<Role>,
                    mem: seq<Page>, tree: map<Node, nat>, role: seq<Role>, boot: nat, busy: set<Node>,
                    s: Node, d: Node, f: nat, i: nat)
    requires Cloning(mem0, tree0, role0, mem1, tree1, role1, boot, busy, s, d, f) && !s.N1?
    requires Abandoned(mem1, tree1, role1, mem, tree, role, boot, busy + {d}, Child(s, i))
    ensures tree == tree1 && |mem| == |mem1| && f < |mem| && mem[f] == mem1[f]
    ensures CloneFailed(mem0, tree0, role0, mem, tree, role, boot, busy, s, d)
  {
    hide Inv, Marked, TakenFor, Mirror, TreeStep, CloneReady;
    CloningParts(mem0, tree0, role0, mem1, tree1, role1, boot, busy, s, d, f);
    InvShape(mem0, tree0, role0, boot, busy);
    InvShape(mem, tree, role, boot, busy + {d});
    TableAt(mem1, tree1, role1, boot, busy + {d}, d);
    SparesDirectory(mem1, mem, role1, Child(s, i), f);
    RoleStepOff(role0, role1, role);
    hide RoleStep, WrittenOff;
    AbandonChild(mem0, tree0, role0, mem1, tree1, role1, mem, role, boot, busy, s, d, f, i);
  }

  lemma ChildLinked(mem0: seq<Page>, tree0: map<Node, nat>, role0: seq<Role>,
                    mem1: seq<Page>, tree1: map<Node, nat>, role1: seq<Role>,
                    mem: seq<Page>, tree: map<Node, nat>, role: seq<Role>, boot: nat, busy: set<Node>,
                    s: Node, d: Node, f: nat, i: nat, e: Pte)
    requires Cloning(mem0, tree0, role0, mem1, tree1, role1, boot, busy, s, d, f) && !s.N1? && i < ENTRIES
    requires DirProgress(mem1, tree1, s, d, i)
    requires Cloned(mem1, tree1, role1, mem, tree, role, boot, busy + {d}, Child(s, i), Child(d, i))
    requires e.present && Child(d, i) in tree && e.frame == tree[Child(d, i)] && !e.huge && e.write && e.user && !e.nx
    ensures s in tree && s in tree1 && tree[s] == tree1[s]
    ensures f < |mem| == |mem1| && mem[f].Table? && |mem[f].entries| == ENTRIES && mem[f] == mem1[f]
    ensures Cloning(mem0, tree0, role0, SetEntry(mem, f, i, e), tree, role, boot, busy, s, d, f)
    ensures DirProgress(SetEntry(mem, f, i, e), tree, s, d, i + 1)
  {
    hide Inv, Marked, RoleStep, TakenFor, Mirror, DirProgress;
    CloningFrames(mem0, tree0, role0, mem1, tree1, role1, boot, busy, s, d, f);
    CloningParts(mem0, tree0, role0, mem1, tree1, role1, boot, busy, s, d, f);
    InvShape(mem1, tree1, role1, boot, busy + {d});
    InvShape(mem, tree, role, boot, busy + {d});
    TableAt(mem1, tree1, role1, boot, busy + {d}, d);
    SparesDirectory(mem1, mem, role1, Child(s, i), f);
    CloningChild(mem0, tree0, role0, mem1, tree1, role1, mem, tree, role, boot, busy, s, d, f, i);
    DirLinkStep(mem1, tree1, role1, mem, tree, role, s, d, i, e);
    CloningWrite(mem0, tree0, role0, mem, tree, role, boot, busy, s, d, f, i, e);
  }

  lemma ReadyParts(mem: seq<Page>, tree: map<Node, nat>, role: seq<Role>, boot: nat, busy: set<Node>, s: Node, d: Node)
    requires CloneReady(mem, tree, role, boot, busy, s, d)
    ensures Inv(mem, tree, role, boot, busy) && s in tree && d !in tree && (d.N4? <==> s.N4?) && (d.N1? <==> s.N1?) && d != s
    ensures d == Rebase(s, d.r) && d.r != s.r
  {
  }

  lemma NewRoot(mem: seq<Page>, tree: map<Node, nat>, role: seq<Role>, boot: nat, busy: set<Node>, s: Node, f: nat)
    requires Inv(mem, tree, role, boot, busy) && s in tree && 0 < f < MAX_FRAMES && role[f] == Free
    ensures N4(f) !in tree
    ensures s.N4? && busy == {} ==> CloneReady(mem, tree, role, boot, busy, s, N4(f))
  {
    assert N4(f) in tree ==> NodeOk(mem, tree, role, N4(f));
    assert NodeOk(mem, tree, role, s);
  }

  lemma NoProgress(mem: seq<Page>, role: seq<Role>, t: nat, f: nat)
    requires |role| == MAX_FRAMES
    ensures LeafProgress(mem, role, t, f, 0)
  {
  }

  lemma SetEntrySame(mem: seq<Page>, f: nat, i: nat)
    requires f < |mem| && mem[f].Table? && i < |mem[f].entries|
    ensures SetEntry(mem, f, i, mem[f].entries[i]) == mem
  {
    assert mem[f].entries[i := mem[f].entries[i]] == mem[f].entries;
    assert mem[f := mem[f]] == mem;
  }

  /** New, empty tables in the address space at root, taken from the free frames; nothing else. */
  ghost predicate Grown(mem: seq<Page>, tree: map<Node, nat>, role: seq<Role>,
                        mem': seq<Page>, tree': map<Node, nat>, role': seq<Role>, root: nat)
  {
    && |mem| == |role| == |mem'| == |role'| == MAX_FRAMES
    && SameWalks(mem, mem', tree)
    && (forall n | n in tree :: n in tree' && tree'[n] == tree[n] && (n.N1? ==> tree[n] < MAX_FRAMES && mem'[tree[n]] == mem[tree[n]]))
    && (forall n | n in tree' && n !in tree :: n.r == root && !n.N4?)
    && (forall f | 0 <= f < MAX_FRAMES ::
          if role[f] == Free then role'[f] == Free || (role'[f].TableOf? && role'[f].node.r == root)
          else role'[f] == role[f] && (!role[f].TableOf? ==> mem'[f] == mem[f]))
  }

  /** Page v of the address space at root now has leaf entry e; all other walks, all data in use, and
      all roles are as before, but for new tables and the frames that page v reaches and reached. */
  ghost predicate MappedPage(mem: seq<Page>, tree: map<Node, nat>, role: seq<Role>,
                             mem': seq<Page>, tree': map<Node, nat>, role': seq<Role>, root: nat, v: VPage, e: Pte)
  {
    && |mem| == |role| == |mem'| == |role'| == MAX_FRAMES && e.frame < MAX_FRAMES
    && Walk(mem', root, v) == Some(e)
    && SameWalksBut(mem, mem', tree, root, v)
    && (forall n | n in tree :: n in tree' && tree'[n] == tree[n])
    && (forall n | n in tree' && n !in tree :: n.r == root && !n.N4?)
    && role'[e.frame] == Priv(N1(root, v.a, v.b, v.c), v.d) && mem'[e.frame] == mem[e.frame]
    && (forall f | 0 <= f < MAX_FRAMES && f != e.frame ::
          if role[f] == Free then role'[f] == Free || (role'[f].TableOf? && role'[f].node.r == root)
          else && (role'[f] == role[f] || (role[f] == Priv(N1(root, v.a, v.b, v.c), v.d) && role'[f] == Kernel))
               && (!role[f].TableOf? ==> mem'[f] == mem[f]))
  }

  lemma GrownKeeps(mem: seq<Page>, tree: map<Node, nat>, role: seq<Role>,
                   mem': seq<Page>, tree': map<Node, nat>, role': seq<Role>, root: nat, f: nat)
    requires Grown(mem, tree, role, mem', tree', role', root) && f < MAX_FRAMES && role[f] != Free && !role[f].TableOf?
    ensures role'[f] == role[f] && mem'[f] == mem[f]
  {
  }

  lemma GrownRefl(mem: seq<Page>, tree: map<Node, nat>, role: seq<Role>, boot: nat, root: nat)
    requires Inv(mem, tree, role, boot, {})
    ensures Grown(mem, tree, role, mem, tree, role, root)
  {
    forall n | n in tree
      ensures tree[n] < MAX_FRAMES
    {
      TableAt(mem, tree, role, boot, {}, n);
    }
  }

  lemma GrownTrans(mem0: seq<Page>, tree0: map<Node, nat>, role0: seq<Role>,
                   mem1: seq<Page>, tree1: map<Node, nat>, role1: seq<Role>,
                   mem2: seq<Page>, tree2: map<Node, nat>, role2: seq<Role>, root: nat)
    requires Grown(mem0, tree0, role0, mem1, tree1, role1, root)
    requires Grown(mem1, tree1, role1, mem2, tree2, role2, root)
    ensures Grown(mem0, tree0, role0, mem2, tree2, role2, root)
  {
    hide Walk;
  }

  lemma InstallGrows(mem: seq<Page>, tree: map<Node, nat>, role: seq<Role>, boot: nat, n: Node, i: nat, f: nat)
    requires f < |role| && role[f] == Free && CanInstall(mem, tree, role[f := Kernel], boot, n, i, f)
    ensures Grown(mem, tree, role, Installed(mem, tree, role[f := Kernel], boot, n, i, f), tree[Child(n, i) := f],
                  role[f := TableOf(Child(n, i))], n.r)
  {
    hide Inv, Walk;
    var role1 := role[f := Kernel];
    TableAt(mem, tree, role1, boot, {}, n);
    InstallTable(mem, tree, role1, boot, n, i, f);
    InstallKeepsWalks(mem, tree, role1, boot, n, i, f);
    var mem' := Installed(mem, tree, role1, boot, n, i, f);
    forall m | m in tree
      ensures m.N1? ==> tree[m] < MAX_FRAMES && mem'[tree[m]] == mem[tree[m]]
    {
      TableAt(mem, tree, role1, boot, {}, m);
    }
  }

  /** Growth disturbs no cached translation. */
  lemma TlbGrown(mem0: seq<Page>, tree0: map<Node, nat>, role0: seq<Role>, boot: nat,
                 mem: seq<Page>, tree: map<Node, nat>, role: seq<Role>, root: nat, cr3: nat, tlb: map<VPage, Pte>)
    requires Grown(mem0, tree0, role0, mem, tree, role, root)
    requires Inv(mem0, tree0, role0, boot, {}) && TlbOk(mem0, tree0, role0, cr3, tlb)
    ensures TlbOk(mem, tree, role, cr3, tlb)
    ensures TlbExact(mem0, cr3, tlb) ==> TlbExact(mem, cr3, tlb)
  {
    hide Inv, Walk;
    forall v | v in tlb
      ensures TlbEntryOk(mem, tree, role, cr3, v, tlb[v])
      ensures Walk(mem, cr3, v) == Walk(mem0, cr3, v)
    {
      assert TlbEntryOk(mem0, tree0, role0, cr3, v, tlb[v]);
      RootOfLeaf(mem0, tree0, role0, boot, N1(cr3, v.a, v.b, v.c));
    }
  }

  lemma RootOfLeaf(mem: seq<Page>, tree: map<Node, nat>, role: seq<Role>, boot: nat, n: Node)
    requires Inv(mem, tree, role, boot, {}) && n in tree && n.N1?
    ensures N2(n.r, n.a, n.b) in tree && N3(n.r, n.a) in tree && N4(n.r) in tree
  {
    hide Inv;
    TableAt(mem, tree, role, boot, {}, n);
    TableAt(mem, tree, role, boot, {}, N2(n.r, n.a, n.b));
    TableAt(mem, tree, role, boot, {}, N3(n.r, n.a));
  }

  /** Writing the leaf entry completes a mapping. */
  lemma MapLeaf(mem0: seq<Page>, tree0: map<Node, nat>, role0: seq<Role>, boot: nat,
                mem: seq<Page>, tree: map<Node, nat>, role: seq<Role>, root: nat, v: VPage, e: Pte)
    requires Grown(mem0, tree0, role0, mem, tree, role, root) && UserPage(v)
    requires CanSetLeaf(mem, tree, role, boot, N1(root, v.a, v.b, v.c), v.d, e)
    ensures var n := N1(root, v.a, v.b, v.c);
      && 0 < tree[n] < MAX_FRAMES && mem[tree[n]].Table? && |mem[tree[n]].entries| == ENTRIES
      && Inv(SetEntry(mem, tree[n], v.d, e), tree, LeafRole(mem, tree, role, n, v.d, e.frame), boot, {})
      && MappedPage(mem0, tree0, role0, SetEntry(mem, tree[n], v.d, e), tree, LeafRole(mem, tree, role, n, v.d, e.frame), root, v, e)
      && forall f | 0 <= f < MAX_FRAMES :: LeafRole(mem, tree, role, n, v.d, e.frame)[f] == Free <==> role[f] == Free
  {
    hide Inv, Walk;
    var n := N1(root, v.a, v.b, v.c);
    TableAt(mem, tree, role, boot, {}, n);
    SetLeaf(mem, tree, role, boot, n, v.d, e);
    SetLeafWalks(mem, tree, role, boot, n, v.d, e);
    LeafAt(mem, tree, role, boot, {}, n, v.d);
  }

  /** Rewriting a leaf entry disturbs no cached translation but that of its own page. */
  lemma LeafTlb(mem: seq<Page>, tree: map<Node, nat>, role: seq<Role>, boot: nat, n: Node, i: nat, e: Pte,
                cr3: nat, tlb: map<VPage, Pte>)
    requires CanSetLeaf(mem, tree, role, boot, n, i, e) && TlbOk(mem, tree, role, cr3, tlb)
    ensures 0 < tree[n] < MAX_FRAMES && mem[tree[n]].Table? && |mem[tree[n]].entries| == ENTRIES
    ensures var mem', role' := SetEntry(mem, tree[n], i, e), LeafRole(mem, tree, role, n, i, e.frame);
      var tlb' := if cr3 == n.r then tlb - {VPage(n.a, n.b, n.c, i)} else tlb;
      && TlbOk(mem', tree, role', cr3, tlb')
      && (TlbExact(mem, cr3, tlb) ==> TlbExact(mem', cr3, tlb'))
  {
    hide Inv, Walk;
    TableAt(mem, tree, role, boot, {}, n);
    SetLeafWalks(mem, tree, role, boot, n, i, e);
    var mem', role' := SetEntry(mem, tree[n], i, e), LeafRole(mem, tree, role, n, i, e.frame);
    var tlb' := if cr3 == n.r then tlb - {VPage(n.a, n.b, n.c, i)} else tlb;
    forall v | v in tlb'
      ensures TlbEntryOk(mem', tree, role', cr3, v, tlb'[v])
      ensures Walk(mem', cr3, v) == Walk(mem, cr3, v)
    {
      assert TlbEntryOk(mem, tree, role, cr3, v, tlb[v]);
      var m := N1(cr3, v.a, v.b, v.c);
      RootOfLeaf(mem, tree, role, boot, m);
      TableAt(mem, tree, role, boot, {}, m);
    }
  }

  /** The end of a mapping, once the tables on its way exist: leaf entry, roles and cached translations. */
  lemma MapFinish(mem0: seq<Page>, tree0: map<Node, nat>, role0: seq<Role>, boot: nat,
                  mem: seq<Page>, tree: map<Node, nat>, role: seq<Role>, root: nat, v: VPage, e: Pte,
                  cr3: nat, tlb: map<VPage, Pte>)
    requires Inv(mem0, tree0, role0, boot, {}) && Grown(mem0, tree0, role0, mem, tree, role, root)
    requires Inv(mem, tree, role, boot, {}) && TlbOk(mem0, tree0, role0, cr3, tlb) && UserPage(v)
    requires N1(root, v.a, v.b, v.c) in tree && e.present && 0 < e.frame < MAX_FRAMES
    requires e.frame < |role0| && role0[e.frame] == Kernel && e.frame < |mem0| && mem0[e.frame].Data?
    ensures var n := N1(root, v.a, v.b, v.c);
      && 0 < tree[n] < MAX_FRAMES == |mem| == |role| && mem[tree[n]].Table? && |mem[tree[n]].entries| == ENTRIES
      && var mem', role' := SetEntry(mem, tree[n], v.d, e), LeafRole(mem, tree, role, n, v.d, e.frame);
         var tlb' := if cr3 == root then tlb - {v} else tlb;
         && Inv(mem', tree, role', boot, {}) && MappedPage(mem0, tree0, role0, mem', tree, role', root, v, e)
         && TlbOk(mem', tree, role', cr3, tlb') && (TlbExact(mem0, cr3, tlb) ==> TlbExact(mem', cr3, tlb'))
         && |role'| == MAX_FRAMES && forall f | 0 <= f < MAX_FRAMES :: role'[f] == Free <==> role[f] == Free
  {
    hide Inv, Walk, Grown, TlbOk, TlbExact, MappedPage;
    var n := N1(root, v.a, v.b, v.c);
    TableAt(mem, tree, role, boot, {}, n);
    InvShape(mem, tree, role, boot, {});
    GrownKeeps(mem0, tree0, role0, mem, tree, role, root, e.frame);
    TlbGrown(mem0, tree0, role0, boot, mem, tree, role, root, cr3, tlb);
    MapLeaf(mem0, tree0, role0, boot, mem, tree, role, root, v, e);
    LeafTlb(mem, tree, role, boot, n, v.d, e, cr3, tlb);
  }

  // ----- Fork

  /** The PML4 of a clone with its first i user entries done. */
  ghost predicate ForkTable(mem: seq<Page>, boot: nat, f: nat, i: nat)
  {
    && KernelHalfOk(mem, boot, f)
    && forall j | i <= j < USER_ENTRIES :: mem[f].entries[j] == ABSENT
  }

  lemma ForkTableStep(mem: seq<Page>, mem': seq<Page>, boot: nat, f: nat, i: nat)
    requires ForkTable(mem, boot, f, i) && SameRestOfTable(mem, mem', f, i) && i < USER_ENTRIES && mem'[boot] == mem[boot]
    ensures ForkTable(mem', boot, f, i + 1)
  {
    assert mem'[f].entries[USER_ENTRIES..] == mem[f].entries[USER_ENTRIES..];
  }

  lemma KernelHalfAt(mem: seq<Page>, tree: map<Node, nat>, role: seq<Role>, boot: nat, root: nat)
    requires Inv(mem, tree, role, boot, {}) && N4(root) in tree
    ensures root < MAX_FRAMES && KernelHalfOk(mem, boot, root)
  {
    assert NodeOk(mem, tree, role, N4(root));
  }

  /** The boot PML4 is never touched by a clone. */
  lemma CloningSparesBoot(mem0: seq<Page>, tree0: map<Node, nat>, role0: seq<Role>,
                          mem: seq<Page>, tree: map<Node, nat>, role: seq<Role>, boot: nat, busy: set<Node>, s: Node, d: Node, f: nat)
    requires Cloning(mem0, tree0, role0, mem, tree, role, boot, busy, s, d, f)
    ensures |mem0| == |mem| == MAX_FRAMES && boot < MAX_FRAMES && f != boot && mem[boot] == mem0[boot]
  {
    hide Inv;
    InvShape(mem0, tree0, role0, boot, busy);
    InvShape(mem, tree, role, boot, busy + {d});
  }

  /** A PML4 with its first i entries cloned and the others absent is an address space. */
  lemma PartialRoot(memB: seq<Page>, mem: seq<Page>, tree: map<Node, nat>, role: seq<Role>, boot: nat, s: Node, f: nat, i: nat)
    requires Inv(mem, tree, role, boot, {} + {N4(f)}) && N4(f) in tree && tree[N4(f)] == f && i <= USER_ENTRIES
    requires DirProgress(memB, tree, s, N4(f), i) && f < |mem| == |memB| && mem[f] == memB[f] && ForkTable(mem, boot, f, i)
    ensures Inv(mem, tree, role, boot, {})
  {
    hide Inv, Mirror;
    forall j | 0 <= j < Fan(N4(f))
      ensures LinkOk(mem, tree, N4(f), j)
    {
      if j < i { assert LinkOk(memB, tree, N4(f), j); }
    }
    FinishDirectory(mem, tree, role, boot, {} + {N4(f)}, N4(f));
    assert {} + {N4(f)} - {N4(f)} == {};
  }

  /** Dropping the partial clone brings the tree back, and all its frames were free. */
  lemma ForkUndone(mem0: seq<Page>, tree0: map<Node, nat>, role0: seq<Role>, tree: map<Node, nat>, role: seq<Role>,
                   boot: nat, f: nat)
    requires Inv(mem0, tree0, role0, boot, {}) && N4(f) !in tree0 && |role| == MAX_FRAMES
    requires TreeStep(tree0, tree, N4(f)) && RoleStep(role0, role)
    ensures Without(tree, f) == tree0
    ensures forall g | 0 <= g < MAX_FRAMES && Released(role, f)[g] == Free :: role0[g] == Free
  {
    hide Inv, RoleStep, TreeStep, Without, Released;
    InvShape(mem0, tree0, role0, boot, {});
    hide Frames, Nodes;
    NoneUnderNewRoot(mem0, tree0, role0, boot, f);
    ReleasedWereFree(mem0, tree0, role0, boot, role, f);
    WithoutNew(tree0, tree, f);
  }

  lemma WithoutNew(tree0: map<Node, nat>, tree: map<Node, nat>, f: nat)
    requires TreeStep(tree0, tree, N4(f)) && forall n | n in tree0 :: n.r != f
    ensures Without(tree, f) == tree0
  {
    assert forall n | n in tree && n !in tree0 :: Under(n, N4(f));
  }

  lemma NoneUnderNewRoot(mem0: seq<Page>, tree0: map<Node, nat>, role0: seq<Role>, boot: nat, f: nat)
    requires Inv(mem0, tree0, role0, boot, {}) && N4(f) !in tree0
    ensures forall n | n in tree0 :: n.r != f
  {
    hide Inv, Nodes;
    InvShape(mem0, tree0, role0, boot, {});
    forall n | n in tree0
      ensures n.r != f
    {
      if n.r == f { NothingUnder(mem0, tree0, role0, N4(f), n); }
    }
  }

  lemma ReleasedWereFree(mem0: seq<Page>, tree0: map<Node, nat>, role0: seq<Role>, boot: nat, role: seq<Role>, f: nat)
    requires Inv(mem0, tree0, role0, boot, {}) && |role0| == |role| == MAX_FRAMES && RoleStep(role0, role)
    requires forall n | n in tree0 :: n.r != f
    ensures forall g | 0 <= g < MAX_FRAMES && Released(role, f)[g] == Free :: role0[g] == Free
  {
    InvShape(mem0, tree0, role0, boot, {});
    hide Inv;
  }

  lemma TlbAbandoned(mem0: seq<Page>, tree0: map<Node, nat>, role0: seq<Role>, boot: nat,
                     mem: seq<Page>, role: seq<Role>, s: Node, cr3: nat, tlb: map<VPage, Pte>)
    requires Inv(mem0, tree0, role0, boot, {}) && TlbOk(mem0, tree0, role0, cr3, tlb)
    requires Abandoned(mem0, tree0, role0, mem, tree0, role, boot, {}, s)
    ensures TlbOk(mem, tree0, role, cr3, tlb)
  {
    hide Inv, Nodes, Frames;
    InvShape(mem0, tree0, role0, boot, {});
    InvShape(mem, tree0, role, boot, {});
    forall v | v in tlb
      ensures TlbEntryOk(mem, tree0, role, cr3, v, tlb[v])
    {
      assert TlbEntryOk(mem0, tree0, role0, cr3, v, tlb[v]);
      var n := N1(cr3, v.a, v.b, v.c);
      TableAt(mem0, tree0, role0, boot, {}, n);
      TableAt(mem, tree0, role, boot, {}, n);
      LeafAt(mem0, tree0, role0, boot, {}, n, v.d);
      var f := tree0[n];
      assert MarkedEntry(mem0[f].entries[v.d], mem[f].entries[v.d]);
    }
  }

  lemma TlbAfterFailure(mem0: seq<Page>, tree0: map<Node, nat>, role0: seq<Role>, boot: nat,
                        mem: seq<Page>, tree: map<Node, nat>, role: seq<Role>, s: Node, cr3: nat, tlb: map<VPage, Pte>)
    requires Inv(mem0, tree0, role0, boot, {}) && TlbOk(mem0, tree0, role0, cr3, tlb)
    requires Abandoned(mem0, tree0, role0, mem, tree, role, boot, {}, s)
    ensures Inv(mem, tree, role, boot, {}) && TlbOk(mem, tree, role, cr3, tlb) && tree == tree0
  {
    hide Inv, TlbOk, Marked;
    TlbAbandoned(mem0, tree0, role0, boot, mem, role, s, cr3, tlb);
  }

  /** Every cached translation that allows writing leads to a page whose table entry still does. */
  ghost predicate WritesAllowed(mem: seq<Page>, cr3: nat, tlb: map<VPage, Pte>)
  {
    forall v | v in tlb && tlb[v].write :: Walk(mem, cr3, v).Some? && Walk(mem, cr3, v).value.write
  }

  /** What a fork that ran out of frames leaves stale: exactly the writable translations of pages it marked. */
  lemma ExactAfterFailure(mem0: seq<Page>, tree0: map<Node, nat>, role0: seq<Role>, boot: nat,
                          mem: seq<Page>, tree: map<Node, nat>, role: seq<Role>, s: Node, cr3: nat, tlb: map<VPage, Pte>)
    requires Inv(mem0, tree0, role0, boot, {}) && TlbOk(mem0, tree0, role0, cr3, tlb) && TlbExact(mem0, cr3, tlb)
    requires Abandoned(mem0, tree0, role0, mem, tree, role, boot, {}, s)
    ensures TlbExact(mem, cr3, tlb) <==> WritesAllowed(mem, cr3, tlb)
  {
    hide Inv, Walk;
    forall v | v in tlb
      ensures Walk(mem, cr3, v).Some? && MarkedEntry(tlb[v], Walk(mem, cr3, v).value)
    {
      assert TlbEntryOk(mem0, tree0, role0, cr3, v, tlb[v]);
      MarkedWalk(mem0, tree0, role0, boot, mem, role, s, cr3, v);
    }
  }

  lemma MarkedWalk(mem0: seq<Page>, tree0: map<Node, nat>, role0: seq<Role>, boot: nat,
                   mem: seq<Page>, role: seq<Role>, s: Node, r: nat, v: VPage)
    requires Inv(mem0, tree0, role0, boot, {}) && Abandoned(mem0, tree0, role0, mem, tree0, role, boot, {}, s)
    requires UserPage(v) && N1(r, v.a, v.b, v.c) in tree0 && Walk(mem0, r, v).Some?
    ensures Walk(mem, r, v).Some? && MarkedEntry(Walk(mem0, r, v).value, Walk(mem, r, v).value)
  {
    hide Inv, Walk;
    var n := N1(r, v.a, v.b, v.c);
    InvShape(mem0, tree0, role0, boot, {});
    hide Nodes, Frames;
    RootOfLeaf(mem0, tree0, role0, boot, n);
    WalkFollowsTree(mem0, tree0, role0, boot, {}, r, v);
    WalkFollowsTree(mem, tree0, role, boot, {}, r, v);
    TableAt(mem0, tree0, role0, boot, {}, n);
    TableAt(mem, tree0, role, boot, {}, n);
    var f := tree0[n];
    assert MarkedEntry(mem0[f].entries[v.d], mem[f].entries[v.d]);
  }

  lemma ForkTableStart(mem0: seq<Page>, tree0: map<Node, nat>, role0: seq<Role>,
                       mem: seq<Page>, tree: map<Node, nat>, role: seq<Role>, boot: nat, src: nat, f: nat)
    requires Cloning(mem0, tree0, role0, mem, tree, role, boot, {}, N4(src), N4(f), f)
    requires src < |mem0| && KernelHalfOk(mem0, boot, src) && src < |mem| && f < |mem| && FreshPml4(mem[f], mem[src])
    ensures ForkTable(mem, boot, f, 0)
  {
    CloningSparesBoot(mem0, tree0, role0, mem, tree, role, boot, {}, N4(src), N4(f), f);
    hide Inv;
    InvShape(mem0, tree0, role0, boot, {});
    TableAt(mem0, tree0, role0, boot, {}, N4(src));
    SparesDirectory(mem0, mem, role0, N4(src), src);
  }

  lemma ForkTableDone(mem: seq<Page>, boot: nat, f: nat)
    requires ForkTable(mem, boot, f, USER_ENTRIES)
    ensures KernelHalfOk(mem, boot, f)
  {
  }

  lemma ClonedInv(mem0: seq<Page>, tree0: map<Node, nat>, role0: seq<Role>,
                  mem: seq<Page>, tree: map<Node, nat>, role: seq<Role>, boot: nat, busy: set<Node>, s: Node, d: Node)
    requires Cloned(mem0, tree0, role0, mem, tree, role, boot, busy, s, d)
    ensures Inv(mem, tree, role, boot, busy)
  {
  }

  lemma TlbEmpty(mem: seq<Page>, tree: map<Node, nat>, role: seq<Role>, cr3: nat)
    ensures TlbOk(mem, tree, role, cr3, map[]) && TlbExact(mem, cr3, map[])
  {
  }

  lemma FailedParts(mem0: seq<Page>, tree0: map<Node, nat>, role0: seq<Role>,
                    memB: seq<Page>, treeB: map<Node, nat>, roleB: seq<Role>,
                    mem: seq<Page>, tree: map<Node, nat>, role: seq<Role>, boot: nat, src: nat, f: nat, i: nat)
    requires Cloning(mem0, tree0, role0, memB, treeB, roleB, boot, {}, N4(src), N4(f), f)
    requires ForkTable(memB, boot, f, i) && CloneFailed(mem0, tree0, role0, mem, tree, role, boot, {}, N4(src), N4(f))
    requires tree == treeB && f < |mem| == |memB| && mem[f] == memB[f]
    ensures N4(f) in tree && tree[N4(f)] == f && TreeStep(tree0, tree, N4(f)) && |role| == |role0| == MAX_FRAMES && RoleStep(role0, role)
    ensures ForkTable(mem, boot, f, i)
  {
    hide Inv, Marked, RoleStep, TakenFor, WrittenOff;
    CloningSparesBoot(mem0, tree0, role0, memB, treeB, roleB, boot, {}, N4(src), N4(f), f);
    InvShape(mem0, tree0, role0, boot, {});
    SparesKernel(mem0, mem, role0, N4(src), boot);
  }

  lemma SparesKernel(mem: seq<Page>, mem': seq<Page>, role: seq<Role>, s: Node, f: nat)
    requires |mem| == |mem'| == |role| == MAX_FRAMES && Marked(mem, mem', role, s) && f < MAX_FRAMES && role[f] == Kernel
    ensures mem'[f] == mem[f]
  {
  }

  lemma WriteOffOk(role0: seq<Role>, role: seq<Role>)
    requires |role0| == |role| == MAX_FRAMES
    ensures WrittenOff(role0, WriteOff(role0, role))
    ensures forall f | 0 <= f < MAX_FRAMES :: WriteOff(role0, role)[f] == Free <==> role0[f] == Free && role[f] == Free
  {
  }
}
