/** Each write vmm.c makes to a table, a data page or the allocator keeps the invariant of PageTables. */
module TableSteps {
  import opened Pmm
  import opened Ptes
  import opened PageTables

  function SetEntry(mem: seq<Page>, f: nat, i: nat, e: Pte): (mem': seq<Page>)
    requires f < |mem| && mem[f].Table? && i < |mem[f].entries|
    ensures |mem'| == |mem|
  {
    mem[f := Table(mem[f].entries[i := e])]
  }

  /** The link that get_or_alloc_table installs: frame | PTE_WRITE | PTE_USER | PTE_PRESENT. */
  function TableLink(f: nat): Pte
  {
    Pte(true, true, true, false, false, false, f, 0)
  }

  // ----- Reading the invariant

  lemma TableAt(mem: seq<Page>, tree: map<Node, nat>, role: seq<Role>, boot: nat, busy: set<Node>, n: Node)
    requires Inv(mem, tree, role, boot, busy) && n in tree
    ensures |mem| == |role| == MAX_FRAMES && 0 < tree[n] < MAX_FRAMES && tree[n] != boot
    ensures role[tree[n]] == TableOf(n) && mem[tree[n]].Table? && |mem[tree[n]].entries| == ENTRIES
    ensures ValidNode(n) && (n.N4? ==> tree[n] == n.r) && (!n.N4? ==> Parent(n) in tree)
  {
    assert NodeOk(mem, tree, role, n);
  }

  lemma LinkAt(mem: seq<Page>, tree: map<Node, nat>, role: seq<Role>, boot: nat, busy: set<Node>, n: Node, i: nat)
    requires Inv(mem, tree, role, boot, busy) && n in tree && n !in busy && !n.N1? && i < Fan(n)
    ensures LinkOk(mem, tree, n, i)
    ensures At(mem, tree[n], i).present ==> 0 < At(mem, tree[n], i).frame < MAX_FRAMES
  {
    assert LinkOk(mem, tree, n, i);
    assert Child(n, i) in tree ==> NodeOk(mem, tree, role, Child(n, i));
  }

  lemma LeafAt(mem: seq<Page>, tree: map<Node, nat>, role: seq<Role>, boot: nat, busy: set<Node>, n: Node, i: nat)
    requires Inv(mem, tree, role, boot, busy) && n in tree && n !in busy && n.N1? && i < ENTRIES
    ensures Frames(mem, role) && LeafOk(mem, tree, role, n, i)
  {
  }

  lemma InvShape(mem: seq<Page>, tree: map<Node, nat>, role: seq<Role>, boot: nat, busy: set<Node>)
    requires Inv(mem, tree, role, boot, busy)
    ensures Frames(mem, role) && Nodes(mem, tree, role) && BootOk(mem, role, boot)
  {
  }

  // ----- A new table, linked from an absent entry

  ghost predicate CanInstall(mem: seq<Page>, tree: map<Node, nat>, role: seq<Role>, boot: nat, n: Node, i: nat, f: nat)
  {
    && Inv(mem, tree, role, boot, {})
    && n in tree && !n.N1? && i < Fan(n)
    && !At(mem, tree[n], i).present
    && 0 < f < MAX_FRAMES && f != boot && role[f] == Kernel
  }

  ghost function Installed(mem: seq<Page>, tree: map<Node, nat>, role: seq<Role>, boot: nat, n: Node, i: nat, f: nat): (mem': seq<Page>)
    requires CanInstall(mem, tree, role, boot, n, i, f)
  {
    assert NodeOk(mem, tree, role, n);
    SetEntry(mem[f := ZeroTable()], tree[n], i, TableLink(f))
  }

  lemma InstallNodes(mem: seq<Page>, tree: map<Node, nat>, role: seq<Role>, boot: nat, n: Node, i: nat, f: nat)
    requires CanInstall(mem, tree, role, boot, n, i, f)
    ensures Child(n, i) !in tree
    ensures Frames(Installed(mem, tree, role, boot, n, i, f), role[f := TableOf(Child(n, i))])
    ensures Nodes(Installed(mem, tree, role, boot, n, i, f), tree[Child(n, i) := f], role[f := TableOf(Child(n, i))])
  {
    hide Leaves, KernelHalves;
    var c := Child(n, i);
    assert NodeOk(mem, tree, role, n) && LinkOk(mem, tree, n, i);
    forall m | m in tree
      ensures NodeOk(Installed(mem, tree, role, boot, n, i, f), tree[c := f], role[f := TableOf(c)], m)
    {
      assert NodeOk(mem, tree, role, m);
    }
  }

  lemma InstallLinks(mem: seq<Page>, tree: map<Node, nat>, role: seq<Role>, boot: nat, n: Node, i: nat, f: nat)
    requires CanInstall(mem, tree, role, boot, n, i, f)
    ensures Links(Installed(mem, tree, role, boot, n, i, f), tree[Child(n, i) := f], {})
  {
    hide Leaves, KernelHalves;
    var c := Child(n, i);
    var mem' := Installed(mem, tree, role, boot, n, i, f);
    var tree' := tree[c := f];
    assert NodeOk(mem, tree, role, n) && LinkOk(mem, tree, n, i);
    forall m, j | m in tree' && !m.N1? && 0 <= j < Fan(m)
      ensures LinkOk(mem', tree', m, j)
    {
      assert m != c ==> NodeOk(mem, tree, role, m) && LinkOk(mem, tree, m, j);
      assert Parent(Child(m, j)) == m;
    }
  }

  lemma InstallLeaves(mem: seq<Page>, tree: map<Node, nat>, role: seq<Role>, boot: nat, n: Node, i: nat, f: nat)
    requires CanInstall(mem, tree, role, boot, n, i, f)
    ensures Frames(Installed(mem, tree, role, boot, n, i, f), role[f := TableOf(Child(n, i))])
    ensures Leaves(Installed(mem, tree, role, boot, n, i, f), tree[Child(n, i) := f], role[f := TableOf(Child(n, i))], {})
  {
    hide Links, KernelHalves;
    var mem' := Installed(mem, tree, role, boot, n, i, f);
    var tree' := tree[Child(n, i) := f];
    var role' := role[f := TableOf(Child(n, i))];
    assert NodeOk(mem, tree, role, n);
    forall m, j | m in tree' && m.N1? && 0 <= j < ENTRIES
      ensures LeafOk(mem', tree', role', m, j)
    {
      if m == Child(n, i) {
        assert mem'[f] == ZeroTable();
      } else {
        assert NodeOk(mem, tree, role, m) && LeafOk(mem, tree, role, m, j);
      }
    }
  }

  lemma InstallKernelHalves(mem: seq<Page>, tree: map<Node, nat>, role: seq<Role>, boot: nat, n: Node, i: nat, f: nat)
    requires CanInstall(mem, tree, role, boot, n, i, f)
    ensures KernelHalves(Installed(mem, tree, role, boot, n, i, f), tree[Child(n, i) := f], boot, {})
  {
    hide Links, Leaves;
    assert NodeOk(mem, tree, role, n);
    forall m | m in tree && m.N4?
      ensures KernelHalfOk(Installed(mem, tree, role, boot, n, i, f), boot, tree[m])
    {
      assert NodeOk(mem, tree, role, m) && KernelHalfOk(mem, boot, tree[m]);
    }
  }

  /** get_or_alloc_table on an absent entry: a zeroed frame becomes the missing child table. */
  lemma InstallTable(mem: seq<Page>, tree: map<Node, nat>, role: seq<Role>, boot: nat, n: Node, i: nat, f: nat)
    requires CanInstall(mem, tree, role, boot, n, i, f)
    ensures Child(n, i) !in tree
    ensures Inv(Installed(mem, tree, role, boot, n, i, f), tree[Child(n, i) := f], role[f := TableOf(Child(n, i))], boot, {})
  {
    InstallNodes(mem, tree, role, boot, n, i, f);
    InstallLinks(mem, tree, role, boot, n, i, f);
    InstallLeaves(mem, tree, role, boot, n, i, f);
    InstallKernelHalves(mem, tree, role, boot, n, i, f);
    assert NodeOk(mem, tree, role, n);
  }

  // ----- A leaf entry

  /** The frame that entry i of the leaf table at n stops reaching is no longer its own. */
  function Dropped(role: seq<Role>, old_: Pte, n: Node, i: nat): (role': seq<Role>)
    ensures |role'| == |role|
  {
    if old_.present && old_.frame < |role| && role[old_.frame] == Priv(n, i) then role[old_.frame := Kernel] else role
  }

  ghost predicate CanSetLeaf(mem: seq<Page>, tree: map<Node, nat>, role: seq<Role>, boot: nat, n: Node, i: nat, e: Pte)
  {
    && Inv(mem, tree, role, boot, {})
    && n in tree && n.N1? && i < ENTRIES
    && e.present && 0 < e.frame < MAX_FRAMES && role[e.frame] == Kernel && mem[e.frame].Data?
  }

  ghost function LeafRole(mem: seq<Page>, tree: map<Node, nat>, role: seq<Role>, n: Node, i: nat, f: nat): seq<Role>
    requires n in tree && f < |role|
  {
    Dropped(role, At(mem, tree[n], i), n, i)[f := Priv(n, i)]
  }

  lemma SetLeafNodes(mem: seq<Page>, tree: map<Node, nat>, role: seq<Role>, boot: nat, n: Node, i: nat, e: Pte)
    requires CanSetLeaf(mem, tree, role, boot, n, i, e)
    requires 0 < tree[n] < MAX_FRAMES && mem[tree[n]].Table? && |mem[tree[n]].entries| == ENTRIES
    ensures Frames(SetEntry(mem, tree[n], i, e), LeafRole(mem, tree, role, n, i, e.frame))
    ensures Nodes(SetEntry(mem, tree[n], i, e), tree, LeafRole(mem, tree, role, n, i, e.frame))
  {
    hide Leaves, Links, KernelHalves;
    var mem' := SetEntry(mem, tree[n], i, e);
    var role' := LeafRole(mem, tree, role, n, i, e.frame);
    assert NodeOk(mem, tree, role, n);
    forall m | m in tree
      ensures NodeOk(mem', tree, role', m)
    {
      assert NodeOk(mem, tree, role, m);
    }
  }

  lemma SetLeafLinks(mem: seq<Page>, tree: map<Node, nat>, role: seq<Role>, boot: nat, n: Node, i: nat, e: Pte)
    requires CanSetLeaf(mem, tree, role, boot, n, i, e)
    requires 0 < tree[n] < MAX_FRAMES && mem[tree[n]].Table? && |mem[tree[n]].entries| == ENTRIES
    ensures Links(SetEntry(mem, tree[n], i, e), tree, {})
    ensures KernelHalves(SetEntry(mem, tree[n], i, e), tree, boot, {})
  {
    hide Leaves;
    var mem' := SetEntry(mem, tree[n], i, e);
    assert NodeOk(mem, tree, role, n);
    forall m, j | m in tree && !m.N1? && 0 <= j < Fan(m)
      ensures LinkOk(mem', tree, m, j)
    {
      assert NodeOk(mem, tree, role, m) && LinkOk(mem, tree, m, j);
    }
    forall m | m in tree && m.N4?
      ensures KernelHalfOk(mem', boot, tree[m])
    {
      assert NodeOk(mem, tree, role, m) && KernelHalfOk(mem, boot, tree[m]);
    }
  }

  lemma SetLeafLeaves(mem: seq<Page>, tree: map<Node, nat>, role: seq<Role>, boot: nat, n: Node, i: nat, e: Pte)
    requires CanSetLeaf(mem, tree, role, boot, n, i, e)
    requires 0 < tree[n] < MAX_FRAMES && mem[tree[n]].Table? && |mem[tree[n]].entries| == ENTRIES
    ensures Frames(SetEntry(mem, tree[n], i, e), LeafRole(mem, tree, role, n, i, e.frame))
    ensures Leaves(SetEntry(mem, tree[n], i, e), tree, LeafRole(mem, tree, role, n, i, e.frame), {})
  {
    hide Links, KernelHalves;
    var mem' := SetEntry(mem, tree[n], i, e);
    var role' := LeafRole(mem, tree, role, n, i, e.frame);
    assert NodeOk(mem, tree, role, n);
    forall m, j | m in tree && m.N1? && 0 <= j < ENTRIES
      ensures LeafOk(mem', tree, role', m, j)
    {
      assert NodeOk(mem, tree, role, m) && LeafOk(mem, tree, role, m, j);
    }
  }

  /** Writing a leaf entry that leads to a data frame no entry reaches yet. */
  lemma SetLeaf(mem: seq<Page>, tree: map<Node, nat>, role: seq<Role>, boot: nat, n: Node, i: nat, e: Pte)
    requires CanSetLeaf(mem, tree, role, boot, n, i, e)
    ensures 0 < tree[n] < MAX_FRAMES && mem[tree[n]].Table? && |mem[tree[n]].entries| == ENTRIES
    ensures Inv(SetEntry(mem, tree[n], i, e), tree, LeafRole(mem, tree, role, n, i, e.frame), boot, {})
  {
    TableAt(mem, tree, role, boot, {}, n);
    SetLeafNodes(mem, tree, role, boot, n, i, e);
    SetLeafLinks(mem, tree, role, boot, n, i, e);
    SetLeafLeaves(mem, tree, role, boot, n, i, e);
    assert NodeOk(mem, tree, role, n);
  }

  /** Changing the bytes of a data frame, or any content of a frame only the kernel uses. */
  lemma WriteFrame(mem: seq<Page>, tree: map<Node, nat>, role: seq<Role>, boot: nat, f: nat, p: Page)
    requires Inv(mem, tree, role, boot, {}) && f < MAX_FRAMES && Sized(p)
    requires (mem[f].Data? && p.Data?) || (role[f] == Kernel && f != boot)
    ensures Inv(mem[f := p], tree, role, boot, {})
  {
    var mem' := mem[f := p];
    forall m | m in tree
      ensures NodeOk(mem', tree, role, m)
    {
      assert NodeOk(mem, tree, role, m);
    }
    forall m, j | m in tree && !m.N1? && 0 <= j < Fan(m)
      ensures LinkOk(mem', tree, m, j)
    {
      assert NodeOk(mem, tree, role, m) && LinkOk(mem, tree, m, j);
    }
    forall m, j | m in tree && m.N1? && 0 <= j < ENTRIES
      ensures LeafOk(mem', tree, role, m, j)
    {
      assert NodeOk(mem, tree, role, m) && LeafOk(mem, tree, role, m, j);
    }
    forall m | m in tree && m.N4?
      ensures KernelHalfOk(mem', boot, tree[m])
    {
      assert NodeOk(mem, tree, role, m) && KernelHalfOk(mem, boot, tree[m]);
    }
  }

  /** Taking a frame from the allocator, or giving back one that only the kernel uses. */
  lemma ChangeKernelFrame(mem: seq<Page>, tree: map<Node, nat>, role: seq<Role>, boot: nat, busy: set<Node>, f: nat, to: Role)
    requires Inv(mem, tree, role, boot, busy) && 0 < f < MAX_FRAMES && f != boot
    requires role[f] == Free || role[f] == Kernel
    requires to == Free || to == Kernel
    ensures Inv(mem, tree, role[f := to], boot, busy)
  {
    var role' := role[f := to];
    forall m | m in tree
      ensures NodeOk(mem, tree, role', m)
    {
      assert NodeOk(mem, tree, role, m);
    }
    forall m, j | m in tree && m !in busy && m.N1? && 0 <= j < ENTRIES
      ensures LeafOk(mem, tree, role', m, j)
    {
      assert LeafOk(mem, tree, role, m, j);
    }
  }

  // ----- What the steps do to the walks

  /** Every walk of every address space of `tree` finds the same entry. */
  ghost predicate SameWalks(mem: seq<Page>, mem': seq<Page>, tree: map<Node, nat>)
  {
    forall r, v | N4(r) in tree && UserPage(v) :: Walk(mem', r, v) == Walk(mem, r, v)
  }

  /** Same, but for page v0 of the address space r0. */
  ghost predicate SameWalksBut(mem: seq<Page>, mem': seq<Page>, tree: map<Node, nat>, r0: nat, v0: VPage)
  {
    forall r, v | N4(r) in tree && UserPage(v) && (r != r0 || v != v0) :: Walk(mem', r, v) == Walk(mem, r, v)
  }

  lemma InstallKeepsWalks(mem: seq<Page>, tree: map<Node, nat>, role: seq<Role>, boot: nat, n: Node, i: nat, f: nat)
    requires CanInstall(mem, tree, role, boot, n, i, f)
    ensures SameWalks(mem, Installed(mem, tree, role, boot, n, i, f), tree)
  {
    hide Inv, Walk;
    var mem' := Installed(mem, tree, role, boot, n, i, f);
    var c := Child(n, i);
    InstallTable(mem, tree, role, boot, n, i, f);
    TableAt(mem, tree, role, boot, {}, n);
    forall r, v | N4(r) in tree && UserPage(v)
      ensures Walk(mem', r, v) == Walk(mem, r, v)
    {
      WalkFollowsTree(mem, tree, role, boot, {}, r, v);
      WalkFollowsTree(mem', tree[c := f], role[f := TableOf(c)], boot, {}, r, v);
      var leaf := N1(r, v.a, v.b, v.c);
      if leaf in tree { TableAt(mem, tree, role, boot, {}, leaf); }
      assert mem'[f] == ZeroTable();
    }
  }

  lemma SetLeafWalks(mem: seq<Page>, tree: map<Node, nat>, role: seq<Role>, boot: nat, n: Node, i: nat, e: Pte)
    requires CanSetLeaf(mem, tree, role, boot, n, i, e)
    ensures 0 < tree[n] < MAX_FRAMES && mem[tree[n]].Table? && |mem[tree[n]].entries| == ENTRIES
    ensures SameWalksBut(mem, SetEntry(mem, tree[n], i, e), tree, n.r, VPage(n.a, n.b, n.c, i))
    ensures N4(n.r) in tree && UserPage(VPage(n.a, n.b, n.c, i))
    ensures Walk(SetEntry(mem, tree[n], i, e), n.r, VPage(n.a, n.b, n.c, i)) == Some(e)
  {
    hide Inv, Walk;
    TableAt(mem, tree, role, boot, {}, n);
    SetLeaf(mem, tree, role, boot, n, i, e);
    var mem' := SetEntry(mem, tree[n], i, e);
    var role' := LeafRole(mem, tree, role, n, i, e.frame);
    TableAt(mem, tree, role, boot, {}, N2(n.r, n.a, n.b));
    TableAt(mem, tree, role, boot, {}, N3(n.r, n.a));
    WalkFollowsTree(mem', tree, role', boot, {}, n.r, VPage(n.a, n.b, n.c, i));
    forall r, v | N4(r) in tree && UserPage(v) && (r != n.r || v != VPage(n.a, n.b, n.c, i))
      ensures Walk(mem', r, v) == Walk(mem, r, v)
    {
      WalkFollowsTree(mem, tree, role, boot, {}, r, v);
      WalkFollowsTree(mem', tree, role', boot, {}, r, v);
      var leaf := N1(r, v.a, v.b, v.c);
      if leaf in tree { TableAt(mem, tree, role, boot, {}, leaf); }
    }
  }

  /** Writes outside the tables change no walk. */
  lemma WriteFrameWalks(mem: seq<Page>, tree: map<Node, nat>, role: seq<Role>, boot: nat, f: nat, p: Page)
    requires Inv(mem, tree, role, boot, {}) && f < MAX_FRAMES && Sized(p)
    requires (mem[f].Data? && p.Data?) || (role[f] == Kernel && f != boot)
    ensures SameWalks(mem, mem[f := p], tree)
  {
    WriteFrame(mem, tree, role, boot, f, p);
    forall r, v | N4(r) in tree && UserPage(v)
      ensures Walk(mem[f := p], r, v) == Walk(mem, r, v)
    {
      WalkFollowsTree(mem, tree, role, boot, {}, r, v);
      WalkFollowsTree(mem[f := p], tree, role, boot, {}, r, v);
      var leaf := N1(r, v.a, v.b, v.c);
      assert leaf in tree ==> NodeOk(mem, tree, role, leaf);
    }
  }
}
