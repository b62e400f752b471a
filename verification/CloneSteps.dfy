/** The steps of the copy-on-write clone (cow_clone_pt, cow_clone_pdt, cow_clone_pdpt, vmm_fork_pml4)
    as values: what a partly built clone looks like, and why each write keeps it so. */
module CloneSteps {
  import opened Pmm
  import opened Ptes
  import opened PageTables
  import opened TableSteps

  /** q is n or a table below n. */
  predicate Under(q: Node, n: Node)
  {
    && q.r == n.r
    && match n
       case N4(_) => true
       case N3(_, a) => !q.N4? && q.a == a
       case N2(_, a, b) => (q.N2? || q.N1?) && q.a == a && q.b == b
       case N1(_, a, b, c) => q == n
  }

  /** The same place in the address space of another root. */
  function Rebase(q: Node, r: nat): Node
  {
    match q
    case N4(_) => N4(r)
    case N3(_, a) => N3(r, a)
    case N2(_, a, b) => N2(r, a, b)
    case N1(_, a, b, c) => N1(r, a, b, c)
  }

  /** (e & ~PTE_WRITE) | PTE_COW, on the record. */
  function Cowed(e: Pte): Pte
  {
    e.(write := false, cow := true)
  }

  predicate MarkedEntry(e: Pte, e': Pte)
  {
    e' == e || (e.present && e.write && e' == Cowed(e))
  }

  predicate MarkedTable(p: Page, p': Page)
  {
    && p.Table? && p'.Table? && |p.entries| == |p'.entries|
    && forall i | 0 <= i < |p.entries| :: MarkedEntry(p.entries[i], p'.entries[i])
  }

  /** From mem to mem', frames in use changed at most by marking writable leaf entries below s. */
  ghost predicate Marked(mem: seq<Page>, mem': seq<Page>, role: seq<Role>, s: Node)
    requires |mem| == |mem'| == |role| == MAX_FRAMES
  {
    forall f | 0 <= f < MAX_FRAMES && role[f] != Free ::
      if role[f].TableOf? && role[f].node.N1? && Under(role[f].node, s) then MarkedTable(mem[f], mem'[f])
      else mem'[f] == mem[f]
  }

  /** Frames in use keep their role, but private data may become shared. */
  ghost predicate RoleStep(role: seq<Role>, role': seq<Role>)
    requires |role| == |role'| == MAX_FRAMES
  {
    forall f | 0 <= f < MAX_FRAMES && role[f] != Free ::
      role'[f] == role[f] || (role[f].Priv? && role'[f] == Shared)
  }

  /** Frames that were free are free still, or hold a table at d or below. */
  ghost predicate TakenFor(role: seq<Role>, role': seq<Role>, d: Node)
    requires |role| == |role'| == MAX_FRAMES
  {
    forall f | 0 <= f < MAX_FRAMES && role[f] == Free ::
      role'[f] == Free || (role'[f].TableOf? && Under(role'[f].node, d))
  }

  /** Tables stay where they are; new ones are at d or below. */
  ghost predicate TreeStep(tree: map<Node, nat>, tree': map<Node, nat>, d: Node)
  {
    && (forall n | n in tree :: n in tree' && tree'[n] == tree[n])
    && (forall n | n in tree' && n !in tree :: Under(n, d))
  }

  predicate MirrorEntry(src: Pte, dst: Pte)
  {
    dst == (if src.present then src else ABSENT) && (src.present ==> !src.write)
  }

  ghost predicate MirrorNode(mem: seq<Page>, tree: map<Node, nat>, r: nat, q: Node)
  {
    && (q in tree <==> Rebase(q, r) in tree)
    && (q in tree && q.N1? ==>
          forall i | 0 <= i < ENTRIES :: MirrorEntry(At(mem, tree[Rebase(q, r)], i), At(mem, tree[q], i)))
  }

  /** At d and below, the clone has the tables and leaf entries of the address space r, none writable. */
  ghost predicate Mirror(mem: seq<Page>, tree: map<Node, nat>, r: nat, d: Node)
  {
    forall q | ValidNode(q) && Under(q, d) :: MirrorNode(mem, tree, r, q)
  }

  // ----- A frame becomes a table under construction

  lemma StartTable(mem: seq<Page>, tree: map<Node, nat>, role: seq<Role>, boot: nat, busy: set<Node>,
                   d: Node, f: nat, p: Page)
    requires Inv(mem, tree, role, boot, busy)
    requires d !in tree && ValidNode(d) && (d.N4? ==> d.r == f) && (!d.N4? ==> Parent(d) in tree && Parent(d) in busy)
    requires 0 < f < MAX_FRAMES && f != boot && (role[f] == Free || role[f] == Kernel) && p.Table? && Sized(p)
    ensures Inv(mem[f := p], tree[d := f], role[f := TableOf(d)], boot, busy + {d})
  {
    StartNodes(mem, tree, role, boot, busy, d, f, p);
    StartLeaves(mem, tree, role, boot, busy, d, f, p);
  }

  lemma StartNodes(mem: seq<Page>, tree: map<Node, nat>, role: seq<Role>, boot: nat, busy: set<Node>,
                   d: Node, f: nat, p: Page)
    requires Inv(mem, tree, role, boot, busy)
    requires d !in tree && ValidNode(d) && (d.N4? ==> d.r == f) && (!d.N4? ==> Parent(d) in tree && Parent(d) in busy)
    requires 0 < f < MAX_FRAMES && f != boot && (role[f] == Free || role[f] == Kernel) && p.Table? && Sized(p)
    ensures Frames(mem[f := p], role[f := TableOf(d)])
    ensures Nodes(mem[f := p], tree[d := f], role[f := TableOf(d)])
    ensures Links(mem[f := p], tree[d := f], busy + {d})
  {
    var mem', tree', role' := mem[f := p], tree[d := f], role[f := TableOf(d)];
    var busy' := busy + {d};
    forall m | m in tree
      ensures NodeOk(mem', tree', role', m)
    {
      assert NodeOk(mem, tree, role, m);
    }
    forall m, j | m in tree' && m !in busy' && !m.N1? && 0 <= j < Fan(m)
      ensures LinkOk(mem', tree', m, j)
    {
      assert NodeOk(mem, tree, role, m) && LinkOk(mem, tree, m, j);
      assert Parent(Child(m, j)) == m;
    }
  }

  lemma StartLeaves(mem: seq<Page>, tree: map<Node, nat>, role: seq<Role>, boot: nat, busy: set<Node>,
                    d: Node, f: nat, p: Page)
    requires Inv(mem, tree, role, boot, busy)
    requires d !in tree && f < MAX_FRAMES && f != boot && (role[f] == Free || role[f] == Kernel) && p.Table? && Sized(p)
    ensures Frames(mem[f := p], role[f := TableOf(d)])
    ensures Leaves(mem[f := p], tree[d := f], role[f := TableOf(d)], busy + {d})
    ensures KernelHalves(mem[f := p], tree[d := f], boot, busy + {d})
  {
    var mem', tree', role' := mem[f := p], tree[d := f], role[f := TableOf(d)];
    var busy' := busy + {d};
    forall m, j | m in tree' && m !in busy' && m.N1? && 0 <= j < ENTRIES
      ensures LeafOk(mem', tree', role', m, j)
    {
      assert NodeOk(mem, tree, role, m) && LeafOk(mem, tree, role, m, j);
    }
    forall m | m in tree' && m.N4? && m !in busy'
      ensures KernelHalfOk(mem', boot, tree'[m])
    {
      assert NodeOk(mem, tree, role, m) && KernelHalfOk(mem, boot, tree[m]);
    }
  }

  // ----- Entries of a table under construction

  lemma WriteBusyTable(mem: seq<Page>, tree: map<Node, nat>, role: seq<Role>, boot: nat, busy: set<Node>, d: Node, p: Page)
    requires Inv(mem, tree, role, boot, busy) && d in tree && d in busy && p.Table? && Sized(p)
    ensures tree[d] < MAX_FRAMES
    ensures Inv(mem[tree[d] := p], tree, role, boot, busy)
  {
    assert NodeOk(mem, tree, role, d);
    var mem' := mem[tree[d] := p];
    forall m | m in tree
      ensures NodeOk(mem', tree, role, m)
    {
      assert NodeOk(mem, tree, role, m);
    }
    forall m, j | m in tree && m !in busy && !m.N1? && 0 <= j < Fan(m)
      ensures LinkOk(mem', tree, m, j)
    {
      assert NodeOk(mem, tree, role, m) && LinkOk(mem, tree, m, j);
    }
    forall m, j | m in tree && m !in busy && m.N1? && 0 <= j < ENTRIES
      ensures LeafOk(mem', tree, role, m, j)
    {
      assert NodeOk(mem, tree, role, m) && LeafOk(mem, tree, role, m, j);
    }
    forall m | m in tree && m.N4? && m !in busy
      ensures KernelHalfOk(mem', boot, tree[m])
    {
      assert NodeOk(mem, tree, role, m) && KernelHalfOk(mem, boot, tree[m]);
    }
  }

  // ----- A leaf entry of the source is marked and its frame becomes shared

  ghost predicate CanMark(mem: seq<Page>, tree: map<Node, nat>, role: seq<Role>, boot: nat, busy: set<Node>, s: Node, i: nat)
  {
    && Inv(mem, tree, role, boot, busy)
    && s in tree && s !in busy && s.N1? && i < ENTRIES
    && At(mem, tree[s], i).present
  }

  function MarkedPte(e: Pte): Pte
  {
    if e.write then Cowed(e) else e
  }

  lemma MarkTables(mem: seq<Page>, tree: map<Node, nat>, role: seq<Role>, boot: nat, busy: set<Node>, s: Node, i: nat)
    requires CanMark(mem, tree, role, boot, busy, s, i)
    ensures tree[s] < MAX_FRAMES && mem[tree[s]].Table? && |mem[tree[s]].entries| == ENTRIES
    ensures At(mem, tree[s], i).frame < MAX_FRAMES
    ensures var e := At(mem, tree[s], i);
      && Frames(SetEntry(mem, tree[s], i, MarkedPte(e)), role[e.frame := Shared])
      && Nodes(SetEntry(mem, tree[s], i, MarkedPte(e)), tree, role[e.frame := Shared])
      && Links(SetEntry(mem, tree[s], i, MarkedPte(e)), tree, busy)
      && KernelHalves(SetEntry(mem, tree[s], i, MarkedPte(e)), tree, boot, busy)
  {
    assert NodeOk(mem, tree, role, s) && LeafOk(mem, tree, role, s, i);
    var e := At(mem, tree[s], i);
    var mem', role' := SetEntry(mem, tree[s], i, MarkedPte(e)), role[e.frame := Shared];
    forall m | m in tree
      ensures NodeOk(mem', tree, role', m)
    {
      assert NodeOk(mem, tree, role, m);
    }
    forall m, j | m in tree && m !in busy && !m.N1? && 0 <= j < Fan(m)
      ensures LinkOk(mem', tree, m, j)
    {
      assert NodeOk(mem, tree, role, m) && LinkOk(mem, tree, m, j);
    }
    forall m | m in tree && m.N4? && m !in busy
      ensures KernelHalfOk(mem', boot, tree[m])
    {
      assert NodeOk(mem, tree, role, m) && KernelHalfOk(mem, boot, tree[m]);
    }
  }

  /** Marking keeps the invariant: if the frame was private to this entry, no other entry reaches it. */
  lemma MarkLeaf(mem: seq<Page>, tree: map<Node, nat>, role: seq<Role>, boot: nat, busy: set<Node>, s: Node, i: nat)
    requires CanMark(mem, tree, role, boot, busy, s, i)
    ensures tree[s] < MAX_FRAMES && mem[tree[s]].Table? && |mem[tree[s]].entries| == ENTRIES
    ensures At(mem, tree[s], i).frame < MAX_FRAMES
    ensures var e := At(mem, tree[s], i);
      && (role[e.frame].Priv? || role[e.frame] == Shared)
      && mem[e.frame].Data?
      && Inv(SetEntry(mem, tree[s], i, MarkedPte(e)), tree, role[e.frame := Shared], boot, busy)
  {
    MarkTables(mem, tree, role, boot, busy, s, i);
    assert NodeOk(mem, tree, role, s) && LeafOk(mem, tree, role, s, i);
    var e := At(mem, tree[s], i);
    var mem', role' := SetEntry(mem, tree[s], i, MarkedPte(e)), role[e.frame := Shared];
    forall m, j | m in tree && m !in busy && m.N1? && 0 <= j < ENTRIES
      ensures LeafOk(mem', tree, role', m, j)
    {
      assert NodeOk(mem, tree, role, m) && LeafOk(mem, tree, role, m, j);
    }
  }

  // ----- Tables leave construction

  /** A leaf table whose entries mirror shared, read-only source entries is complete. */
  lemma FinishLeafTable(mem: seq<Page>, tree: map<Node, nat>, role: seq<Role>, boot: nat, busy: set<Node>, s: Node, d: Node)
    requires Inv(mem, tree, role, boot, busy + {d}) && s in tree && d in tree && s.N1? && d.N1? && s !in busy + {d}
    requires forall i | 0 <= i < ENTRIES :: MirrorEntry(At(mem, tree[s], i), At(mem, tree[d], i))
    requires forall i | 0 <= i < ENTRIES && At(mem, tree[s], i).present ::
               At(mem, tree[s], i).frame < MAX_FRAMES && role[At(mem, tree[s], i).frame] == Shared
    ensures Inv(mem, tree, role, boot, busy)
  {
    forall j | 0 <= j < ENTRIES
      ensures LeafOk(mem, tree, role, d, j)
    {
      assert LeafOk(mem, tree, role, s, j);
      assert MirrorEntry(At(mem, tree[s], j), At(mem, tree[d], j));
    }
    forall m, j | m in tree && m !in busy && m.N1? && 0 <= j < ENTRIES
      ensures LeafOk(mem, tree, role, m, j)
    {
      if m != d { assert LeafOk(mem, tree, role, m, j); }
    }
    forall m, j | m in tree && m !in busy && !m.N1? && 0 <= j < Fan(m)
      ensures LinkOk(mem, tree, m, j)
    {
      assert m !in busy + {d};
    }
  }

  /** A directory all of whose entries are linked is complete. */
  lemma FinishDirectory(mem: seq<Page>, tree: map<Node, nat>, role: seq<Role>, boot: nat, busy: set<Node>, d: Node)
    requires Inv(mem, tree, role, boot, busy) && d in tree && !d.N1?
    requires forall i | 0 <= i < Fan(d) :: LinkOk(mem, tree, d, i)
    requires d.N4? ==> KernelHalfOk(mem, boot, tree[d])
    ensures Inv(mem, tree, role, boot, busy - {d})
  {
  }

  // ----- Giving up

  /** role with the frames taken since role0 written off. */
  ghost predicate WrittenOff(role0: seq<Role>, role: seq<Role>)
    requires |role0| == |role| == MAX_FRAMES
  {
    forall f | 0 <= f < MAX_FRAMES ::
      if role0[f] == Free then role[f] == Free || role[f] == Kernel else role[f] == role0[f]
  }

  /** Marks left behind by an abandoned clone do no harm. */
  lemma AbandonKeepsInv(mem0: seq<Page>, tree0: map<Node, nat>, role0: seq<Role>, boot: nat, busy: set<Node>,
                        mem: seq<Page>, role: seq<Role>, s: Node)
    requires Inv(mem0, tree0, role0, boot, busy)
    requires Frames(mem, role) && Marked(mem0, mem, role0, s) && WrittenOff(role0, role)
    ensures Inv(mem, tree0, role, boot, busy)
  {
    forall m | m in tree0
      ensures NodeOk(mem, tree0, role, m)
    {
      assert NodeOk(mem0, tree0, role0, m);
    }
    forall m, j | m in tree0 && m !in busy && !m.N1? && 0 <= j < Fan(m)
      ensures LinkOk(mem, tree0, m, j)
    {
      assert NodeOk(mem0, tree0, role0, m) && LinkOk(mem0, tree0, m, j);
    }
    AbandonLeaves(mem0, tree0, role0, boot, busy, mem, role, s);
    forall m | m in tree0 && m.N4? && m !in busy
      ensures KernelHalfOk(mem, boot, tree0[m])
    {
      assert NodeOk(mem0, tree0, role0, m) && KernelHalfOk(mem0, boot, tree0[m]);
    }
  }

  lemma AbandonLeaves(mem0: seq<Page>, tree0: map<Node, nat>, role0: seq<Role>, boot: nat, busy: set<Node>,
                      mem: seq<Page>, role: seq<Role>, s: Node)
    requires Inv(mem0, tree0, role0, boot, busy)
    requires Frames(mem, role) && Marked(mem0, mem, role0, s) && WrittenOff(role0, role)
    ensures Leaves(mem, tree0, role, busy)
  {
    forall m, j | m in tree0 && m !in busy && m.N1? && 0 <= j < ENTRIES
      ensures LeafOk(mem, tree0, role, m, j)
    {
      assert NodeOk(mem0, tree0, role0, m) && LeafOk(mem0, tree0, role0, m, j);
      var f := tree0[m];
      assert MarkedEntry(mem0[f].entries[j], mem[f].entries[j]);
    }
  }

  // ----- Cloning the table at s, and all below, into a fresh place d

  ghost predicate CloneReady(mem: seq<Page>, tree: map<Node, nat>, role: seq<Role>, boot: nat, busy: set<Node>, s: Node, d: Node)
  {
    && Inv(mem, tree, role, boot, busy)
    && s in tree && d !in tree && ValidNode(d) && d == Rebase(s, d.r) && d.r != s.r
    && (!d.N4? ==> Parent(d) in tree && Parent(d) in busy)
    && (forall n | n in busy :: n in tree && n.r == d.r)
  }

  /** A finished clone. */
  ghost predicate Cloned(mem0: seq<Page>, tree0: map<Node, nat>, role0: seq<Role>,
                         mem: seq<Page>, tree: map<Node, nat>, role: seq<Role>, boot: nat, busy: set<Node>, s: Node, d: Node)
  {
    && Inv(mem, tree, role, boot, busy)
    && |mem0| == |role0| == MAX_FRAMES
    && Marked(mem0, mem, role0, s) && RoleStep(role0, role) && TakenFor(role0, role, d) && TreeStep(tree0, tree, d)
    && d in tree
    && Mirror(mem, tree, s.r, d)
  }

  /** An abandoned clone. */
  ghost predicate Abandoned(mem0: seq<Page>, tree0: map<Node, nat>, role0: seq<Role>,
                            mem: seq<Page>, tree: map<Node, nat>, role: seq<Role>, boot: nat, busy: set<Node>, s: Node)
  {
    && Inv(mem, tree, role, boot, busy)
    && |mem0| == |role0| == MAX_FRAMES
    && Marked(mem0, mem, role0, s) && WrittenOff(role0, role) && tree == tree0
  }

  /** A clone under way: the table at d exists, in frame f. */
  ghost predicate Cloning(mem0: seq<Page>, tree0: map<Node, nat>, role0: seq<Role>,
                          mem: seq<Page>, tree: map<Node, nat>, role: seq<Role>, boot: nat, busy: set<Node>, s: Node, d: Node, f: nat)
  {
    && CloneReady(mem0, tree0, role0, boot, busy, s, d)
    && Inv(mem, tree, role, boot, busy + {d})
    && 0 < f < MAX_FRAMES && role0[f] == Free
    && Marked(mem0, mem, role0, s) && RoleStep(role0, role) && TakenFor(role0, role, d) && TreeStep(tree0, tree, d)
    && d in tree && tree[d] == f
  }

  // ----- The leaf level

  ghost predicate LeafProgress(mem: seq<Page>, role: seq<Role>, t: nat, f: nat, i: nat)
  {
    && |role| == MAX_FRAMES
    && (forall j | 0 <= j < i :: MirrorEntry(At(mem, t, j), At(mem, f, j)))
    && (forall j | 0 <= j < i && At(mem, t, j).present ::
          At(mem, t, j).frame < MAX_FRAMES && role[At(mem, t, j).frame] == Shared)
  }

  lemma BeginClone(mem: seq<Page>, tree: map<Node, nat>, role: seq<Role>, boot: nat, busy: set<Node>,
                   s: Node, d: Node, f: nat, p: Page)
    requires CloneReady(mem, tree, role, boot, busy, s, d)
    requires 0 < f < MAX_FRAMES && f != boot && role[f] == Free && p.Table? && Sized(p) && (d.N4? ==> d.r == f)
    ensures Cloning(mem, tree, role, mem[f := p], tree[d := f], role[f := TableOf(d)], boot, busy, s, d, f)
  {
    hide Inv, Marked;
    InvShape(mem, tree, role, boot, busy);
    StartTable(mem, tree, role, boot, busy, d, f, p);
    MarkedByTaking(mem, tree, role, s, f, p);
  }

  lemma MarkedByTaking(mem: seq<Page>, tree: map<Node, nat>, role: seq<Role>, s: Node, f: nat, p: Page)
    requires Frames(mem, role) && Nodes(mem, tree, role) && f < MAX_FRAMES && role[f] == Free
    ensures Marked(mem, mem[f := p], role, s)
  {
    forall g | 0 <= g < MAX_FRAMES && role[g] != Free && role[g].TableOf?
      ensures MarkedTable(mem[g], mem[g])
    {
      assert NodeOk(mem, tree, role, role[g].node);
    }
  }

  /** New content for the table under construction. */
  lemma CloningRewrite(mem0: seq<Page>, tree0: map<Node, nat>, role0: seq<Role>,
                       mem: seq<Page>, tree: map<Node, nat>, role: seq<Role>, boot: nat, busy: set<Node>,
                       s: Node, d: Node, f: nat, p: Page)
    requires Cloning(mem0, tree0, role0, mem, tree, role, boot, busy, s, d, f) && p.Table? && Sized(p)
    ensures f < |mem|
    ensures Cloning(mem0, tree0, role0, mem[f := p], tree, role, boot, busy, s, d, f)
  {
    hide Inv, RoleStep, TakenFor;
    InvShape(mem0, tree0, role0, boot, busy);
    InvShape(mem, tree, role, boot, busy + {d});
    WriteBusyTable(mem, tree, role, boot, busy + {d}, d, p);
  }

  /** A new entry in the table under construction. */
  lemma CloningWrite(mem0: seq<Page>, tree0: map<Node, nat>, role0: seq<Role>,
                     mem: seq<Page>, tree: map<Node, nat>, role: seq<Role>, boot: nat, busy: set<Node>,
                     s: Node, d: Node, f: nat, i: nat, e: Pte)
    requires Cloning(mem0, tree0, role0, mem, tree, role, boot, busy, s, d, f) && i < ENTRIES
    ensures f < |mem| && mem[f].Table? && |mem[f].entries| == ENTRIES
    ensures Cloning(mem0, tree0, role0, SetEntry(mem, f, i, e), tree, role, boot, busy, s, d, f)
  {
    hide Cloning;
    CloningFrames(mem0, tree0, role0, mem, tree, role, boot, busy, s, d, f);
    CloningRewrite(mem0, tree0, role0, mem, tree, role, boot, busy, s, d, f, Table(mem[f].entries[i := e]));
  }

  /** A source leaf entry marked, and its frame shared. */
  lemma CloningMark(mem0: seq<Page>, tree0: map<Node, nat>, role0: seq<Role>,
                    mem: seq<Page>, tree: map<Node, nat>, role: seq<Role>, boot: nat, busy: set<Node>,
                    s: Node, d: Node, f: nat, i: nat)
    requires Cloning(mem0, tree0, role0, mem, tree, role, boot, busy, s, d, f) && i < ENTRIES && s.N1?
    requires At(mem, tree[s], i).present
    ensures tree[s] < MAX_FRAMES && tree[s] != f && mem[tree[s]].Table? && |mem[tree[s]].entries| == ENTRIES
    ensures var e := At(mem, tree[s], i);
      && e.frame < MAX_FRAMES
      && Cloning(mem0, tree0, role0, SetEntry(mem, tree[s], i, MarkedPte(e)), tree, role[e.frame := Shared], boot, busy, s, d, f)
  {
    hide Inv, Marked, RoleStep, TakenFor;
    assert s !in busy + {d};
    MarkLeaf(mem, tree, role, boot, busy + {d}, s, i);
    TableAt(mem0, tree0, role0, boot, busy, s);
    TableAt(mem, tree, role, boot, busy + {d}, s);
    TableAt(mem, tree, role, boot, busy + {d}, d);
    MarkedMore(mem0, mem, role0, s, tree[s], i);
    RoleShare(role0, role, d, At(mem, tree[s], i).frame);
  }

  lemma RoleShare(role0: seq<Role>, role: seq<Role>, d: Node, f: nat)
    requires |role0| == |role| == MAX_FRAMES && RoleStep(role0, role) && TakenFor(role0, role, d) && f < MAX_FRAMES
    requires role[f].Priv? || role[f] == Shared
    ensures RoleStep(role0, role[f := Shared]) && TakenFor(role0, role[f := Shared], d)
  {
  }

  lemma MarkedMore(mem0: seq<Page>, mem: seq<Page>, role0: seq<Role>, s: Node, t: nat, i: nat)
    requires |mem0| == |mem| == |role0| == MAX_FRAMES && t < MAX_FRAMES && role0[t] == TableOf(s) && s.N1?
    requires Marked(mem0, mem, role0, s) && mem[t].Table? && i < |mem[t].entries| && mem[t].entries[i].present
    ensures Marked(mem0, SetEntry(mem, t, i, MarkedPte(At(mem, t, i))), role0, s)
  {
    var mem' := SetEntry(mem, t, i, MarkedPte(At(mem, t, i)));
    assert MarkedTable(mem0[t], mem'[t]) by {
      assert MarkedTable(mem0[t], mem[t]);
      assert MarkedEntry(mem0[t].entries[i], mem[t].entries[i]);
    }
  }

  lemma CloningFrames(mem0: seq<Page>, tree0: map<Node, nat>, role0: seq<Role>,
                      mem: seq<Page>, tree: map<Node, nat>, role: seq<Role>, boot: nat, busy: set<Node>, s: Node, d: Node, f: nat)
    requires Cloning(mem0, tree0, role0, mem, tree, role, boot, busy, s, d, f)
    ensures s in tree && s !in busy + {d}
    ensures 0 < tree[s] < MAX_FRAMES && tree[s] != f
    ensures mem[tree[s]].Table? && |mem[tree[s]].entries| == ENTRIES
    ensures |mem| == |role| == MAX_FRAMES && 0 < f < MAX_FRAMES && mem[f].Table? && |mem[f].entries| == ENTRIES
  {
    hide Inv, Marked, RoleStep, TakenFor;
    TableAt(mem, tree, role, boot, busy + {d}, s);
    TableAt(mem, tree, role, boot, busy + {d}, d);
  }

  lemma ProgressAbsent(mem: seq<Page>, role: seq<Role>, t: nat, f: nat, i: nat)
    requires LeafProgress(mem, role, t, f, i) && !At(mem, t, i).present
    requires t < |mem| && f < |mem| && t != f && mem[f].Table? && i < |mem[f].entries|
    ensures LeafProgress(SetEntry(mem, f, i, ABSENT), role, t, f, i + 1)
  {
    var mem' := SetEntry(mem, f, i, ABSENT);
    forall j | 0 <= j < i + 1
      ensures MirrorEntry(At(mem', t, j), At(mem', f, j))
    {
      assert j < i ==> MirrorEntry(At(mem, t, j), At(mem, f, j));
    }
    forall j | 0 <= j < i + 1 && At(mem', t, j).present
      ensures At(mem', t, j).frame < MAX_FRAMES && role[At(mem', t, j).frame] == Shared
    {
      assert At(mem', t, j) == At(mem, t, j);
    }
  }

  lemma ProgressShare(mem: seq<Page>, role: seq<Role>, t: nat, f: nat, i: nat)
    requires LeafProgress(mem, role, t, f, i) && At(mem, t, i).present && At(mem, t, i).frame < MAX_FRAMES
    requires t < |mem| && f < |mem| && t != f && mem[f].Table? && i < |mem[f].entries|
    requires mem[t].Table? && i < |mem[t].entries|
    ensures var e := MarkedPte(At(mem, t, i));
      LeafProgress(SetEntry(SetEntry(mem, t, i, e), f, i, e), role[e.frame := Shared], t, f, i + 1)
  {
    var e := MarkedPte(At(mem, t, i));
    var mem' := SetEntry(SetEntry(mem, t, i, e), f, i, e);
    forall j | 0 <= j < i + 1
      ensures MirrorEntry(At(mem', t, j), At(mem', f, j))
    {
      assert j < i ==> MirrorEntry(At(mem, t, j), At(mem, f, j));
    }
    forall j | 0 <= j < i + 1 && At(mem', t, j).present
      ensures At(mem', t, j).frame < MAX_FRAMES && role[e.frame := Shared][At(mem', t, j).frame] == Shared
    {
      assert j < i ==> At(mem', t, j) == At(mem, t, j);
    }
  }

  lemma LeafDone(mem0: seq<Page>, tree0: map<Node, nat>, role0: seq<Role>,
                 mem: seq<Page>, tree: map<Node, nat>, role: seq<Role>, boot: nat, busy: set<Node>, s: Node, d: Node, f: nat)
    requires Cloning(mem0, tree0, role0, mem, tree, role, boot, busy, s, d, f) && s.N1?
    requires LeafProgress(mem, role, tree[s], f, ENTRIES)
    ensures Cloned(mem0, tree0, role0, mem, tree, role, boot, busy, s, d)
  {
    hide Inv, Marked, RoleStep, TakenFor;
    InvShape(mem0, tree0, role0, boot, busy);
    InvShape(mem, tree, role, boot, busy + {d});
    FinishLeafTable(mem, tree, role, boot, busy, s, d);
    assert Rebase(d, s.r) == s;
    forall q | ValidNode(q) && Under(q, d)
      ensures MirrorNode(mem, tree, s.r, q)
    {
      assert q == d;
    }
  }

  // ----- The directory levels

  /** Entries below i are linked and mirrored; no child at i or above exists. */
  ghost predicate DirProgress(mem: seq<Page>, tree: map<Node, nat>, s: Node, d: Node, i: nat)
  {
    && d in tree && !d.N1?
    && (forall j | 0 <= j < i :: LinkOk(mem, tree, d, j))
    && (forall j: nat | i <= j :: Child(d, j) !in tree)
    && (forall j | 0 <= j < i :: Mirror(mem, tree, s.r, Child(d, j)))
  }

  /** No table is below a missing one. */
  lemma NothingUnder(mem: seq<Page>, tree: map<Node, nat>, role: seq<Role>, c: Node, q: Node)
    requires Frames(mem, role) && Nodes(mem, tree, role) && c !in tree && Under(q, c)
    ensures q !in tree
  {
    assert q in tree ==> NodeOk(mem, tree, role, q);
    if q.N1? {
      var p := Parent(q);
      assert p in tree ==> NodeOk(mem, tree, role, p);
      assert Parent(p) in tree ==> NodeOk(mem, tree, role, Parent(p));
    } else if q.N2? {
      assert Parent(q) in tree ==> NodeOk(mem, tree, role, Parent(q));
    }
  }

  /** A mirror survives changes that spare its leaf tables, those of the original, and their places. */
  lemma MirrorKeep(mem: seq<Page>, tree: map<Node, nat>, mem': seq<Page>, tree': map<Node, nat>, r: nat, c: Node)
    requires |mem| == |mem'| == MAX_FRAMES
    requires Mirror(mem, tree, r, c)
    requires forall q | ValidNode(q) && Under(q, c) ::
      && (q in tree' <==> q in tree) && (Rebase(q, r) in tree' <==> Rebase(q, r) in tree)
    requires forall q | ValidNode(q) && Under(q, c) && q in tree && q.N1? ::
      && tree'[q] == tree[q] < MAX_FRAMES && mem'[tree[q]] == mem[tree[q]]
      && Rebase(q, r) in tree && Rebase(q, r) in tree' && tree'[Rebase(q, r)] == tree[Rebase(q, r)] < MAX_FRAMES
      && mem'[tree[Rebase(q, r)]] == mem[tree[Rebase(q, r)]]
    ensures Mirror(mem', tree', r, c)
  {
    forall q | ValidNode(q) && Under(q, c)
      ensures MirrorNode(mem', tree', r, q)
    {
      assert MirrorNode(mem, tree, r, q);
      if q in tree && q.N1? {
        forall i | 0 <= i < ENTRIES
          ensures MirrorEntry(At(mem', tree'[Rebase(q, r)], i), At(mem', tree'[q], i))
        {
          assert MirrorEntry(At(mem, tree[Rebase(q, r)], i), At(mem, tree[q], i));
        }
      }
    }
  }

  /** Writing an entry of a directory spares all leaf tables. */
  lemma MirrorWrite(mem: seq<Page>, tree: map<Node, nat>, role: seq<Role>, r: nat, c: Node, d: Node, i: nat, e: Pte)
    requires Frames(mem, role) && Nodes(mem, tree, role) && d in tree && !d.N1?
    requires Mirror(mem, tree, r, c)
    requires tree[d] < MAX_FRAMES && mem[tree[d]].Table? && i < |mem[tree[d]].entries|
    ensures Mirror(SetEntry(mem, tree[d], i, e), tree, r, c)
  {
    var mem' := SetEntry(mem, tree[d], i, e);
    assert NodeOk(mem, tree, role, d);
    forall q | ValidNode(q) && Under(q, c) && q in tree && q.N1?
      ensures tree[q] < MAX_FRAMES && mem'[tree[q]] == mem[tree[q]]
      ensures Rebase(q, r) in tree && tree[Rebase(q, r)] < MAX_FRAMES && mem'[tree[Rebase(q, r)]] == mem[tree[Rebase(q, r)]]
    {
      assert MirrorNode(mem, tree, r, q);
      assert NodeOk(mem, tree, role, q) && NodeOk(mem, tree, role, Rebase(q, r));
    }
    MirrorKeep(mem, tree, mem', tree, r, c);
  }

  /** Cloning another child spares the mirrors already made. */
  lemma MirrorAcross(mem: seq<Page>, tree: map<Node, nat>, role: seq<Role>,
                     mem': seq<Page>, tree': map<Node, nat>, s: Node, d: Node, j: nat, i: nat)
    requires Frames(mem, role) && Nodes(mem, tree, role) && |mem'| == MAX_FRAMES
    requires !s.N1? && d == Rebase(s, d.r) && d.r != s.r && i != j
    requires Mirror(mem, tree, s.r, Child(d, j))
    requires Marked(mem, mem', role, Child(s, i)) && TreeStep(tree, tree', Child(d, i))
    ensures Mirror(mem', tree', s.r, Child(d, j))
  {
    var c := Child(d, j);
    forall q | ValidNode(q) && Under(q, c)
      ensures (q in tree' <==> q in tree) && (Rebase(q, s.r) in tree' <==> Rebase(q, s.r) in tree)
    {
      assert !Under(q, Child(d, i)) && !Under(Rebase(q, s.r), Child(d, i));
    }
    forall q | ValidNode(q) && Under(q, c) && q in tree && q.N1?
      ensures tree'[q] == tree[q] < MAX_FRAMES && mem'[tree[q]] == mem[tree[q]]
      ensures var q0 := Rebase(q, s.r);
        q0 in tree && q0 in tree' && tree'[q0] == tree[q0] < MAX_FRAMES && mem'[tree[q0]] == mem[tree[q0]]
    {
      var q0 := Rebase(q, s.r);
      assert MirrorNode(mem, tree, s.r, q);
      assert NodeOk(mem, tree, role, q) && NodeOk(mem, tree, role, q0);
      assert !Under(q, Child(s, i)) && !Under(q0, Child(s, i));
    }
    MirrorKeep(mem, tree, mem', tree', s.r, c);
  }

  lemma MarkedTrans(mem0: seq<Page>, mem1: seq<Page>, mem2: seq<Page>, role0: seq<Role>, role1: seq<Role>, s: Node, s1: Node)
    requires |mem0| == |mem1| == |mem2| == |role0| == |role1| == MAX_FRAMES
    requires Marked(mem0, mem1, role0, s) && RoleStep(role0, role1) && Marked(mem1, mem2, role1, s1)
    requires forall q | Under(q, s1) :: Under(q, s)
    requires forall f | 0 <= f < MAX_FRAMES && role0[f].TableOf? && role0[f].node.N1? :: mem0[f].Table?
    ensures Marked(mem0, mem2, role0, s)
  {
    forall f | 0 <= f < MAX_FRAMES && role0[f] != Free
      ensures if role0[f].TableOf? && role0[f].node.N1? && Under(role0[f].node, s) then MarkedTable(mem0[f], mem2[f])
              else mem2[f] == mem0[f]
    {
      if role0[f].TableOf? && role0[f].node.N1? && Under(role0[f].node, s) && Under(role0[f].node, s1) {
        assert MarkedTable(mem0[f], mem1[f]) && MarkedTable(mem1[f], mem2[f]);
        forall i | 0 <= i < |mem0[f].entries|
          ensures MarkedEntry(mem0[f].entries[i], mem2[f].entries[i])
        {
          assert MarkedEntry(mem0[f].entries[i], mem1[f].entries[i]);
          assert MarkedEntry(mem1[f].entries[i], mem2[f].entries[i]);
        }
      }
    }
  }

  /** Writing entry i of the directory at d leaves its other links as they are. */
  lemma LinksBelow(mem: seq<Page>, tree: map<Node, nat>, d: Node, i: nat, e: Pte)
    requires d in tree && !d.N1? && tree[d] < |mem| && mem[tree[d]].Table? && i < |mem[tree[d]].entries|
    requires forall j | 0 <= j < i :: LinkOk(mem, tree, d, j)
    ensures forall j | 0 <= j < i :: LinkOk(SetEntry(mem, tree[d], i, e), tree, d, j)
  {
    forall j | 0 <= j < i
      ensures LinkOk(SetEntry(mem, tree[d], i, e), tree, d, j)
    {
      assert LinkOk(mem, tree, d, j);
    }
  }

  /** An absent source entry: nothing below it on either side. */
  lemma DirAbsentStep(mem: seq<Page>, tree: map<Node, nat>, role: seq<Role>, s: Node, d: Node, i: nat)
    requires Frames(mem, role) && Nodes(mem, tree, role) && DirProgress(mem, tree, s, d, i)
    requires s in tree && !s.N1? && d == Rebase(s, d.r) && LinkOk(mem, tree, s, i) && !At(mem, tree[s], i).present
    requires tree[d] < MAX_FRAMES && mem[tree[d]].Table? && |mem[tree[d]].entries| == ENTRIES && i < ENTRIES
    ensures DirProgress(SetEntry(mem, tree[d], i, ABSENT), tree, s, d, i + 1)
  {
    var mem' := SetEntry(mem, tree[d], i, ABSENT);
    LinksBelow(mem, tree, d, i, ABSENT);
    forall j | 0 <= j < i
      ensures Mirror(mem', tree, s.r, Child(d, j))
    {
      MirrorWrite(mem, tree, role, s.r, Child(d, j), d, i, ABSENT);
    }
    forall q | ValidNode(q) && Under(q, Child(d, i))
      ensures MirrorNode(mem', tree, s.r, q)
    {
      NothingUnder(mem, tree, role, Child(d, i), q);
      NothingUnder(mem, tree, role, Child(s, i), Rebase(q, s.r));
    }
  }

  /** A present source entry leads to a table whose clone can begin. */
  lemma ChildReady(mem0: seq<Page>, tree0: map<Node, nat>, role0: seq<Role>,
                   mem: seq<Page>, tree: map<Node, nat>, role: seq<Role>, boot: nat, busy: set<Node>,
                   s: Node, d: Node, f: nat, i: nat)
    requires Cloning(mem0, tree0, role0, mem, tree, role, boot, busy, s, d, f) && DirProgress(mem, tree, s, d, i)
    requires i < Fan(d) && At(mem, tree[s], i).present
    ensures CloneReady(mem, tree, role, boot, busy + {d}, Child(s, i), Child(d, i))
    ensures At(mem, tree[s], i).frame == tree[Child(s, i)]
    ensures !At(mem, tree[s], i).huge && At(mem, tree[s], i).write && At(mem, tree[s], i).user && !At(mem, tree[s], i).nx
  {
    hide Inv, Marked, RoleStep, TakenFor, Mirror;
    assert s !in busy + {d};
    TableAt(mem, tree, role, boot, busy + {d}, d);
    LinkAt(mem, tree, role, boot, busy + {d}, s, i);
    TableAt(mem, tree, role, boot, busy + {d}, s);
  }

  lemma SparesDirectory(mem: seq<Page>, mem': seq<Page>, role: seq<Role>, s: Node, f: nat)
    requires |mem| == |mem'| == |role| == MAX_FRAMES && Marked(mem, mem', role, s)
    requires f < MAX_FRAMES && role[f].TableOf? && !role[f].node.N1?
    ensures mem'[f] == mem[f]
  {
  }

  /** Linking a finished child clone. */
  lemma DirLinkStep(mem: seq<Page>, tree: map<Node, nat>, role: seq<Role>,
                    mem1: seq<Page>, tree1: map<Node, nat>, role1: seq<Role>, s: Node, d: Node, i: nat, e: Pte)
    requires Frames(mem, role) && Nodes(mem, tree, role) && DirProgress(mem, tree, s, d, i)
    requires Frames(mem1, role1) && Nodes(mem1, tree1, role1)
    requires !s.N1? && d == Rebase(s, d.r) && d.r != s.r && i < ENTRIES
    requires Marked(mem, mem1, role, Child(s, i)) && TreeStep(tree, tree1, Child(d, i))
    requires Child(d, i) in tree1 && Mirror(mem1, tree1, s.r, Child(d, i))
    requires e.present && e.frame == tree1[Child(d, i)] && !e.huge && e.write && e.user && !e.nx
    ensures tree1[d] == tree[d] < MAX_FRAMES && mem1[tree[d]].Table? && |mem1[tree[d]].entries| == ENTRIES
    ensures DirProgress(SetEntry(mem1, tree[d], i, e), tree1, s, d, i + 1)
  {
    hide Mirror, Marked;
    assert NodeOk(mem, tree, role, d) && NodeOk(mem1, tree1, role1, d);
    SparesDirectory(mem, mem1, role, Child(s, i), tree[d]);
    forall j | 0 <= j < i
      ensures LinkOk(mem1, tree1, d, j)
    {
      assert LinkOk(mem, tree, d, j);
      assert !Under(Child(d, j), Child(d, i));
    }
    LinksBelow(mem1, tree1, d, i, e);
    forall j: nat | i + 1 <= j
      ensures Child(d, j) !in tree1
    {
      assert !Under(Child(d, j), Child(d, i));
    }
    forall j | 0 <= j < i + 1
      ensures Mirror(SetEntry(mem1, tree[d], i, e), tree1, s.r, Child(d, j))
    {
      if j < i { MirrorAcross(mem, tree, role, mem1, tree1, s, d, j, i); }
      MirrorWrite(mem1, tree1, role1, s.r, Child(d, j), d, i, e);
    }
  }

  lemma KeepsTables(tree: map<Node, nat>, tree': map<Node, nat>, d: Node, c: Node)
    requires TreeStep(tree, tree', c) && d in tree
    ensures d in tree' && tree'[d] == tree[d]
  {
  }

  /** The clone of a child is a further step of the clone of its parent. */
  lemma CloningChild(mem0: seq<Page>, tree0: map<Node, nat>, role0: seq<Role>,
                     mem: seq<Page>, tree: map<Node, nat>, role: seq<Role>,
                     mem1: seq<Page>, tree1: map<Node, nat>, role1: seq<Role>, boot: nat, busy: set<Node>,
                     s: Node, d: Node, f: nat, i: nat)
    requires Cloning(mem0, tree0, role0, mem, tree, role, boot, busy, s, d, f) && !s.N1?
    requires Cloned(mem, tree, role, mem1, tree1, role1, boot, busy + {d}, Child(s, i), Child(d, i))
    ensures Cloning(mem0, tree0, role0, mem1, tree1, role1, boot, busy, s, d, f)
  {
    hide Inv, Marked, RoleStep, TakenFor, TreeStep, Mirror;
    InvShape(mem0, tree0, role0, boot, busy);
    InvShape(mem, tree, role, boot, busy + {d});
    InvShape(mem1, tree1, role1, boot, busy + {d});
    KeepsTables(tree, tree1, d, Child(d, i));
    TablesAreTables(mem0, tree0, role0);
    MarkedTrans(mem0, mem, mem1, role0, role, s, Child(s, i));
    RoleTrans(role0, role, role1, d, Child(d, i));
    TreeTrans(tree0, tree, tree1, d, Child(d, i));
  }

  lemma RoleTrans(role0: seq<Role>, role1: seq<Role>, role2: seq<Role>, d: Node, c: Node)
    requires |role0| == |role1| == |role2| == MAX_FRAMES && RoleStep(role0, role1) && RoleStep(role1, role2)
    requires TakenFor(role0, role1, d) && TakenFor(role1, role2, c) && Under(c, d)
    ensures RoleStep(role0, role2) && TakenFor(role0, role2, d)
  {
  }

  lemma TreeTrans(tree0: map<Node, nat>, tree1: map<Node, nat>, tree2: map<Node, nat>, d: Node, c: Node)
    requires TreeStep(tree0, tree1, d) && TreeStep(tree1, tree2, c) && Under(c, d)
    ensures TreeStep(tree0, tree2, d)
  {
  }

  lemma TablesAreTables(mem: seq<Page>, tree: map<Node, nat>, role: seq<Role>)
    requires Frames(mem, role) && Nodes(mem, tree, role)
    ensures forall f | 0 <= f < MAX_FRAMES && role[f].TableOf? && role[f].node.N1? :: mem[f].Table?
  {
    forall f | 0 <= f < MAX_FRAMES && role[f].TableOf? && role[f].node.N1?
      ensures mem[f].Table?
    {
      assert NodeOk(mem, tree, role, role[f].node);
    }
  }

  /** All entries done: the directory leaves construction and mirrors the source. */
  lemma DirDone(mem0: seq<Page>, tree0: map<Node, nat>, role0: seq<Role>,
                mem: seq<Page>, tree: map<Node, nat>, role: seq<Role>, boot: nat, busy: set<Node>, s: Node, d: Node, f: nat)
    requires Cloning(mem0, tree0, role0, mem, tree, role, boot, busy, s, d, f) && DirProgress(mem, tree, s, d, Fan(d))
    requires d.N4? ==> KernelHalfOk(mem, boot, f)
    ensures Cloned(mem0, tree0, role0, mem, tree, role, boot, busy, s, d)
  {
    hide Inv, Marked, RoleStep, TakenFor, Mirror;
    InvShape(mem0, tree0, role0, boot, busy);
    InvShape(mem, tree, role, boot, busy + {d});
    FinishDirectory(mem, tree, role, boot, busy + {d}, d);
    assert busy + {d} - {d} == busy;
    DirMirror(mem, tree, s, d);
  }

  lemma DirMirror(mem: seq<Page>, tree: map<Node, nat>, s: Node, d: Node)
    requires DirProgress(mem, tree, s, d, Fan(d)) && d == Rebase(s, d.r) && s in tree
    ensures Mirror(mem, tree, s.r, d)
  {
    forall q | ValidNode(q) && Under(q, d)
      ensures MirrorNode(mem, tree, s.r, q)
    {
      if q == d {
        assert Rebase(q, s.r) == s;
      } else {
        var j := if d.N4? then q.a else if d.N3? then q.b else q.c;
        assert Under(q, Child(d, j)) && Mirror(mem, tree, s.r, Child(d, j));
      }
    }
  }

  /** When the clone of a child is abandoned, the parent's can be as well. */
  lemma AbandonChild(mem0: seq<Page>, tree0: map<Node, nat>, role0: seq<Role>,
                     mem: seq<Page>, tree: map<Node, nat>, role: seq<Role>,
                     mem1: seq<Page>, role1: seq<Role>, boot: nat, busy: set<Node>, s: Node, d: Node, f: nat, i: nat)
    requires Cloning(mem0, tree0, role0, mem, tree, role, boot, busy, s, d, f) && !s.N1?
    requires Abandoned(mem, tree, role, mem1, tree, role1, boot, busy + {d}, Child(s, i))
    ensures Marked(mem0, mem1, role0, s)
    ensures forall r | |r| == MAX_FRAMES && WrittenOff(role0, r) :: Abandoned(mem0, tree0, role0, mem1, tree0, r, boot, busy, s)
  {
    hide Inv, Marked, RoleStep, TakenFor, TreeStep, WrittenOff;
    InvShape(mem0, tree0, role0, boot, busy);
    InvShape(mem1, tree, role1, boot, busy + {d});
    InvShape(mem, tree, role, boot, busy + {d});
    TablesAreTables(mem0, tree0, role0);
    MarkedTrans(mem0, mem, mem1, role0, role, s, Child(s, i));
    forall r | |r| == MAX_FRAMES && WrittenOff(role0, r)
      ensures Abandoned(mem0, tree0, role0, mem1, tree0, r, boot, busy, s)
    {
      AbandonKeepsInv(mem0, tree0, role0, boot, busy, mem1, r, s);
    }
  }

  /** No frame to start with: nothing happened. */
  lemma AbandonNothing(mem: seq<Page>, tree: map<Node, nat>, role: seq<Role>, boot: nat, busy: set<Node>, s: Node)
    requires Inv(mem, tree, role, boot, busy)
    ensures Abandoned(mem, tree, role, mem, tree, role, boot, busy, s)
  {
    forall g | 0 <= g < MAX_FRAMES && role[g] != Free && role[g].TableOf?
      ensures MarkedTable(mem[g], mem[g])
    {
      assert NodeOk(mem, tree, role, role[g].node);
    }
  }

  /** One present source leaf entry marked, shared and copied. */
  lemma ShareStep(mem0: seq<Page>, tree0: map<Node, nat>, role0: seq<Role>,
                  mem: seq<Page>, tree: map<Node, nat>, role: seq<Role>, boot: nat, busy: set<Node>,
                  s: Node, d: Node, f: nat, i: nat)
    requires Cloning(mem0, tree0, role0, mem, tree, role, boot, busy, s, d, f) && i < ENTRIES && s.N1?
    requires LeafProgress(mem, role, tree[s], f, i) && At(mem, tree[s], i).present
    ensures tree[s] < MAX_FRAMES && tree[s] != f && mem[tree[s]].Table? && |mem[tree[s]].entries| == ENTRIES
    ensures mem[f].Table? && |mem[f].entries| == ENTRIES
    ensures var e := MarkedPte(At(mem, tree[s], i));
      var mem' := SetEntry(SetEntry(mem, tree[s], i, e), f, i, e);
      && e.frame < MAX_FRAMES && role[e.frame] != Free
      && Cloning(mem0, tree0, role0, mem', tree, role[e.frame := Shared], boot, busy, s, d, f)
      && LeafProgress(mem', role[e.frame := Shared], tree[s], f, i + 1)
  {
    hide Inv, Marked, RoleStep, TakenFor, TreeStep, LeafProgress;
    InvShape(mem, tree, role, boot, busy + {d});
    CloningFrames(mem0, tree0, role0, mem, tree, role, boot, busy, s, d, f);
    MarkLeaf(mem, tree, role, boot, busy + {d}, s, i);
    CloningMark(mem0, tree0, role0, mem, tree, role, boot, busy, s, d, f, i);
    var e := MarkedPte(At(mem, tree[s], i));
    CloningWrite(mem0, tree0, role0, SetEntry(mem, tree[s], i, e), tree, role[e.frame := Shared], boot, busy, s, d, f, i, e);
    ProgressShare(mem, role, tree[s], f, i);
  }
}
