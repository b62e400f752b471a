/** How many frames the operations of the memory manager need: tables below a place, free frames by role,
    and when a copy-on-write clone or a mapping has enough of them. */
module FrameCounts {
  import Seqs
  import opened Pmm
  import opened PageTables
  import opened TableSteps
  import opened CloneSteps
  import opened VmSteps

  ghost function NodesUnder(tree: map<Node, nat>, s: Node): set<Node>
  {
    set n | n in tree && Under(n, s)
  }

  /** The number of tables at s and below. */
  ghost function Size(tree: map<Node, nat>, s: Node): nat
  {
    |NodesUnder(tree, s)|
  }

  ghost function FreeSet(role: seq<Role>): set<nat>
  {
    set f | 0 <= f < |role| && role[f] == Free
  }

  ghost function FreeCount(role: seq<Role>): nat
  {
    |FreeSet(role)|
  }

  lemma FreeCountIs(role: seq<Role>, words: seq<nat>, free: set<nat>)
    requires FreeAgree(role, free) && Represents(words, free)
    ensures FreeCount(role) == |free|
  {
    hide Represents;
    BelowMax(words, free);
    assert FreeSet(role) == free;
  }

  // ----- Counting through injections

  lemma {:induction false} ImageSize(s: set<Node>, tree: map<Node, nat>)
    requires forall n | n in s :: n in tree
    requires forall m, n | m in s && n in s && m != n :: tree[m] != tree[n]
    ensures |set n | n in s :: tree[n]| == |s|
    decreases |s|
  {
    var image := set n | n in s :: tree[n];
    if s == {} {
      assert image == {};
    } else {
      var m :| m in s;
      var rest := set n | n in s - {m} :: tree[n];
      ImageSize(s - {m}, tree);
      assert image == rest + {tree[m]};
    }
  }

  ghost function RebaseAll(s: set<Node>, r: nat): set<Node>
  {
    set n | n in s :: Rebase(n, r)
  }

  lemma {:induction false} RebaseSize(s: set<Node>, r0: nat, r: nat)
    requires forall n | n in s :: n.r == r0
    ensures |RebaseAll(s, r)| == |s|
    decreases |s|
  {
    if s == {} {
      assert RebaseAll(s, r) == {};
    } else {
      var m :| m in s;
      RebaseSize(s - {m}, r0, r);
      assert RebaseAll(s, r) == RebaseAll(s - {m}, r) + {Rebase(m, r)};
      assert Rebase(m, r) !in RebaseAll(s - {m}, r);
    }
  }

  // ----- Tables

  /** The frames of the tables below a place. */
  ghost function FramesUnder(tree: map<Node, nat>, s: Node): set<nat>
  {
    set n | n in NodesUnder(tree, s) :: tree[n]
  }

  lemma FramesUnderSize(mem: seq<Page>, tree: map<Node, nat>, role: seq<Role>, s: Node)
    requires Frames(mem, role) && Nodes(mem, tree, role)
    ensures |FramesUnder(tree, s)| == Size(tree, s)
  {
    forall m, n | m in NodesUnder(tree, s) && n in NodesUnder(tree, s) && m != n
      ensures tree[m] != tree[n]
    {
      assert NodeOk(mem, tree, role, m) && NodeOk(mem, tree, role, n);
    }
    ImageSize(NodesUnder(tree, s), tree);
  }

  /** An address space has as many table frames as tables. */
  lemma TablesCount(mem: seq<Page>, tree: map<Node, nat>, role: seq<Role>, boot: nat, root: nat)
    requires Inv(mem, tree, role, boot, {})
    ensures |TablesOf(tree, root)| == Size(tree, N4(root))
  {
    InvShape(mem, tree, role, boot, {});
    hide Inv, Nodes;
    FramesUnderSize(mem, tree, role, N4(root));
    assert TablesOf(tree, root) == FramesUnder(tree, N4(root));
  }

  /** What a clone has taken from the free frames is the tables it has made. */
  lemma TakenCount(mem0: seq<Page>, tree0: map<Node, nat>, role0: seq<Role>,
                   mem: seq<Page>, tree: map<Node, nat>, role: seq<Role>, d: Node)
    requires Frames(mem0, role0) && Nodes(mem0, tree0, role0) && Frames(mem, role) && Nodes(mem, tree, role)
    requires RoleStep(role0, role) && TakenFor(role0, role, d) && d !in tree0
    ensures FreeCount(role0) == FreeCount(role) + Size(tree, d)
  {
    var taken := FramesUnder(tree, d);
    FramesUnderSize(mem, tree, role, d);
    TakenWereFree(mem0, tree0, role0, mem, tree, role, d);
    GoneAreTaken(mem, tree, role0, role, d);
    hide Frames, Nodes, RoleStep, TakenFor, FramesUnder;
    assert FreeSet(role0) == FreeSet(role) + taken;
  }

  lemma TakenWereFree(mem0: seq<Page>, tree0: map<Node, nat>, role0: seq<Role>,
                      mem: seq<Page>, tree: map<Node, nat>, role: seq<Role>, d: Node)
    requires Frames(mem0, role0) && Nodes(mem0, tree0, role0) && Frames(mem, role) && Nodes(mem, tree, role)
    requires RoleStep(role0, role) && d !in tree0
    ensures FramesUnder(tree, d) <= FreeSet(role0) - FreeSet(role) && FreeSet(role) <= FreeSet(role0)
  {
    forall f | f in FramesUnder(tree, d)
      ensures f in FreeSet(role0) && f !in FreeSet(role)
    {
      var n :| n in tree && Under(n, d) && tree[n] == f;
      MadeFromFree(mem0, tree0, role0, mem, tree, role, d, n);
    }
  }

  lemma GoneAreTaken(mem: seq<Page>, tree: map<Node, nat>, role0: seq<Role>, role: seq<Role>, d: Node)
    requires Frames(mem, role) && Nodes(mem, tree, role) && |role0| == MAX_FRAMES && TakenFor(role0, role, d)
    ensures FreeSet(role0) - FreeSet(role) <= FramesUnder(tree, d)
  {
    forall f | f in FreeSet(role0) && role[f] != Free
      ensures f in FramesUnder(tree, d)
    {
      assert role[f].node in NodesUnder(tree, d) && tree[role[f].node] == f;
    }
  }

  lemma MadeFromFree(mem0: seq<Page>, tree0: map<Node, nat>, role0: seq<Role>,
                     mem: seq<Page>, tree: map<Node, nat>, role: seq<Role>, d: Node, n: Node)
    requires Frames(mem0, role0) && Nodes(mem0, tree0, role0) && Frames(mem, role) && Nodes(mem, tree, role)
    requires RoleStep(role0, role) && d !in tree0 && n in tree && Under(n, d)
    ensures 0 < tree[n] < MAX_FRAMES && role0[tree[n]] == Free && role[tree[n]] != Free
  {
    assert NodeOk(mem, tree, role, n);
    NothingUnder(mem0, tree0, role0, d, n);
  }

  /** A clone's tables are at another root, so the source keeps its size. */
  lemma SourceSize(tree0: map<Node, nat>, tree: map<Node, nat>, d: Node, s: Node)
    requires TreeStep(tree0, tree, d) && d.r != s.r
    ensures Size(tree, s) == Size(tree0, s)
  {
    assert NodesUnder(tree, s) == NodesUnder(tree0, s);
  }

  /** A finished clone is as large as its source. */
  lemma MirrorSize(mem: seq<Page>, tree: map<Node, nat>, role: seq<Role>, s: Node, d: Node)
    requires Frames(mem, role) && Nodes(mem, tree, role) && Mirror(mem, tree, s.r, d)
    requires d == Rebase(s, d.r) && d.r != s.r
    ensures Size(tree, d) == Size(tree, s)
  {
    var ds, ss := NodesUnder(tree, d), NodesUnder(tree, s);
    forall n | n in ds
      ensures Rebase(n, s.r) in ss
    {
      assert NodeOk(mem, tree, role, n) && MirrorNode(mem, tree, s.r, n);
    }
    forall n | n in ss
      ensures n in RebaseAll(ds, s.r)
    {
      var q := Rebase(n, d.r);
      assert NodeOk(mem, tree, role, n) && MirrorNode(mem, tree, s.r, q);
      assert Rebase(q, s.r) == n;
    }
    assert RebaseAll(ds, s.r) == ss;
    RebaseSize(ds, d.r, s.r);
  }

  /** A directory clone that has come to entry i has no more tables than the source has outside that entry. */
  lemma ProgressSize(mem: seq<Page>, tree: map<Node, nat>, role: seq<Role>, s: Node, d: Node, i: nat)
    requires Frames(mem, role) && Nodes(mem, tree, role) && DirProgress(mem, tree, s, d, i)
    requires s in tree && !s.N1? && d == Rebase(s, d.r) && d.r != s.r
    ensures Size(tree, d) + Size(tree, Child(s, i)) <= Size(tree, s)
  {
    hide DirProgress;
    var ds, cs, ss := NodesUnder(tree, d), NodesUnder(tree, Child(s, i)), NodesUnder(tree, s);
    var image := RebaseAll(ds, s.r);
    forall n | n in ds
      ensures Rebase(n, s.r) in ss && Rebase(n, s.r) !in cs
    {
      CopiedOutside(mem, tree, role, s, d, i, n);
    }
    forall n | n in cs
      ensures n in ss
    {
    }
    RebaseSize(ds, d.r, s.r);
    hide Under;
    DisjointFit(image, cs, ss);
  }

  lemma DisjointFit(a: set<Node>, b: set<Node>, all: set<Node>)
    requires a !! b && a <= all && b <= all
    ensures |a| + |b| <= |all|
  {
    assert |a + b| == |a| + |b|;
    Seqs.SubsetSize(a + b, all);
  }

  lemma CopiedOutside(mem: seq<Page>, tree: map<Node, nat>, role: seq<Role>, s: Node, d: Node, i: nat, n: Node)
    requires Frames(mem, role) && Nodes(mem, tree, role) && DirProgress(mem, tree, s, d, i)
    requires s in tree && !s.N1? && d == Rebase(s, d.r) && d.r != s.r && n in tree && Under(n, d)
    ensures Rebase(n, s.r) in tree && Under(Rebase(n, s.r), s) && !Under(Rebase(n, s.r), Child(s, i))
  {
    hide Mirror;
    if n == d {
      assert Rebase(n, s.r) == s;
    } else {
      var j := if d.N4? then n.a else if d.N3? then n.b else n.c;
      assert Under(n, Child(d, j));
      if j >= i { NothingUnder(mem, tree, role, Child(d, j), n); }
      assert Mirror(mem, tree, s.r, Child(d, j));
      MirrorAt(mem, tree, role, s.r, Child(d, j), n);
    }
  }

  lemma MirrorAt(mem: seq<Page>, tree: map<Node, nat>, role: seq<Role>, r: nat, d: Node, n: Node)
    requires Frames(mem, role) && Nodes(mem, tree, role) && Mirror(mem, tree, r, d) && n in tree && Under(n, d)
    ensures Rebase(n, r) in tree
  {
    assert NodeOk(mem, tree, role, n) && MirrorNode(mem, tree, r, n);
  }

  // ----- When a mapping has enough frames

  /** The tables on the way to a page, below the PML4. */
  ghost function Path(root: nat, v: VPage): set<Node>
  {
    {N3(root, v.a), N2(root, v.a, v.b), N1(root, v.a, v.b, v.c)}
  }

  /** How many of them do not exist. */
  ghost function Missing(tree: map<Node, nat>, root: nat, v: VPage): nat
  {
    (if N3(root, v.a) in tree then 0 else 1) + (if N2(root, v.a, v.b) in tree then 0 else 1)
    + (if N1(root, v.a, v.b, v.c) in tree then 0 else 1)
  }

  /** Tables stay where they are. */
  ghost predicate Extends(tree: map<Node, nat>, tree': map<Node, nat>)
  {
    forall n | n in tree :: n in tree' && tree'[n] == tree[n]
  }

  lemma ExtendsSelf(tree: map<Node, nat>)
    ensures Extends(tree, tree)
  {
  }

  lemma GrownExtends(mem: seq<Page>, tree: map<Node, nat>, role: seq<Role>,
                     mem': seq<Page>, tree': map<Node, nat>, role': seq<Role>, root: nat)
    requires Grown(mem, tree, role, mem', tree', role', root)
    ensures Extends(tree, tree')
  {
  }

  lemma MissingBelow(mem: seq<Page>, tree: map<Node, nat>, role: seq<Role>, boot: nat, root: nat, v: VPage)
    requires Inv(mem, tree, role, boot, {})
    ensures N1(root, v.a, v.b, v.c) in tree ==> N2(root, v.a, v.b) in tree
    ensures N2(root, v.a, v.b) in tree ==> N3(root, v.a) in tree
  {
    hide Inv;
    if N1(root, v.a, v.b, v.c) in tree { TableAt(mem, tree, role, boot, {}, N1(root, v.a, v.b, v.c)); }
    if N2(root, v.a, v.b) in tree { TableAt(mem, tree, role, boot, {}, N2(root, v.a, v.b)); }
  }

  /** What asking for the table at n does to the tables and the free frames; no child when there is no frame. */
  ghost predicate TableTaken(tree: map<Node, nat>, free: set<nat>, n: Node, child: nat, tree': map<Node, nat>, free': set<nat>)
  {
    && (child == 0 <==> n !in tree && free == {})
    && (child == 0 || n in tree ==> tree' == tree && free' == free)
    && (child != 0 && n !in tree ==> child in free && free' == free - {child} && tree' == tree[n := child])
    && (child != 0 ==> n in tree' && tree'[n] == child)
  }

  /** The same level by level, stopping where it fails: it fails exactly with fewer frames than missing tables. */
  lemma PathTaken(tree: map<Node, nat>, free: set<nat>, c3: nat, tree3: map<Node, nat>, free3: set<nat>,
                  c2: nat, tree2: map<Node, nat>, free2: set<nat>, c1: nat, tree1: map<Node, nat>, free1: set<nat>,
                  root: nat, v: VPage)
    requires N1(root, v.a, v.b, v.c) in tree ==> N2(root, v.a, v.b) in tree
    requires N2(root, v.a, v.b) in tree ==> N3(root, v.a) in tree
    requires TableTaken(tree, free, N3(root, v.a), c3, tree3, free3)
    requires if c3 == 0 then c2 == 0 && tree2 == tree3 && free2 == free3
             else TableTaken(tree3, free3, N2(root, v.a, v.b), c2, tree2, free2)
    requires if c2 == 0 then c1 == 0 && tree1 == tree2 && free1 == free2
             else TableTaken(tree2, free2, N1(root, v.a, v.b, v.c), c1, tree1, free1)
    ensures c1 != 0 <==> |free| >= Missing(tree, root, v)
    ensures c1 == 0 ==> free1 == {} && tree1.Keys <= tree.Keys + Path(root, v)
    ensures c1 != 0 ==> N1(root, v.a, v.b, v.c) in tree1 && tree1[N1(root, v.a, v.b, v.c)] == c1
    ensures c1 != 0 ==> tree1.Keys == tree.Keys + Path(root, v)
    ensures c1 != 0 ==> free1 <= free && |free1| == |free| - Missing(tree, root, v)
  {
  }

  // ----- When a clone has enough frames

  /** A finished clone had a frame for every table of its source. */
  lemma ClonedCount(mem0: seq<Page>, tree0: map<Node, nat>, role0: seq<Role>,
                    mem: seq<Page>, tree: map<Node, nat>, role: seq<Role>, boot: nat, busy: set<Node>, s: Node, d: Node)
    requires Inv(mem0, tree0, role0, boot, busy) && d !in tree0 && d == Rebase(s, d.r) && d.r != s.r
    requires Cloned(mem0, tree0, role0, mem, tree, role, boot, busy, s, d)
    ensures FreeCount(role0) == FreeCount(role) + Size(tree0, s)
  {
    hide Inv, Marked, Mirror, RoleStep, TakenFor, TreeStep, Nodes;
    InvShape(mem0, tree0, role0, boot, busy);
    InvShape(mem, tree, role, boot, busy);
    TakenCount(mem0, tree0, role0, mem, tree, role, d);
    MirrorSize(mem, tree, role, s, d);
    SourceSize(tree0, tree, d, s);
  }

  /** If the clone of a child found too few frames, so did that of its parent. */
  lemma FailedCount(mem0: seq<Page>, tree0: map<Node, nat>, role0: seq<Role>,
                    mem: seq<Page>, tree: map<Node, nat>, role: seq<Role>, boot: nat, busy: set<Node>,
                    s: Node, d: Node, f: nat, i: nat)
    requires Cloning(mem0, tree0, role0, mem, tree, role, boot, busy, s, d, f) && DirProgress(mem, tree, s, d, i)
    requires !s.N1? && s in tree && FreeCount(role) < Size(tree, Child(s, i))
    ensures FreeCount(role0) < Size(tree0, s)
  {
    hide Inv, Marked, RoleStep, TakenFor, TreeStep, Nodes, DirProgress;
    InvShape(mem0, tree0, role0, boot, busy);
    InvShape(mem, tree, role, boot, busy + {d});
    TakenCount(mem0, tree0, role0, mem, tree, role, d);
    ProgressSize(mem, tree, role, s, d, i);
    SourceSize(tree0, tree, d, s);
  }

  lemma SizePositive(tree: map<Node, nat>, s: Node)
    requires s in tree
    ensures Size(tree, s) > 0
  {
    assert s in NodesUnder(tree, s);
  }
}
