/** Four-level page tables in physical memory (src/vmm/vmm.c), as values.

    Memory is a sequence of frames; a frame holds either 512 table entries or 4096 bytes.  The tables
    of every user address space form a tree; `tree` maps each table's place in it (root PML4 frame and
    the indices on the way down) to the frame that holds it, and `role` gives every frame its one use. */
module PageTables {
  import opened Bytes
  import opened Pmm
  import opened Ptes

  const ENTRIES: nat := 512
  const USER_ENTRIES: nat := 256
  const PAGE_SIZE: nat := 4096

  datatype Option<+T> = None | Some(value: T)

  datatype Page = Table(entries: seq<Pte>) | Data(bytes: seq<Byte>)

  predicate Sized(p: Page)
  {
    if p.Table? then |p.entries| == ENTRIES else |p.bytes| == PAGE_SIZE
  }

  const ABSENT: Pte := Pte(false, false, false, false, false, false, 0, 0)

  function ZeroTable(): (p: Page)
    ensures Sized(p)
  {
    Table(seq(ENTRIES, _ => ABSENT))
  }

  /** A frame, whatever it held, looked at as a table. */
  function AsTable(p: Page): (t: Page)
    requires Sized(p)
    ensures t.Table? && Sized(t)
  {
    if p.Table? then p
    else Table(seq(ENTRIES, i requires 0 <= i < ENTRIES => Decode(Le64(p.bytes, 8 * i))))
  }

  /** The place of a table: a PML4, or the PDPT, PDT or PT reached from it by the given indices. */
  datatype Node =
    | N4(r: nat)
    | N3(r: nat, a: nat)
    | N2(r: nat, a: nat, b: nat)
    | N1(r: nat, a: nat, b: nat, c: nat)

  predicate ValidNode(n: Node)
  {
    match n
    case N4(_) => true
    case N3(_, a) => a < USER_ENTRIES
    case N2(_, a, b) => a < USER_ENTRIES && b < ENTRIES
    case N1(_, a, b, c) => a < USER_ENTRIES && b < ENTRIES && c < ENTRIES
  }

  function Child(n: Node, i: nat): Node
    requires !n.N1?
  {
    match n
    case N4(r) => N3(r, i)
    case N3(r, a) => N2(r, a, i)
    case N2(r, a, b) => N1(r, a, b, i)
  }

  function Parent(n: Node): Node
    requires !n.N4?
  {
    match n
    case N3(r, _) => N4(r)
    case N2(r, a, _) => N3(r, a)
    case N1(r, a, b, _) => N2(r, a, b)
  }

  /** Entries of a table that can link to user tables: the lower half of a PML4, all of the others. */
  function Fan(n: Node): nat
  {
    if n.N4? then USER_ENTRIES else ENTRIES
  }

  /** The one use of a frame.  Priv(n, i) is data reached by no entry but entry i of the table at n;
      Shared is data that several leaf entries may reach; Kernel is everything else in use. */
  datatype Role = Free | TableOf(node: Node) | Priv(node: Node, idx: nat) | Shared | Kernel

  /** A user page, by the four indices of its virtual address. */
  datatype VPage = VPage(a: nat, b: nat, c: nat, d: nat)

  predicate UserPage(v: VPage)
  {
    v.a < USER_ENTRIES && v.b < ENTRIES && v.c < ENTRIES && v.d < ENTRIES
  }

  /** The VA_PML4_IDX .. VA_PT_IDX decomposition. */
  function PageOf(va: nat): VPage
  {
    VPage(va / 0x80_0000_0000 % ENTRIES, va / 0x4000_0000 % ENTRIES, va / 0x20_0000 % ENTRIES, va / PAGE_SIZE % ENTRIES)
  }

  function AddressOf(v: VPage): nat
  {
    ((v.a * ENTRIES + v.b) * ENTRIES + v.c) * ENTRIES * PAGE_SIZE + v.d * PAGE_SIZE
  }

  /** The indices and the page offset determine a user address. */
  lemma AddressFromIndices(va: nat)
    requires va < 0x8000_0000_0000
    ensures UserPage(PageOf(va)) && AddressOf(PageOf(va)) + va % PAGE_SIZE == va
  {
    var p1 := va / PAGE_SIZE;
    var p2 := p1 / ENTRIES;
    var p3 := p2 / ENTRIES;
    assert va / 0x20_0000 == p2;
    assert va / 0x4000_0000 == p3;
    assert va / 0x80_0000_0000 == p3 / ENTRIES;
  }

  /** Every user page has an address. */
  lemma IndicesFromAddress(v: VPage)
    requires UserPage(v)
    ensures AddressOf(v) < 0x8000_0000_0000 && PageOf(AddressOf(v)) == v
  {
    var q3 := v.a * ENTRIES + v.b;
    var q2 := q3 * ENTRIES + v.c;
    var q1 := q2 * ENTRIES + v.d;
    var va := AddressOf(v);
    assert va == q1 * PAGE_SIZE;
    assert va / 0x20_0000 == q2;
    assert va / 0x4000_0000 == q3;
    assert va / 0x80_0000_0000 == v.a;
  }

  // ----- The invariant

  function At(mem: seq<Page>, f: nat, i: nat): Pte
  {
    if f < |mem| && mem[f].Table? && i < |mem[f].entries| then mem[f].entries[i] else ABSENT
  }

  ghost predicate Frames(mem: seq<Page>, role: seq<Role>)
  {
    |mem| == MAX_FRAMES && |role| == MAX_FRAMES && forall f | 0 <= f < MAX_FRAMES :: Sized(mem[f])
  }

  ghost predicate NodeOk(mem: seq<Page>, tree: map<Node, nat>, role: seq<Role>, n: Node)
    requires n in tree && Frames(mem, role)
  {
    && ValidNode(n)
    && 0 < tree[n] < MAX_FRAMES
    && role[tree[n]] == TableOf(n)
    && mem[tree[n]].Table?
    && (n.N4? ==> tree[n] == n.r)
    && (!n.N4? ==> Parent(n) in tree)
  }

  /** An entry is present exactly when its child table exists, and then leads to it. */
  ghost predicate LinkOk(mem: seq<Page>, tree: map<Node, nat>, n: Node, i: nat)
    requires n in tree && !n.N1?
  {
    var e := At(mem, tree[n], i);
    && (e.present <==> Child(n, i) in tree)
    && (e.present ==> e.frame == tree[Child(n, i)] && !e.huge && e.write && e.user && !e.nx)
  }

  /** A present leaf entry reaches data; only the sole entry reaching a frame may allow writing. */
  ghost predicate LeafOk(mem: seq<Page>, tree: map<Node, nat>, role: seq<Role>, n: Node, i: nat)
    requires n in tree && Frames(mem, role)
  {
    var e := At(mem, tree[n], i);
    e.present ==>
      && e.frame < MAX_FRAMES
      && mem[e.frame].Data?
      && (role[e.frame] == Priv(n, i) || (role[e.frame] == Shared && !e.write))
  }

  ghost predicate KernelHalfOk(mem: seq<Page>, boot: nat, f: nat)
  {
    && f < |mem| && mem[f].Table? && |mem[f].entries| == ENTRIES
    && boot < |mem| && mem[boot].Table? && |mem[boot].entries| == ENTRIES
    && mem[f].entries[USER_ENTRIES..] == mem[boot].entries[USER_ENTRIES..]
  }

  ghost predicate Nodes(mem: seq<Page>, tree: map<Node, nat>, role: seq<Role>)
    requires Frames(mem, role)
  {
    && (forall n | n in tree :: NodeOk(mem, tree, role, n))
    && (forall f | 0 <= f < MAX_FRAMES && role[f].TableOf? :: role[f].node in tree && tree[role[f].node] == f)
  }

  ghost predicate Links(mem: seq<Page>, tree: map<Node, nat>, busy: set<Node>)
  {
    forall n, i | n in tree && n !in busy && !n.N1? && 0 <= i < Fan(n) :: LinkOk(mem, tree, n, i)
  }

  ghost predicate Leaves(mem: seq<Page>, tree: map<Node, nat>, role: seq<Role>, busy: set<Node>)
    requires Frames(mem, role)
  {
    forall n, i | n in tree && n !in busy && n.N1? && 0 <= i < ENTRIES :: LeafOk(mem, tree, role, n, i)
  }

  ghost predicate KernelHalves(mem: seq<Page>, tree: map<Node, nat>, boot: nat, busy: set<Node>)
  {
    forall n | n in tree && n.N4? && n !in busy :: KernelHalfOk(mem, boot, tree[n])
  }

  ghost predicate BootOk(mem: seq<Page>, role: seq<Role>, boot: nat)
    requires Frames(mem, role)
  {
    boot < MAX_FRAMES && role[boot] == Kernel && mem[boot].Table? && role[0] == Kernel
  }

  /** The invariant of the tables of all address spaces.  Tables in `busy` are being filled: their
      entries are not yet constrained. */
  ghost predicate Inv(mem: seq<Page>, tree: map<Node, nat>, role: seq<Role>, boot: nat, busy: set<Node>)
  {
    && Frames(mem, role)
    && BootOk(mem, role, boot)
    && Nodes(mem, tree, role)
    && Links(mem, tree, busy)
    && Leaves(mem, tree, role, busy)
    && KernelHalves(mem, tree, boot, busy)
  }

  // ----- The hardware walk

  /** The translation of a page: its leaf entry, with the rights all four levels allow. */
  function Walk(mem: seq<Page>, root: nat, v: VPage): Option<Pte>
  {
    var e4 := At(mem, root, v.a);
    if !e4.present then None else
    var e3 := At(mem, e4.frame, v.b);
    if !e3.present || e3.huge then None else
    var e2 := At(mem, e3.frame, v.c);
    if !e2.present || e2.huge then None else
    var e1 := At(mem, e2.frame, v.d);
    if !e1.present then None else
    Some(e1.(user := e4.user && e3.user && e2.user && e1.user, write := e4.write && e3.write && e2.write && e1.write,
             nx := e4.nx || e3.nx || e2.nx || e1.nx))
  }

  /** What the walk finds, in terms of the tree. */
  ghost function TreeWalk(mem: seq<Page>, tree: map<Node, nat>, root: nat, v: VPage): Option<Pte>
  {
    var n := N1(root, v.a, v.b, v.c);
    if n in tree && At(mem, tree[n], v.d).present then Some(At(mem, tree[n], v.d)) else None
  }

  lemma WalkFollowsTree(mem: seq<Page>, tree: map<Node, nat>, role: seq<Role>, boot: nat, busy: set<Node>,
                        root: nat, v: VPage)
    requires Inv(mem, tree, role, boot, busy) && N4(root) in tree && UserPage(v)
    requires forall n | n in busy :: n.r != root
    ensures Walk(mem, root, v) == TreeWalk(mem, tree, root, v)
  {
    var n4, n3, n2, n1 := N4(root), N3(root, v.a), N2(root, v.a, v.b), N1(root, v.a, v.b, v.c);
    assert n1 in tree ==> NodeOk(mem, tree, role, n1);
    assert n2 in tree ==> NodeOk(mem, tree, role, n2);
    assert LinkOk(mem, tree, n4, v.a) && Child(n4, v.a) == n3;
    if n3 in tree {
      assert LinkOk(mem, tree, n3, v.b) && Child(n3, v.b) == n2;
      if n2 in tree {
        assert LinkOk(mem, tree, n2, v.c) && Child(n2, v.c) == n1;
      }
    }
  }
}
