/** Copy-on-write fork behaves like a fork that copies every page at once.

    The specification keeps, for every address space, a plain map from pages to their bytes and rights;
    its fork copies the whole map.  `Run` executes any sequence of operations on the memory manager, with
    any caching by the processor, and its trace of visible events is one the specification allows. */
module CowRefinement {
  import opened Bytes
  import opened Pmm
  import opened Ptes
  import opened PageTables
  import opened TableSteps
  import opened CloneSteps
  import opened VmSteps
  import opened FrameCounts
  import opened Views
  import opened Vmm
  import opened FrameRoles

  type Space = imap<VPage, PageView>

  /** The specification's state: every address space as a plain map, and the one that is loaded. */
  datatype Spec = Spec(spaces: map<nat, Space>, cur: nat)

  datatype Op =
    | Create
    | Fork(parent: nat)
    | Map(root: nat, v: VPage, bytes: seq<Byte>, flags: Pte)
    | Store(v: VPage, off: nat, b: Byte)
    | Load(v: VPage, off: nat)
    | Switch(root: nat)
    | Destroy(root: nat)
    | Cache(v: VPage)
    | Drop(v: VPage)

  /** What can be seen from outside.  Operations that fail or are not enabled are Invisible. */
  datatype Event =
    | Created(root: nat)
    | Forked(parent: nat, child: nat)
    | Mapped(root: nat, v: VPage, page: PageView)
    | Stored(root: nat, v: VPage, off: nat, b: Byte)
    | Loaded(root: nat, v: VPage, off: nat, result: Option<Byte>)
    | Switched(root: nat)
    | Destroyed(root: nat)
    | Invisible

  // ----- The specification

  ghost function Read(sp: Spec, r: nat, v: VPage, off: nat): Option<Byte>
  {
    if r in sp.spaces && v in sp.spaces[r] && sp.spaces[r][v].user && off < |sp.spaces[r][v].bytes|
    then Some(sp.spaces[r][v].bytes[off]) else None
  }

  ghost predicate Writable(sp: Spec, r: nat, v: VPage)
  {
    r in sp.spaces && v in sp.spaces[r] && sp.spaces[r][v].user && sp.spaces[r][v].writable
  }

  /** Events the specification allows in a state: a load returns the byte last stored there, a store
      hits a page the program may write, and both happen in the loaded address space. */
  ghost predicate Allowed(sp: Spec, ev: Event)
  {
    match ev
    case Created(r) => r !in sp.spaces
    case Forked(p, c) => p in sp.spaces && c !in sp.spaces
    case Mapped(r, v, w) => r in sp.spaces && UserPage(v)
    case Stored(r, v, off, b) => r == sp.cur && Writable(sp, r, v) && off < |sp.spaces[r][v].bytes|
    case Loaded(r, v, off, b) => r == sp.cur && b == Read(sp, r, v, off)
    case Switched(r) => r in sp.spaces
    case Destroyed(r) => r in sp.spaces && r != sp.cur
    case Invisible => true
  }

  /** fork copies the whole map, and leaves the parent loaded. */
  ghost function Apply(sp: Spec, ev: Event): Spec
    requires Allowed(sp, ev)
  {
    match ev
    case Created(r) => sp.(spaces := sp.spaces[r := imap[]])
    case Forked(p, c) => Spec(sp.spaces[c := sp.spaces[p]], p)
    case Mapped(r, v, w) => sp.(spaces := sp.spaces[r := sp.spaces[r][v := w]])
    case Stored(r, v, off, b) => sp.(spaces := Updated(sp.spaces, r, v, off, b))
    case Loaded(_, _, _, _) => sp
    case Switched(r) => sp.(cur := r)
    case Destroyed(r) => sp.(spaces := sp.spaces - {r})
    case Invisible => sp
  }

  ghost function Updated(spaces: map<nat, Space>, r: nat, v: VPage, off: nat, b: Byte): map<nat, Space>
    requires r in spaces && v in spaces[r] && off < |spaces[r][v].bytes|
  {
    spaces[r := spaces[r][v := spaces[r][v].(bytes := spaces[r][v].bytes[off := b])]]
  }

  ghost predicate AllAllowed(sp: Spec, trace: seq<Event>)
    decreases |trace|
  {
    trace == [] || (Allowed(sp, trace[0]) && AllAllowed(Apply(sp, trace[0]), trace[1..]))
  }

  ghost function Replay(sp: Spec, trace: seq<Event>): Spec
    requires AllAllowed(sp, trace)
    decreases |trace|
  {
    if trace == [] then sp else Replay(Apply(sp, trace[0]), trace[1..])
  }

  lemma {:induction false} ReplaySnoc(sp: Spec, trace: seq<Event>, ev: Event)
    requires AllAllowed(sp, trace) && Allowed(Replay(sp, trace), ev)
    ensures AllAllowed(sp, trace + [ev]) && Replay(sp, trace + [ev]) == Apply(Replay(sp, trace), ev)
    decreases |trace|
  {
    if trace == [] {
      assert [ev][1..] == [];
    } else {
      assert (trace + [ev])[1..] == trace[1..] + [ev];
      ReplaySnoc(Apply(sp, trace[0]), trace[1..], ev);
    }
  }

  // ----- Which event an operation shows

  /** What decides whether an operation is possible and has frames enough. */
  datatype Snap = Snap(tree: map<Node, nat>, free: set<nat>, cr3: nat)

  ghost function SnapOf(mmu: Mmu): Snap
    reads mmu, mmu.pmm
  {
    Snap(mmu.tree, mmu.pmm.free, mmu.cr3)
  }

  /** Can the operation be requested now?  Stores and loads run in the current address space; the current
      one is not destroyed. */
  ghost predicate Enabled(op: Op, s: Snap)
  {
    match op
    case Create => true
    case Fork(p) => N4(p) in s.tree
    case Map(r, v, bytes, _) => N4(r) in s.tree && UserPage(v) && |bytes| == PAGE_SIZE
    case Store(v, off, _) => N4(s.cr3) in s.tree && UserPage(v) && off < PAGE_SIZE
    case Load(v, off) => N4(s.cr3) in s.tree && UserPage(v) && off < PAGE_SIZE
    case Switch(r) => N4(r) in s.tree
    case Destroy(r) => N4(r) in s.tree && r != s.cr3
    case Cache(v) => N4(s.cr3) in s.tree && UserPage(v)
    case Drop(_) => true
  }

  /** The event of an operation in a state.  Only a lack of frames, or for a store a page the program may not
      write, makes an enabled operation fail. */
  ghost predicate Shows(op: Op, s: Snap, sp: Spec, ev: Event)
  {
    if !Enabled(op, s) then ev == Invisible else
    match op
    case Create => if s.free == {} then ev == Invisible else ev.Created?
    case Fork(p) => if |s.free| < |TablesOf(s.tree, p)| then ev == Invisible else ev.Forked? && ev.parent == p
    case Map(r, v, bytes, flags) =>
      if |s.free| <= Missing(s.tree, r, v) then ev == Invisible
      else ev == Mapped(r, v, PageView(bytes, flags.user, flags.write || flags.cow, flags.nx))
    case Store(v, off, b) =>
      if !Writable(sp, s.cr3, v) then ev == Invisible
      else ev == Stored(s.cr3, v, off, b) || (ev == Invisible && s.free == {})
    case Load(v, off) => ev == Loaded(s.cr3, v, off, Read(sp, s.cr3, v, off))
    case Switch(r) => ev == Switched(r)
    case Destroy(r) => ev == Destroyed(r)
    case Cache(_) => ev == Invisible
    case Drop(_) => ev == Invisible
  }

  /** At most one frame taken. */
  ghost predicate TakesOne(free: set<nat>, free': set<nat>)
  {
    free' == free || exists f :: f in free && free' == free - {f}
  }

  /** What an operation does to the tables, the free frames and CR3. */
  ghost predicate Moves(op: Op, s: Snap, ev: Event, s': Snap)
  {
    match ev
    case Created(r) => r in s.free && s' == Snap(s.tree[N4(r) := r], s.free - {r}, s.cr3)
    case Forked(p, c) =>
      && s'.cr3 == p && N4(c) !in s.tree && TreeStep(s.tree, s'.tree, N4(c))
      && s'.free + TablesOf(s'.tree, c) == s.free && |s'.free| == |s.free| - |TablesOf(s.tree, p)|
    case Mapped(r, v, _) =>
      && s'.cr3 == s.cr3 && Extends(s.tree, s'.tree) && s'.tree.Keys == s.tree.Keys + Path(r, v)
      && s'.free <= s.free && |s'.free| == |s.free| - 1 - Missing(s.tree, r, v)
    case Stored(_, _, _, _) => s'.tree == s.tree && s'.cr3 == s.cr3 && TakesOne(s.free, s'.free)
    case Loaded(_, _, _, _) => s' == s
    case Switched(r) => s' == s.(cr3 := r)
    case Destroyed(r) => s' == Snap(Without(s.tree, r), s.free + TablesOf(s.tree, r), s.cr3)
    case Invisible =>
      && s'.cr3 == s.cr3 && s'.free <= s.free && Extends(s.tree, s'.tree)
      && (!op.Map? ==> s'.tree == s.tree)
      && (op.Map? ==> s'.tree.Keys <= s.tree.Keys + Path(op.root, op.v))
      && (op.Store? ==> TakesOne(s.free, s'.free))
      && (!op.Map? && !op.Fork? && !op.Store? ==> s' == s)
  }

  // ----- The refinement relation

  /** The pages the programs see are those of the specification. */
  ghost predicate Refines(mem: seq<Page>, tree: map<Node, nat>, cr3: nat, sp: Spec)
  {
    && cr3 == sp.cur
    && (forall r :: r in sp.spaces <==> N4(r) in tree)
    && (forall r, v | r in sp.spaces && UserPage(v) ::
          View(mem, r, v) == if v in sp.spaces[r] then Some(sp.spaces[r][v]) else None)
  }

  lemma RefinesSame(mem: seq<Page>, tree: map<Node, nat>, cr3: nat, mem': seq<Page>, tree': map<Node, nat>, sp: Spec)
    requires Refines(mem, tree, cr3, sp) && SameViews(mem, mem', tree) && SameRoots(tree, tree')
    ensures Refines(mem', tree', cr3, sp)
  {
    hide View;
  }

  lemma RefinesFork(mem: seq<Page>, tree: map<Node, nat>, cr3: nat, mem': seq<Page>, tree': map<Node, nat>, sp: Spec,
                    p: nat, c: nat)
    requires Refines(mem, tree, cr3, sp) && SameViews(mem, mem', tree) && p in sp.spaces && c !in sp.spaces
    requires forall v | UserPage(v) :: View(mem', c, v) == View(mem, p, v)
    requires forall r :: N4(r) in tree' <==> N4(r) in tree || r == c
    ensures Refines(mem', tree', p, Apply(sp, Forked(p, c)))
  {
    hide View;
  }

  lemma RefinesCreate(mem: seq<Page>, tree: map<Node, nat>, cr3: nat, mem': seq<Page>, tree': map<Node, nat>, sp: Spec, c: nat)
    requires Refines(mem, tree, cr3, sp) && SameViews(mem, mem', tree) && c !in sp.spaces
    requires forall v | UserPage(v) :: View(mem', c, v) == None
    requires forall r :: N4(r) in tree' <==> N4(r) in tree || r == c
    ensures Refines(mem', tree', cr3, Apply(sp, Event.Created(c)))
  {
    hide View;
  }

  lemma RefinesChange(mem: seq<Page>, tree: map<Node, nat>, cr3: nat, mem': seq<Page>, tree': map<Node, nat>, sp: Spec,
                      r: nat, v: VPage, w: PageView)
    requires Refines(mem, tree, cr3, sp) && SameViewsBut(mem, mem', tree, r, v) && SameRoots(tree, tree')
    requires r in sp.spaces && UserPage(v) && View(mem', r, v) == Some(w)
    ensures Refines(mem', tree', cr3, sp.(spaces := sp.spaces[r := sp.spaces[r][v := w]]))
  {
    hide View;
  }

  lemma RefinesDestroy(mem: seq<Page>, tree: map<Node, nat>, cr3: nat, sp: Spec, r: nat)
    requires Refines(mem, tree, cr3, sp)
    ensures Refines(mem, Without(tree, r), cr3, sp.(spaces := sp.spaces - {r}))
  {
    hide View;
  }

  // ----- One operation

  ghost predicate Tracks(roots: set<nat>, tree: map<Node, nat>)
  {
    forall r :: r in roots <==> N4(r) in tree
  }

  /** Enabled, as the program decides it from the roots it knows. */
  predicate Possible(op: Op, roots: set<nat>, cr3: nat)
  {
    match op
    case Create => true
    case Fork(p) => p in roots
    case Map(r, v, bytes, _) => r in roots && UserPage(v) && |bytes| == PAGE_SIZE
    case Store(v, off, _) => cr3 in roots && UserPage(v) && off < PAGE_SIZE
    case Load(v, off) => cr3 in roots && UserPage(v) && off < PAGE_SIZE
    case Switch(r) => r in roots
    case Destroy(r) => r in roots && r != cr3
    case Cache(v) => cr3 in roots && UserPage(v)
    case Drop(_) => true
  }

  method CreateStep(mmu: Mmu, roots: set<nat>, ghost sp: Spec) returns (ev: Event, roots': set<nat>)
    requires mmu.Valid() && Tracks(roots, mmu.tree) && Refines(mmu.mem, mmu.tree, mmu.cr3, sp)
    modifies mmu`mem, mmu`tree, mmu`role, mmu.pmm, mmu.pmm.bitmap
    ensures mmu.Valid() && Tracks(roots', mmu.tree) && (old(mmu.Exact()) ==> mmu.Exact())
    ensures Allowed(sp, ev) && Refines(mmu.mem, mmu.tree, mmu.cr3, Apply(sp, ev))
    ensures Shows(Create, old(SnapOf(mmu)), sp, ev) && Moves(Create, old(SnapOf(mmu)), ev, SnapOf(mmu))
  {
    hide Inv, Walk, View, TlbOk, TlbExact, SameViews, VmSteps.Created, Represents, FreeAgree;
    ghost var mem0, tree0, role0 := mmu.mem, mmu.tree, mmu.role;
    ev, roots' := Invisible, roots;
    var root := mmu.CreateUserPml4();
    if root != 0 {
      CreatedViews(mem0, tree0, role0, mmu.boot, mmu.mem, mmu.tree, mmu.role, root);
      CreatedRoots(mem0, tree0, role0, mmu.mem, mmu.tree, mmu.role, root);
      RefinesCreate(mem0, tree0, mmu.cr3, mmu.mem, mmu.tree, sp, root);
      ev, roots' := Event.Created(root), roots + {root};
    }
  }

  lemma CreatedRoots(mem: seq<Page>, tree: map<Node, nat>, role: seq<Role>,
                     mem': seq<Page>, tree': map<Node, nat>, role': seq<Role>, root: nat)
    requires VmSteps.Created(mem, tree, role, mem', tree', role', root)
    ensures N4(root) !in tree && tree' == tree[N4(root) := root]
    ensures forall r :: N4(r) in tree' <==> N4(r) in tree || r == root
  {
  }

  method ForkStep(mmu: Mmu, p: nat, roots: set<nat>, ghost sp: Spec) returns (ev: Event, roots': set<nat>)
    requires mmu.Valid() && Tracks(roots, mmu.tree) && Refines(mmu.mem, mmu.tree, mmu.cr3, sp) && N4(p) in mmu.tree
    modifies mmu`mem, mmu`tree, mmu`role, mmu`cr3, mmu`tlb, mmu.pmm, mmu.pmm.bitmap
    ensures mmu.Valid() && Tracks(roots', mmu.tree) && (old(mmu.Exact()) && ev.Forked? ==> mmu.Exact())
    ensures Allowed(sp, ev) && Refines(mmu.mem, mmu.tree, mmu.cr3, Apply(sp, ev))
    ensures Shows(Fork(p), old(SnapOf(mmu)), sp, ev) && Moves(Fork(p), old(SnapOf(mmu)), ev, SnapOf(mmu))
  {
    hide Inv, Walk, View, TlbOk, TlbExact, Cloned, Abandoned, SameViews, Represents, FreeAgree, TablesOf, TreeStep;
    ghost var mem0, tree0, role0, free0 := mmu.mem, mmu.tree, mmu.role, mmu.pmm.free;
    BelowMax(mmu.pmm.bitmap[..], free0);
    var child := mmu.ForkPml4(p);
    if child != 0 {
      ClonedViews(mem0, tree0, role0, mmu.mem, mmu.tree, mmu.role, mmu.boot, p, child);
      ClonedRoots(mem0, tree0, role0, mmu.mem, mmu.tree, mmu.role, mmu.boot, N4(p), child);
      ForkTakesTables(mem0, tree0, role0, free0, mmu.mem, mmu.tree, mmu.role, mmu.boot, mmu.pmm.bitmap[..],
                      mmu.pmm.free, N4(p), child);
      RefinesFork(mem0, tree0, old(mmu.cr3), mmu.mem, mmu.tree, sp, p, child);
      TlbEmpty(mmu.mem, mmu.tree, mmu.role, mmu.cr3);
      return Forked(p, child), roots + {child};
    }
    AbandonedViews(mem0, tree0, role0, mmu.mem, mmu.tree, mmu.role, mmu.boot, N4(p));
    AbandonedRoots(mem0, tree0, role0, mmu.mem, mmu.tree, mmu.role, mmu.boot, N4(p));
    AbandonedFree(mem0, tree0, role0, free0, mmu.mem, mmu.tree, mmu.role, mmu.boot, mmu.pmm.bitmap[..], mmu.pmm.free, N4(p));
    RefinesSame(mem0, tree0, mmu.cr3, mmu.mem, mmu.tree, sp);
    return Invisible, roots;
  }

  lemma ClonedRoots(mem0: seq<Page>, tree0: map<Node, nat>, role0: seq<Role>,
                    mem: seq<Page>, tree: map<Node, nat>, role: seq<Role>, boot: nat, s: Node, child: nat)
    requires Cloned(mem0, tree0, role0, mem, tree, role, boot, {}, s, N4(child))
    ensures TreeStep(tree0, tree, N4(child))
    ensures forall r :: N4(r) in tree <==> N4(r) in tree0 || r == child
  {
    hide Inv;
  }

  lemma AbandonedRoots(mem0: seq<Page>, tree0: map<Node, nat>, role0: seq<Role>,
                       mem: seq<Page>, tree: map<Node, nat>, role: seq<Role>, boot: nat, s: Node)
    requires Abandoned(mem0, tree0, role0, mem, tree, role, boot, {}, s)
    ensures tree == tree0
  {
  }

  lemma AbandonedFree(mem0: seq<Page>, tree0: map<Node, nat>, role0: seq<Role>, free0: set<nat>,
                      mem: seq<Page>, tree: map<Node, nat>, role: seq<Role>, boot: nat, words: seq<nat>, free: set<nat>, s: Node)
    requires FreeAgree(role0, free0) && FreeAgree(role, free) && Represents(words, free)
    requires Abandoned(mem0, tree0, role0, mem, tree, role, boot, {}, s)
    ensures free <= free0
  {
    hide Inv, Marked, Represents;
    BelowMax(words, free);
  }

  method DestroyStep(mmu: Mmu, r: nat, roots: set<nat>, ghost sp: Spec) returns (ev: Event, roots': set<nat>)
    requires mmu.Valid() && Tracks(roots, mmu.tree) && Refines(mmu.mem, mmu.tree, mmu.cr3, sp)
    requires N4(r) in mmu.tree && r != mmu.cr3
    modifies mmu`tree, mmu`role, mmu.pmm, mmu.pmm.bitmap
    ensures mmu.Valid() && Tracks(roots', mmu.tree)
    ensures Allowed(sp, ev) && Refines(mmu.mem, mmu.tree, mmu.cr3, Apply(sp, ev))
    ensures Shows(Destroy(r), old(SnapOf(mmu)), sp, ev) && Moves(Destroy(r), old(SnapOf(mmu)), ev, SnapOf(mmu))
  {
    hide Inv, Walk, View, TlbOk, TlbExact, Represents, FreeAgree, TablesOf;
    RefinesDestroy(mmu.mem, mmu.tree, mmu.cr3, sp, r);
    mmu.DestroyUserPml4(r);
    return Destroyed(r), roots - {r};
  }

  method MapStep(mmu: Mmu, r: nat, v: VPage, bytes: seq<Byte>, flags: Pte, ghost sp: Spec) returns (ev: Event)
    requires mmu.Valid() && Refines(mmu.mem, mmu.tree, mmu.cr3, sp)
    requires N4(r) in mmu.tree && UserPage(v) && |bytes| == PAGE_SIZE
    modifies mmu`mem, mmu`tree, mmu`role, mmu`tlb, mmu.pmm, mmu.pmm.bitmap
    ensures mmu.Valid() && SameRoots(old(mmu.tree), mmu.tree) && (old(mmu.Exact()) ==> mmu.Exact())
    ensures Allowed(sp, ev) && Refines(mmu.mem, mmu.tree, mmu.cr3, Apply(sp, ev))
    ensures Shows(Map(r, v, bytes, flags), old(SnapOf(mmu)), sp, ev)
    ensures Moves(Map(r, v, bytes, flags), old(SnapOf(mmu)), ev, SnapOf(mmu))
  {
    hide Inv, Walk, View, TlbOk, TlbExact, NewPage, SameViews, Represents, FreeAgree, Missing, Path;
    ghost var mem0, tree0, role0 := mmu.mem, mmu.tree, mmu.role;
    var ok; ghost var e;
    ok, e := mmu.MapNewPage(r, v, bytes, flags);
    if ok {
      var page := PageView(bytes, flags.user, flags.write || flags.cow, flags.nx);
      NewPageView(mem0, tree0, role0, mmu.mem, mmu.tree, mmu.role, r, v, e, bytes);
      RefinesChange(mem0, tree0, mmu.cr3, mmu.mem, mmu.tree, sp, r, v, page);
      return Mapped(r, v, page);
    }
    RefinesSame(mem0, tree0, mmu.cr3, mmu.mem, mmu.tree, sp);
    return Invisible;
  }

  method StoreStep(mmu: Mmu, v: VPage, off: nat, b: Byte, ghost sp: Spec) returns (ev: Event)
    requires mmu.Valid() && Refines(mmu.mem, mmu.tree, mmu.cr3, sp)
    requires N4(mmu.cr3) in mmu.tree && UserPage(v) && off < PAGE_SIZE
    modifies mmu`mem, mmu`role, mmu`tlb, mmu.pmm, mmu.pmm.bitmap
    ensures mmu.Valid() && (old(mmu.Exact()) ==> mmu.Exact())
    ensures Allowed(sp, ev) && Refines(mmu.mem, mmu.tree, mmu.cr3, Apply(sp, ev))
    ensures Shows(Store(v, off, b), old(SnapOf(mmu)), sp, ev)
    ensures Moves(Store(v, off, b), old(SnapOf(mmu)), ev, SnapOf(mmu))
  {
    hide Inv, Walk, View, TlbOk, TlbExact, StoredByte, SameViews, Represents, FreeAgree;
    ghost var mem0, w := mmu.mem, View(mmu.mem, mmu.cr3, v);
    StoreRights(mem0, mmu.cr3, v);
    CachedRights(mmu, v);
    var ok := mmu.UserStore(v, off, b);
    if ok {
      StoredParts(mem0, mmu.mem, mmu.tree, mmu.cr3, v, off, b);
      RefinesChange(mem0, mmu.tree, mmu.cr3, mmu.mem, mmu.tree, sp, mmu.cr3, v, w.value.(bytes := w.value.bytes[off := b]));
      return Stored(mmu.cr3, v, off, b);
    }
    RefinesSame(mem0, mmu.tree, mmu.cr3, mmu.mem, mmu.tree, sp);
    return Invisible;
  }

  /** Any operation: what it shows is what the specification allows of that operation in that state, and the
      relation is kept. */
  method Step(mmu: Mmu, op: Op, roots: set<nat>, ghost sp: Spec) returns (ev: Event, roots': set<nat>)
    requires mmu.Valid() && Tracks(roots, mmu.tree) && Refines(mmu.mem, mmu.tree, mmu.cr3, sp)
    modifies mmu`mem, mmu`tree, mmu`role, mmu`cr3, mmu`tlb, mmu.pmm, mmu.pmm.bitmap
    ensures mmu.Valid() && Tracks(roots', mmu.tree)
    ensures Allowed(sp, ev) && Refines(mmu.mem, mmu.tree, mmu.cr3, Apply(sp, ev))
    ensures Shows(op, old(SnapOf(mmu)), sp, ev) && Moves(op, old(SnapOf(mmu)), ev, SnapOf(mmu))
    ensures old(mmu.Exact()) && (op.Fork? ==> ev.Forked?) ==> mmu.Exact()
  {
    hide Inv, Walk, View, TlbOk, TlbExact, Represents, FreeAgree;
    ev, roots' := Invisible, roots;
    if !Possible(op, roots, mmu.cr3) { return; }
    match op
    case Create => ev, roots' := CreateStep(mmu, roots, sp);
    case Fork(p) => ev, roots' := ForkStep(mmu, p, roots, sp);
    case Destroy(r) => ev, roots' := DestroyStep(mmu, r, roots, sp);
    case Map(r, v, bytes, flags) => ev := MapStep(mmu, r, v, bytes, flags, sp);
    case Store(v, off, b) => ev := StoreStep(mmu, v, off, b, sp);
    case Load(v, off) =>
      ViewBytes(mmu.mem, mmu.tree, mmu.role, mmu.boot, mmu.cr3, v);
      var b := mmu.UserLoad(v, off);
      ev := Loaded(mmu.cr3, v, off, b);
    case Switch(r) =>
      mmu.SwitchTo(r);
      ev := Switched(r);
    case Cache(v) => mmu.CacheTranslation(v);
    case Drop(v) => mmu.DropTranslation(v);
  }

  lemma StoreRights(mem: seq<Page>, r: nat, v: VPage)
    ensures View(mem, r, v).Some? <==> Walk(mem, r, v).Some?
    ensures Walk(mem, r, v).Some? ==>
      && View(mem, r, v).value.user == Walk(mem, r, v).value.user
      && View(mem, r, v).value.writable == (Walk(mem, r, v).value.write || Walk(mem, r, v).value.cow)
  {
    hide Walk;
  }

  lemma CachedRights(mmu: Mmu, v: VPage)
    requires mmu.Valid() && N4(mmu.cr3) in mmu.tree && UserPage(v)
    ensures v in mmu.tlb && mmu.tlb[v].write ==>
      Walk(mmu.mem, mmu.cr3, v).Some? && (Walk(mmu.mem, mmu.cr3, v).value.write || Walk(mmu.mem, mmu.cr3, v).value.cow)
  {
    hide Inv, Walk;
    if v in mmu.tlb { CachedIsWalk(mmu.mem, mmu.tree, mmu.role, mmu.boot, mmu.cr3, v, mmu.tlb); }
  }

  lemma StoredParts(mem: seq<Page>, mem': seq<Page>, tree: map<Node, nat>, r: nat, v: VPage, off: nat, b: Byte)
    requires StoredByte(mem, mem', tree, r, v, off, b)
    ensures SameViewsBut(mem, mem', tree, r, v)
    ensures View(mem, r, v).Some? && off < |View(mem, r, v).value.bytes|
    ensures View(mem', r, v) == Some(View(mem, r, v).value.(bytes := View(mem, r, v).value.bytes[off := b]))
  {
    hide View;
  }

  lemma ViewBytes(mem: seq<Page>, tree: map<Node, nat>, role: seq<Role>, boot: nat, r: nat, v: VPage)
    requires Inv(mem, tree, role, boot, {}) && N4(r) in tree && UserPage(v)
    ensures View(mem, r, v).Some? ==> |View(mem, r, v).value.bytes| == PAGE_SIZE
  {
    hide Inv, Walk;
    if Walk(mem, r, v).Some? { WalkReachesData(mem, tree, role, boot, r, v); }
  }

  // ----- Whole runs

  /** Every interleaving of operations, from any valid state.  The trace has one event for each operation: the
      one the operation shows in the state it finds, given by the eager-copy specification after the trace so
      far and by the free frames and tables of `hist`, which the operations alone change.  The final views
      are the specification's final maps.  If no fork ran out of frames, every cached translation is what a
      walk finds. */
  method Run(mmu: Mmu, ops: seq<Op>, roots: set<nat>, ghost sp: Spec) returns (trace: seq<Event>, ghost hist: seq<Snap>)
    requires mmu.Valid() && Tracks(roots, mmu.tree) && Refines(mmu.mem, mmu.tree, mmu.cr3, sp)
    modifies mmu`mem, mmu`tree, mmu`role, mmu`cr3, mmu`tlb, mmu.pmm, mmu.pmm.bitmap
    ensures mmu.Valid() && |trace| == |ops| && |hist| == |ops| + 1
    ensures hist[0] == old(SnapOf(mmu)) && hist[|ops|] == SnapOf(mmu)
    ensures AllAllowed(sp, trace) && Refines(mmu.mem, mmu.tree, mmu.cr3, Replay(sp, trace))
    ensures forall i | 0 <= i < |ops| :: RunStep(sp, ops, trace, hist, i)
    ensures old(mmu.Exact()) && (forall i | 0 <= i < |ops| && ops[i].Fork? :: trace[i].Forked?) ==> mmu.Exact()
  {
    hide Refines, Allowed, Apply, Inv, TlbExact, TlbOk, Shows, Moves;
    trace, hist := [], [SnapOf(mmu)];
    var live := roots;
    for i := 0 to |ops|
      invariant mmu.Valid() && Tracks(live, mmu.tree) && |trace| == i && |hist| == i + 1
      invariant hist[0] == old(SnapOf(mmu)) && hist[i] == SnapOf(mmu)
      invariant AllAllowed(sp, trace) && Refines(mmu.mem, mmu.tree, mmu.cr3, Replay(sp, trace))
      invariant forall j | 0 <= j < i :: RunStep(sp, ops, trace, hist, j)
      invariant old(mmu.Exact()) && (forall j | 0 <= j < i && ops[j].Fork? :: trace[j].Forked?) ==> mmu.Exact()
    {
      var ev;
      ev, live := Step(mmu, ops[i], live, Replay(sp, trace));
      ReplaySnoc(sp, trace, ev);
      RunStepsKept(sp, ops, trace, hist, ev, SnapOf(mmu), i);
      trace, hist := trace + [ev], hist + [SnapOf(mmu)];
    }
  }

  /** Event i is the one operation i shows after the events before it, and moves the tables and free frames. */
  ghost predicate RunStep(sp: Spec, ops: seq<Op>, trace: seq<Event>, hist: seq<Snap>, i: nat)
  {
    && i < |ops| && i < |trace| && i + 1 < |hist|
    && AllAllowed(sp, trace[..i])
    && Shows(ops[i], hist[i], Replay(sp, trace[..i]), trace[i]) && Moves(ops[i], hist[i], trace[i], hist[i + 1])
  }

  lemma RunStepsKept(sp: Spec, ops: seq<Op>, trace: seq<Event>, hist: seq<Snap>, ev: Event, s: Snap, i: nat)
    requires i < |ops| && |trace| == i && |hist| == i + 1 && AllAllowed(sp, trace)
    requires forall j | 0 <= j < i :: RunStep(sp, ops, trace, hist, j)
    requires Shows(ops[i], hist[i], Replay(sp, trace), ev) && Moves(ops[i], hist[i], ev, s)
    ensures forall j | 0 <= j < i + 1 :: RunStep(sp, ops, trace + [ev], hist + [s], j)
  {
    hide Shows, Moves;
    forall j | 0 <= j < i + 1
      ensures RunStep(sp, ops, trace + [ev], hist + [s], j)
    {
      if j < i {
        assert RunStep(sp, ops, trace, hist, j);
        assert (trace + [ev])[..j] == trace[..j];
      } else {
        assert (trace + [ev])[..i] == trace;
      }
    }
  }
}
