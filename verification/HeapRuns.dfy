/** Whole runs of the slab heap: which frames it holds, and that it gives all of them back. */
module HeapRuns {
  import opened Bits
  import opened Pmm
  import opened Seqs
  import opened SlabGeometry
  import opened Slabs
  import opened HeapLists
  import opened Heap

  ghost function PagesOf(live: set<nat>): set<nat>
  {
    set a | a in live :: a / SLAB_SIZE
  }

  /** Between calls the caches hold exactly the pages with at least one live object. */
  lemma OnePagePerUse(slabs: map<nat, Slab>, fls: map<nat, seq<nat>>, words: map<nat, nat>, live: set<nat>)
    requires SlabsOk(slabs, fls, words, live) && LiveOk(slabs, live) && Busy(slabs)
    ensures slabs.Keys == PagesOf(live)
  {
    hide Slots, IsClass;
    forall f | f in slabs
      ensures f in PagesOf(live)
    {
      FreeCountMeans(f, slabs[f], fls[f], words, live);
      var a :| a in Slots(f, slabs[f].objSize) && a in live;
      InPage(f, slabs[f].objSize, a);
    }
    forall f | f in PagesOf(live)
      ensures f in slabs
    {
      var a :| a in live && a / SLAB_SIZE == f;
      assert IsObject(slabs, a);
    }
  }

  /** The set of free frames determines the bitmap. */
  lemma SameBitmap(words: seq<nat>, words': seq<nat>, free: set<nat>)
    requires Represents(words, free) && Represents(words', free)
    ensures words == words'
  {
    forall w | 0 <= w < BITMAP_WORDS
      ensures words[w] == words'[w]
    {
      WordSize();
      forall b: nat | b < WORD_BITS
        ensures Bit(words[w], b) == Bit(words'[w], b)
      {
        var f := w * WORD_BITS + b;
        assert f / WORD_BITS == w && f % WORD_BITS == b && f < MAX_FRAMES;
      }
      Extensionality(words[w], words'[w], WORD_BITS);
    }
  }

  /** What the kernel asks of the heap; i counts the blocks it holds. */
  datatype Op =
    | Malloc(size: nat)
    | Free(i: nat)
    | Write(i: nat, offset: nat, value: nat)

  datatype Block = Block(at: nat, size: nat)

  /** What comes of a request. */
  datatype Event =
    | Got(block: Block)
    | Null
    | Gave(at: nat)
    | Wrote(at: nat, offset: nat, value: nat)
    | Skipped

  predicate Served(op: Op)
  {
    op.Malloc? ==> op.size <= 2048
  }

  // ----- The specification: blocks held and values stored

  predicate Apart(b: Block, c: Block)
  {
    b.at + b.size <= c.at || c.at + c.size <= b.at
  }

  ghost function Ats(held: seq<Block>): set<nat>
  {
    set b | b in held :: b.at
  }

  /** A block for a request: of the least class that holds it, aligned, in a page of the pool, and apart from
      every block held. */
  ghost predicate Fresh(b: Block, size: nat, held: seq<Block>, pool: set<nat>)
  {
    && b.at > 0 && b.size > 0 && b.at % b.size == 0 && b.at / SLAB_SIZE in pool
    && (exists c :: Serves(c, size) && b.size == SizeOf(c))
    && forall c | c in held :: Apart(b, c)
  }

  predicate Inside(b: Block, offset: nat)
  {
    offset % 8 == 0 && offset + 8 <= b.size
  }

  /** The blocks held in one page. */
  ghost function OnPage(held: seq<Block>, f: nat): set<nat>
  {
    set a | a in Ats(held) && a / SLAB_SIZE == f
  }

  /** There is no room for a request: every frame of the pool holds a block, and each page with a block of the
      request's class holds as many as a page can. */
  ghost predicate NoRoom(size: nat, held: seq<Block>, pool: set<nat>)
  {
    && PagesOf(Ats(held)) == pool
    && forall c: nat, b | Serves(c, size) && b in held && b.size == SizeOf(c) ::
         |OnPage(held, b.at / SLAB_SIZE)| == Capacity(c)
  }

  /** The event of a request, given the blocks held. */
  ghost predicate Expected(op: Op, held: seq<Block>, pool: set<nat>, ev: Event)
  {
    match op
    case Malloc(size) =>
      if size == 0 || NoRoom(size, held, pool) then ev == Null else ev.Got? && Fresh(ev.block, size, held, pool)
    case Free(i) => ev == if i < |held| then Gave(held[i].at) else Skipped
    case Write(i, offset, value) =>
      ev == if i < |held| && Inside(held[i], offset) then Wrote(held[i].at, offset, value) else Skipped
  }

  function HeldAfter(held: seq<Block>, op: Op, ev: Event): seq<Block>
  {
    if ev.Got? then [ev.block] + held
    else if ev.Gave? && op.Free? && op.i < |held| then held[..op.i] + held[op.i + 1..]
    else held
  }

  ghost function StoredAfter(stored: map<(nat, nat), nat>, ev: Event): map<(nat, nat), nat>
  {
    if ev.Wrote? then stored[(ev.at, ev.offset) := ev.value]
    else if ev.Gave? then Forget(stored, ev.at)
    else stored
  }

  /** The blocks held and the values stored before event n, by replay of the events. */
  ghost function HeldAt(ops: seq<Op>, trace: seq<Event>, n: nat): seq<Block>
    requires n <= |ops| && n <= |trace|
  {
    if n == 0 then [] else HeldAfter(HeldAt(ops, trace, n - 1), ops[n - 1], trace[n - 1])
  }

  ghost function StoredAt(trace: seq<Event>, n: nat): map<(nat, nat), nat>
    requires n <= |trace|
  {
    if n == 0 then map[] else StoredAfter(StoredAt(trace, n - 1), trace[n - 1])
  }

  /** A value stays until it is written over or its block is given back. */
  lemma {:induction false} LastWriteStays(trace: seq<Event>, i: nat, n: nat)
    requires i < n <= |trace| && trace[i].Wrote?
    requires forall j | i < j < n ::
      && trace[j] != Gave(trace[i].at)
      && (trace[j].Wrote? ==> trace[j].at != trace[i].at || trace[j].offset != trace[i].offset)
    ensures var k := (trace[i].at, trace[i].offset); k in StoredAt(trace, n) && StoredAt(trace, n)[k] == trace[i].value
    decreases n
  {
    if i < n - 1 {
      LastWriteStays(trace, i, n - 1);
      assert trace[n - 1] != Gave(trace[i].at);
    }
  }

  /** A block is held from the request that got it until it is given back. */
  lemma {:induction false} HeldUntilGiven(ops: seq<Op>, trace: seq<Event>, pool: set<nat>, i: nat, n: nat)
    requires i < n <= |ops| == |trace| && trace[i].Got?
    requires forall j | 0 <= j < n :: Expected(ops[j], HeldAt(ops, trace, j), pool, trace[j])
    requires forall j | i < j < n :: trace[j] != Gave(trace[i].block.at)
    ensures trace[i].block in HeldAt(ops, trace, n)
    decreases n
  {
    hide Expected, HeldAfter;
    var held := HeldAt(ops, trace, n - 1);
    if i < n - 1 {
      HeldUntilGiven(ops, trace, pool, i, n - 1);
      GaveThat(held, ops[n - 1], trace[n - 1], pool);
      StillHeld(held, ops[n - 1], trace[n - 1], trace[i].block);
    } else {
      NowHeld(held, ops[i], trace[i]);
    }
  }

  lemma GaveThat(held: seq<Block>, op: Op, ev: Event, pool: set<nat>)
    requires Expected(op, held, pool, ev)
    ensures ev.Gave? ==> op.Free? && op.i < |held| && ev.at == held[op.i].at
  {
    hide Fresh, NoRoom;
  }

  lemma NowHeld(held: seq<Block>, op: Op, ev: Event)
    requires ev.Got?
    ensures ev.block in HeldAfter(held, op, ev)
  {
    assert ([ev.block] + held)[0] == ev.block;
  }

  lemma StillHeld(held: seq<Block>, op: Op, ev: Event, b: Block)
    requires b in held && ev != Gave(b.at) && (ev.Gave? && op.Free? && op.i < |held| ==> ev.at == held[op.i].at)
    ensures b in HeldAfter(held, op, ev)
  {
    var k :| 0 <= k < |held| && held[k] == b;
    if ev.Got? {
      assert ([ev.block] + held)[k + 1] == b;
    } else if ev.Gave? && op.Free? && op.i < |held| {
      assert (held[..op.i] + held[op.i + 1..])[if k < op.i then k else k - 1] == b;
    }
  }

  lemma {:induction false} ReplayPrefix(ops: seq<Op>, trace: seq<Event>, ev: Event, n: nat)
    requires n <= |ops| && n <= |trace|
    ensures HeldAt(ops, trace + [ev], n) == HeldAt(ops, trace, n) && StoredAt(trace + [ev], n) == StoredAt(trace, n)
  {
    if n > 0 { ReplayPrefix(ops, trace, ev, n - 1); }
  }

  // ----- The heap against it

  /** The blocks held are the live objects, once each, with their sizes. */
  ghost predicate Holds(held: seq<Block>, slabs: map<nat, Slab>, live: set<nat>)
  {
    && (forall i, j | 0 <= i < j < |held| :: held[i].at != held[j].at)
    && (forall b | b in held ::
          b.at in live && b.at / SLAB_SIZE in slabs && slabs[b.at / SLAB_SIZE].objSize == b.size)
    && (forall a | a in live :: a in Ats(held))
  }

  lemma HoldsIs(held: seq<Block>, slabs: map<nat, Slab>, live: set<nat>)
    requires Holds(held, slabs, live)
    ensures Ats(held) == live
  {
  }

  /** What the owners last stored, by object and offset, is what memory holds. */
  ghost predicate Remembers(stored: map<(nat, nat), nat>, slabs: map<nat, Slab>, words: map<nat, nat>, live: set<nat>)
  {
    forall k | k in stored ::
      && k.0 in live && k.0 / SLAB_SIZE in slabs && k.1 < slabs[k.0 / SLAB_SIZE].objSize
      && k.0 + k.1 in words && words[k.0 + k.1] == stored[k]
  }

  ghost function Forget(stored: map<(nat, nat), nat>, a: nat): map<(nat, nat), nat>
  {
    map k | k in stored && k.0 != a :: stored[k]
  }

  lemma UntouchedRemembered(stored: map<(nat, nat), nat>, slabs: map<nat, Slab>, words: map<nat, nat>, live: set<nat>,
                            slabs': map<nat, Slab>, words': map<nat, nat>, live': set<nat>)
    requires Remembers(stored, slabs, words, live) && Untouched(live * live', slabs, words, slabs', words')
    requires forall k | k in stored :: k.0 in live'
    ensures Remembers(stored, slabs', words', live')
  {
    forall k | k in stored
      ensures k.0 / SLAB_SIZE in slabs' && k.1 < slabs'[k.0 / SLAB_SIZE].objSize
      ensures k.0 + k.1 in words' && words'[k.0 + k.1] == stored[k]
    {
      assert k.0 in live * live';
      assert SameContents(k.0, slabs[k.0 / SLAB_SIZE].objSize, words, words');
      assert SameWord(words, words', k.0 + k.1);
    }
  }

  lemma StoreRemembered(stored: map<(nat, nat), nat>, slabs: map<nat, Slab>, words: map<nat, nat>, live: set<nat>,
                        a: nat, offset: nat, value: nat)
    requires Remembers(stored, slabs, words, live) && LiveOk(slabs, live) && a in live
    requires a / SLAB_SIZE in slabs && offset < slabs[a / SLAB_SIZE].objSize
    ensures Remembers(stored[(a, offset) := value], slabs, words[a + offset := value], live)
  {
    forall k | k in stored && k != (a, offset)
      ensures k.0 + k.1 != a + offset
    {
      if k.0 != a { LiveApart(slabs, live, a, k.0); }
    }
  }

  lemma HoldsMore(held: seq<Block>, slabs: map<nat, Slab>, live: set<nat>, slabs': map<nat, Slab>, words: map<nat, nat>,
                  words': map<nat, nat>, b: Block)
    requires Holds(held, slabs, live) && Untouched(live, slabs, words, slabs', words') && b.at !in live
    requires b.at / SLAB_SIZE in slabs' && slabs'[b.at / SLAB_SIZE].objSize == b.size
    ensures Holds([b] + held, slabs', live + {b.at})
  {
    var held' := [b] + held;
    forall i, j | 0 <= i < j < |held'|
      ensures held'[i].at != held'[j].at
    {
      assert held'[j] == held[j - 1] && held[j - 1] in held;
      assert i > 0 ==> held'[i] == held[i - 1];
    }
    forall a | a in live + {b.at}
      ensures a in Ats(held')
    {
      if a != b.at {
        assert a in Ats(held);
        var c :| c in held && c.at == a;
        assert c in held';
      } else {
        assert b in held';
      }
    }
  }

  lemma HoldsSame(held: seq<Block>, slabs: map<nat, Slab>, live: set<nat>, slabs': map<nat, Slab>, words: map<nat, nat>,
                  words': map<nat, nat>)
    requires Holds(held, slabs, live) && Untouched(live, slabs, words, slabs', words')
    ensures Holds(held, slabs', live)
  {
  }

  lemma HoldsLess(held: seq<Block>, slabs: map<nat, Slab>, live: set<nat>, slabs': map<nat, Slab>, words: map<nat, nat>,
                  words': map<nat, nat>, i: nat)
    requires Holds(held, slabs, live) && i < |held| && Untouched(live - {held[i].at}, slabs, words, slabs', words')
    ensures Holds(held[..i] + held[i + 1..], slabs', live - {held[i].at})
  {
    var held' := held[..i] + held[i + 1..];
    forall k | 0 <= k < |held'|
      ensures held'[k] == held[if k < i then k else k + 1] && held'[k] in held && held'[k].at != held[i].at
    {
    }
    forall a | a in live - {held[i].at}
      ensures a in Ats(held')
    {
      assert a in Ats(held);
      var c :| c in held && c.at == a;
      var k :| 0 <= k < |held| && held[k] == c;
      assert held'[if k < i then k else k - 1] == c;
    }
  }

  /** A new object is a fresh block. */
  lemma FreshBlock(held: seq<Block>, slabs: map<nat, Slab>, live: set<nat>, a: nat, size: nat, pool: set<nat>)
    requires LiveOk(slabs, live) && a in live && a > 0 && IsObject(slabs, a) && slabs.Keys <= pool
    requires forall b | b in held ::
      b.at in live && b.at != a && b.at / SLAB_SIZE in slabs && slabs[b.at / SLAB_SIZE].objSize == b.size
    requires exists c :: Serves(c, size) && slabs[a / SLAB_SIZE].objSize == SizeOf(c)
    ensures Fresh(Block(a, slabs[a / SLAB_SIZE].objSize), size, held, pool)
  {
    hide Slots, IsClass, Serves, SizeOf;
    InPage(a / SLAB_SIZE, slabs[a / SLAB_SIZE].objSize, a);
    forall b | b in held
      ensures Apart(Block(a, slabs[a / SLAB_SIZE].objSize), b)
    {
      LiveApart(slabs, live, a, b.at);
    }
  }

  /** A slab is full exactly when its page holds as many live objects as a page can. */
  lemma FullPage(slabs: map<nat, Slab>, fls: map<nat, seq<nat>>, words: map<nat, nat>, live: set<nat>, f: nat, c: nat)
    requires SlabsOk(slabs, fls, words, live) && LiveOk(slabs, live) && f in slabs && c <= 8 && slabs[f].objSize == SizeOf(c)
    ensures slabs[f].freeCount == 0 <==> |set a | a in live && a / SLAB_SIZE == f| == Capacity(c)
  {
    hide IsClass, Capacity, SizeOf, Total;
    var here := set a | a in live && a / SLAB_SIZE == f;
    var slots := Slots(f, SizeOf(c));
    FullMeans(f, slabs[f], fls[f], words, live);
    SlotCount(f, SizeOf(c), Total(SizeOf(c)));
    TotalIs(c);
    hide SlabOk, Slots;
    forall a | a in slots
      ensures a / SLAB_SIZE == f
    {
      SlotInPage(f, c, a);
    }
    assert here <= slots;
    assert here == slots <==> slots <= live;
    SameSize(here, slots);
  }

  lemma SameSize(s: set<nat>, t: set<nat>)
    requires s <= t
    ensures s == t <==> |s| == |t|
  {
    if s != t {
      var x :| x in t && x !in s;
      SubsetSize(s, t - {x});
    }
  }

  /** Free frames and slabs that are not full are room, and the only room. */
  lemma RoomMeans(held: seq<Block>, slabs: map<nat, Slab>, fls: map<nat, seq<nat>>, words: map<nat, nat>, live: set<nat>,
                  free: set<nat>, size: nat)
    requires SlabsOk(slabs, fls, words, live) && LiveOk(slabs, live) && Holds(held, slabs, live)
    requires slabs.Keys == PagesOf(live) && slabs.Keys !! free
    ensures NoRoom(size, held, slabs.Keys + free) <==> free == {} && ClassFull(slabs, size)
  {
    hide SlabsOk, LiveOk, Capacity, SizeOf;
    HoldsIs(held, slabs, live);
    forall f, c: nat | f in slabs && Serves(c, size) && slabs[f].objSize == SizeOf(c)
      ensures slabs[f].freeCount == 0 <==> |OnPage(held, f)| == Capacity(c)
      ensures exists b :: b in held && b.at / SLAB_SIZE == f && b.size == SizeOf(c)
    {
      FullPage(slabs, fls, words, live, f, c);
      var a :| a in live && a / SLAB_SIZE == f;
      assert a in Ats(held);
      var b :| b in held && b.at == a;
    }
    assert slabs.Keys + free == slabs.Keys <==> free == {};
  }

  method MallocStep(heap: KernelHeap, size: nat, ghost held: seq<Block>, ghost stored: map<(nat, nat), nat>)
    returns (ev: Event)
    requires heap.Valid() && size <= 2048 && Holds(held, heap.slabs, heap.live)
    requires Remembers(stored, heap.slabs, heap.words, heap.live)
    modifies heap, heap.pmm, heap.pmm.bitmap
    ensures heap.Valid() && heap.Frames() == old(heap.Frames())
    ensures Expected(Malloc(size), held, old(heap.Frames()), ev) && (ev.Got? || ev == Null)
    ensures Holds(HeldAfter(held, Malloc(size), ev), heap.slabs, heap.live)
    ensures Remembers(stored, heap.slabs, heap.words, heap.live)
  {
    hide SlabsOk, LiveOk, ListsOk, Represents, Busy, IsObject, Untouched, Remembers, Holds, Fresh, Serves, SizeOf, NoRoom,
         ClassFull;
    ghost var slabs, words, live := heap.slabs, heap.words, heap.live;
    HoldsIs(held, slabs, live);
    OnePagePerUse(slabs, heap.fls, words, live);
    RoomMeans(held, slabs, heap.fls, words, live, heap.pmm.free, size);
    var a := heap.Kmalloc(size);
    assert live * heap.live == live;
    StillLive(stored, slabs, words, live, heap.live);
    UntouchedRemembered(stored, slabs, words, live, heap.slabs, heap.words, heap.live);
    if a == 0 {
      HoldsSame(held, slabs, live, heap.slabs, words, heap.words);
      return Null;
    }
    ObjectPage(heap.slabs, a);
    var b := Block(a, heap.slabs[a / SLAB_SIZE].objSize);
    HoldsMore(held, slabs, live, heap.slabs, words, heap.words, b);
    BlocksOf(held, slabs, live, heap.slabs, words, heap.words, a);
    FreshBlock(held, heap.slabs, heap.live, a, size, old(heap.Frames()));
    return Got(b);
  }

  lemma ObjectPage(slabs: map<nat, Slab>, a: nat)
    requires IsObject(slabs, a)
    ensures a / SLAB_SIZE in slabs
  {
  }

  lemma BlocksOf(held: seq<Block>, slabs: map<nat, Slab>, live: set<nat>, slabs': map<nat, Slab>, words: map<nat, nat>,
                 words': map<nat, nat>, a: nat)
    requires Holds(held, slabs, live) && Untouched(live, slabs, words, slabs', words') && a !in live
    ensures forall b | b in held ::
      b.at in live && b.at != a && b.at / SLAB_SIZE in slabs' && slabs'[b.at / SLAB_SIZE].objSize == b.size
  {
  }

  method FreeStep(heap: KernelHeap, i: nat, held: seq<Block>, ghost stored: map<(nat, nat), nat>)
    requires heap.Valid() && i < |held| && Holds(held, heap.slabs, heap.live)
    requires Remembers(stored, heap.slabs, heap.words, heap.live)
    modifies heap, heap.pmm, heap.pmm.bitmap
    ensures heap.Valid() && heap.Frames() == old(heap.Frames())
    ensures Holds(held[..i] + held[i + 1..], heap.slabs, heap.live)
    ensures Remembers(Forget(stored, held[i].at), heap.slabs, heap.words, heap.live)
  {
    hide SlabsOk, LiveOk, ListsOk, Represents, Busy, Untouched, Remembers;
    ghost var slabs, words, live := heap.slabs, heap.words, heap.live;
    assert held[i] in held;
    hide Holds;
    heap.Kfree(held[i].at);
    HoldsLess(held, slabs, live, heap.slabs, words, heap.words, i);
    assert live * heap.live == heap.live;
    ForgetFreed(stored, slabs, words, live, held[i].at);
    UntouchedRemembered(Forget(stored, held[i].at), slabs, words, live, heap.slabs, heap.words, heap.live);
  }

  /** One request: the event is the one the specification expects, and the heap holds and remembers what the
      specification says after it. */
  method Step(heap: KernelHeap, op: Op, held: seq<Block>, ghost stored: map<(nat, nat), nat>) returns (ev: Event)
    requires heap.Valid() && Served(op) && Holds(held, heap.slabs, heap.live)
    requires Remembers(stored, heap.slabs, heap.words, heap.live)
    modifies heap, heap.pmm, heap.pmm.bitmap
    ensures heap.Valid() && heap.Frames() == old(heap.Frames())
    ensures Expected(op, held, old(heap.Frames()), ev)
    ensures Holds(HeldAfter(held, op, ev), heap.slabs, heap.live)
    ensures Remembers(StoredAfter(stored, ev), heap.slabs, heap.words, heap.live)
  {
    hide SlabsOk, LiveOk, ListsOk, Represents, Busy, Untouched, Remembers, Fresh, PagesOf, Ats;
    ev := Skipped;
    match op {
      case Malloc(size) =>
        ev := MallocStep(heap, size, held, stored);
      case Free(i) =>
        if i < |held| {
          FreeStep(heap, i, held, stored);
          ev := Gave(held[i].at);
        }
      case Write(i, offset, value) =>
        if i < |held| && Inside(held[i], offset) {
          assert held[i] in held;
          ObjectOf(heap.slabs, heap.live, held[i].at);
          StoreRemembered(stored, heap.slabs, heap.words, heap.live, held[i].at, offset, value);
          heap.Store(held[i].at, offset, value);
          ev := Wrote(held[i].at, offset, value);
        }
    }
  }

  lemma ObjectOf(slabs: map<nat, Slab>, live: set<nat>, a: nat)
    requires LiveOk(slabs, live) && a in live
    ensures IsObject(slabs, a)
  {
  }

  lemma StillLive(stored: map<(nat, nat), nat>, slabs: map<nat, Slab>, words: map<nat, nat>, live: set<nat>,
                  live': set<nat>)
    requires Remembers(stored, slabs, words, live) && live <= live'
    ensures forall k | k in stored :: k.0 in live'
  {
  }

  lemma ForgetFreed(stored: map<(nat, nat), nat>, slabs: map<nat, Slab>, words: map<nat, nat>, live: set<nat>, a: nat)
    requires Remembers(stored, slabs, words, live)
    ensures Remembers(Forget(stored, a), slabs, words, live)
    ensures forall k | k in Forget(stored, a) :: k.0 in live - {a}
  {
  }

  /** Every run of slab-sized requests, with the owners writing into their blocks in between.  The trace has the
      event each request must have after those before it; at the end the heap holds exactly the blocks got and
      not given back, and memory holds what was last stored in them; once everything has been freed, the frame
      bitmap is what it was. */
  method Run(heap: KernelHeap, ops: seq<Op>) returns (trace: seq<Event>)
    requires heap.Valid() && heap.live == {} && forall op | op in ops :: Served(op)
    modifies heap, heap.pmm, heap.pmm.bitmap
    ensures heap.Valid() && heap.Frames() == old(heap.Frames()) && heap.slabs.Keys == PagesOf(heap.live)
    ensures |trace| == |ops|
    ensures forall i | 0 <= i < |ops| :: Expected(ops[i], HeldAt(ops, trace, i), old(heap.Frames()), trace[i])
    ensures Holds(HeldAt(ops, trace, |ops|), heap.slabs, heap.live)
    ensures Remembers(StoredAt(trace, |ops|), heap.slabs, heap.words, heap.live)
    ensures HeldAt(ops, trace, |ops|) == [] ==>
      heap.pmm.free == old(heap.pmm.free) && heap.pmm.bitmap[..] == old(heap.pmm.bitmap[..])
  {
    hide SlabsOk, LiveOk, ListsOk, Represents, Busy, Expected, HeldAfter, StoredAfter;
    ghost var words, free, pool := heap.pmm.bitmap[..], heap.pmm.free, heap.Frames();
    OnePagePerUse(heap.slabs, heap.fls, heap.words, heap.live);
    trace := [];
    var held: seq<Block> := [];
    for i := 0 to |ops|
      invariant heap.Valid() && heap.Frames() == pool && |trace| == i && held == HeldAt(ops, trace, i)
      invariant Holds(held, heap.slabs, heap.live) && Remembers(StoredAt(trace, i), heap.slabs, heap.words, heap.live)
      invariant forall j | 0 <= j < i :: Expected(ops[j], HeldAt(ops, trace, j), pool, trace[j])
    {
      assert Served(ops[i]);
      var ev := Step(heap, ops[i], held, StoredAt(trace, i));
      forall j | 0 <= j <= i
        ensures HeldAt(ops, trace + [ev], j) == HeldAt(ops, trace, j) && StoredAt(trace + [ev], j) == StoredAt(trace, j)
      {
        ReplayPrefix(ops, trace, ev, j);
      }
      held := HeldAfter(held, ops[i], ev);
      trace := trace + [ev];
    }
    OnePagePerUse(heap.slabs, heap.fls, heap.words, heap.live);
    HoldsIs(held, heap.slabs, heap.live);
    if held == [] {
      assert heap.live == {};
      SameBitmap(words, heap.pmm.bitmap[..], free);
    }
  }
}
