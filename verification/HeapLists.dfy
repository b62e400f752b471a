/** The slab heap's invariant over all pages and caches, and how each step of cache_alloc and cache_free
    (src/heap/heap.c) keeps it. */
module HeapLists {
  import opened Seqs
  import opened SlabGeometry
  import opened Slabs

  ghost predicate SlabsOk(slabs: map<nat, Slab>, fls: map<nat, seq<nat>>, words: map<nat, nat>, live: set<nat>)
  {
    fls.Keys == slabs.Keys && forall f | f in slabs :: SlabOk(f, slabs[f], fls[f], words, live)
  }

  /** Every live object is an object of some slab. */
  ghost predicate LiveOk(slabs: map<nat, Slab>, live: set<nat>)
  {
    forall a | a in live :: IsObject(slabs, a)
  }

  ghost predicate IsObject(slabs: map<nat, Slab>, a: nat)
  {
    var f := a / SLAB_SIZE;
    f in slabs && slabs[f].objSize > 0 && IsClass(slabs[f].objSize) && a in Slots(f, slabs[f].objSize)
  }

  /** Between calls every slab holds a live object. */
  ghost predicate Busy(slabs: map<nat, Slab>)
  {
    forall f | f in slabs :: slabs[f].freeCount < slabs[f].total
  }

  ghost predicate Belongs(slabs: map<nat, Slab>, f: nat, size: nat, full: bool)
  {
    f in slabs && slabs[f].objSize == size && (slabs[f].freeCount == 0 <==> full)
  }

  /** A list holds exactly the slabs of its size that are full, or that are not. */
  ghost predicate ListOk(slabs: map<nat, Slab>, head: nat, list: seq<nat>, size: nat, full: bool)
  {
    IsList(slabs, head, list) && forall f :: f in list <==> Belongs(slabs, f, size, full)
  }

  ghost predicate ListsOk(slabs: map<nat, Slab>, heads: seq<nat>, lists: seq<seq<nat>>, full: bool)
  {
    && |heads| == |lists| == NUM_CACHES
    && forall c | 0 <= c < NUM_CACHES :: ListOk(slabs, heads[c], lists[c], SizeOf(c), full)
  }

  ghost predicate SameSizes(slabs: map<nat, Slab>, slabs': map<nat, Slab>)
  {
    forall f | f in slabs && f in slabs' :: slabs'[f].objSize == slabs[f].objSize
  }

  /** These objects keep their sizes and every word of their contents. */
  ghost predicate Untouched(objects: set<nat>, slabs: map<nat, Slab>, words: map<nat, nat>,
                            slabs': map<nat, Slab>, words': map<nat, nat>)
  {
    forall b | b in objects ::
      && b / SLAB_SIZE in slabs && b / SLAB_SIZE in slabs'
      && slabs'[b / SLAB_SIZE].objSize == slabs[b / SLAB_SIZE].objSize
      && SameContents(b, slabs[b / SLAB_SIZE].objSize, words, words')
  }

  ghost predicate SameContents(b: nat, size: nat, words: map<nat, nat>, words': map<nat, nat>)
  {
    forall x: nat | b <= x < b + size :: SameWord(words, words', x)
  }

  // ----- Steps on pages

  /** One page changes; the others keep their slabs. */
  lemma OnePageChanges(slabs: map<nat, Slab>, fls: map<nat, seq<nat>>, words: map<nat, nat>, live: set<nat>,
                       f: nat, s: Slab, fl: seq<nat>, words': map<nat, nat>, live': set<nat>)
    requires SlabsOk(slabs, fls, words, live) && SlabOk(f, s, fl, words', live')
    requires forall g | g in slabs && g != f :: SamePage(g, words, live, words', live')
    ensures SlabsOk(slabs[f := s], fls[f := fl], words', live')
  {
    hide SlabOk, SamePage;
    forall g | g in slabs && g != f
      ensures SlabOk(g, slabs[g], fls[g], words', live')
    {
      OtherPages(g, slabs[g], fls[g], words, live, words', live');
    }
  }

  lemma TakeKeeps(slabs: map<nat, Slab>, fls: map<nat, seq<nat>>, words: map<nat, nat>, live: set<nat>, f: nat)
    requires SlabsOk(slabs, fls, words, live) && LiveOk(slabs, live) && f in slabs && slabs[f].freeCount > 0
    ensures |fls[f]| > 0 && slabs[f].freelist == fls[f][0] && fls[f][0] in words && fls[f][0] !in live
    ensures var a := fls[f][0];
            var slabs' := slabs[f := slabs[f].(freelist := words[a], freeCount := slabs[f].freeCount - 1)];
      && SlabsOk(slabs', fls[f := fls[f][1..]], words, live + {a}) && LiveOk(slabs', live + {a})
      && a / SLAB_SIZE == f && IsObject(slabs', a)
  {
    hide Slots, IsClass;
    assert SlabOk(f, slabs[f], fls[f], words, live);
    TakeKeepsSlab(f, slabs[f], fls[f], words, live);
    hide SlabOk;
    var a := fls[f][0];
    InPage(f, slabs[f].objSize, a);
    var s' := slabs[f].(freelist := words[a], freeCount := slabs[f].freeCount - 1);
    OnePageChanges(slabs, fls, words, live, f, s', fls[f][1..], words, live + {a});
  }

  lemma GiveKeeps(slabs: map<nat, Slab>, fls: map<nat, seq<nat>>, words: map<nat, nat>, live: set<nat>, a: nat)
    requires SlabsOk(slabs, fls, words, live) && LiveOk(slabs, live) && a in live
    ensures a / SLAB_SIZE in slabs
    ensures var f := a / SLAB_SIZE;
            var slabs' := slabs[f := slabs[f].(freelist := a, freeCount := slabs[f].freeCount + 1)];
            var words' := words[a := slabs[f].freelist];
      && SlabsOk(slabs', fls[f := [a] + fls[f]], words', live - {a}) && LiveOk(slabs', live - {a})
  {
    hide Slots, IsClass;
    var f := a / SLAB_SIZE;
    assert IsObject(slabs, a);
    GiveKeepsSlab(f, slabs[f], fls[f], words, live, a);
    hide SlabOk;
    var s' := slabs[f].(freelist := a, freeCount := slabs[f].freeCount + 1);
    OnePageChanges(slabs, fls, words, live, f, s', [a] + fls[f], words[a := slabs[f].freelist], live - {a});
  }

  /** Only next fields changed. */
  ghost predicate Relinked(slabs: map<nat, Slab>, slabs': map<nat, Slab>)
  {
    slabs.Keys == slabs'.Keys && forall f | f in slabs :: slabs'[f] == slabs[f].(next := slabs'[f].next)
  }

  lemma RelinkKeeps(slabs: map<nat, Slab>, fls: map<nat, seq<nat>>, words: map<nat, nat>, live: set<nat>,
                    slabs': map<nat, Slab>)
    requires SlabsOk(slabs, fls, words, live) && LiveOk(slabs, live) && Relinked(slabs, slabs')
    ensures SlabsOk(slabs', fls, words, live) && LiveOk(slabs', live)
  {
    hide Slots, IsClass, FreeChain, Distinct, Total;
    forall a | a in live
      ensures IsObject(slabs', a)
    {
      assert IsObject(slabs, a);
    }
  }

  /** A slab without live objects may go. */
  lemma DropKeeps(slabs: map<nat, Slab>, fls: map<nat, seq<nat>>, words: map<nat, nat>, live: set<nat>, f: nat)
    requires SlabsOk(slabs, fls, words, live) && LiveOk(slabs, live) && f in slabs
    requires slabs[f].freeCount == slabs[f].total
    ensures SlabsOk(slabs - {f}, fls - {f}, words, live) && LiveOk(slabs - {f}, live)
  {
    hide Slots, IsClass;
    FreeCountMeans(f, slabs[f], fls[f], words, live);
    hide SlabOk;
    forall a | a in live
      ensures IsObject(slabs - {f}, a)
    {
      assert IsObject(slabs, a);
    }
  }

  /** No slab has more free objects than objects. */
  lemma CountBound(slabs: map<nat, Slab>, fls: map<nat, seq<nat>>, words: map<nat, nat>, live: set<nat>, f: nat)
    requires SlabsOk(slabs, fls, words, live) && f in slabs
    ensures slabs[f].freeCount <= slabs[f].total
  {
    FreeCountMeans(f, slabs[f], fls[f], words, live);
  }

  /** The freelist slab_create builds: every object, in address order. */
  ghost function AllSlots(f: nat, size: nat): seq<nat>
    requires size > 0
  {
    seq(Total(size), i requires 0 <= i => SlotAt(f, size, i))
  }

  /** What slab_create writes into object i. */
  function LinkAfter(f: nat, size: nat, i: nat): nat
    requires size > 0
  {
    if i + 1 < Total(size) then SlotAt(f, size, i + 1) else 0
  }

  ghost predicate Chained(words: map<nat, nat>, f: nat, size: nat, n: nat)
    requires size > 0
  {
    forall i | 0 <= i < n ::
      SlotAt(f, size, i) in words && words[SlotAt(f, size, i)] == LinkAfter(f, size, i)
  }

  /** An unused page holds no live object, and may become a slab. */
  lemma PageUnused(slabs: map<nat, Slab>, live: set<nat>, f: nat, s: Slab)
    requires LiveOk(slabs, live) && f !in slabs
    ensures forall a | a in live :: a / SLAB_SIZE != f
    ensures LiveOk(slabs[f := s], live)
  {
    hide Slots, IsClass;
    forall a | a in live
      ensures a / SLAB_SIZE != f && IsObject(slabs[f := s], a)
    {
      assert IsObject(slabs, a);
    }
  }

  /** A new slab: all its objects are free. */
  lemma FreshSlab(words: map<nat, nat>, live: set<nat>, f: nat, c: nat)
    requires c <= 8 && f > 0 && Chained(words, f, SizeOf(c), Total(SizeOf(c)))
    requires forall a | a in live :: a / SLAB_SIZE != f
    ensures var size := SizeOf(c); var n := Total(size);
      SlabOk(f, Slab(0, SlotAt(f, size, 0), size, n, n), AllSlots(f, size), words, live)
  {
    hide SlotAt, Total, SizeOf;
    var size := SizeOf(c);
    var fl := AllSlots(f, size);
    HoldsAnObject(c);
    assert IsClass(size);
    forall i | 0 <= i < |fl|
      ensures ChainOk(words, fl, i)
    {
      assert fl[i] == SlotAt(f, size, i);
      assert |fl| == Total(size);
      assert words[SlotAt(f, size, i)] == LinkAfter(f, size, i);
      assert i + 1 < |fl| ==> fl[i + 1] == SlotAt(f, size, i + 1);
    }
    forall i, j | 0 <= i < j < |fl|
      ensures fl[i] != fl[j]
    {
      SlotGap(f, size, i, j);
    }
    forall a | a in fl
      ensures a in Slots(f, size)
    {
    }
    forall a | a in Slots(f, size)
      ensures a !in live && a in fl
    {
      InPage(f, size, a);
      var i :| 0 <= i < Total(size) && a == SlotAt(f, size, i);
      assert fl[i] == a;
    }
  }

  // ----- Steps on lists

  /** A slab changes without crossing between full and partial. */
  lemma TouchKeepsLists(slabs: map<nat, Slab>, heads: seq<nat>, lists: seq<seq<nat>>, full: bool, f: nat, s: Slab)
    requires ListsOk(slabs, heads, lists, full) && f in slabs
    requires s.next == slabs[f].next && s.objSize == slabs[f].objSize
    requires s.freeCount == 0 <==> slabs[f].freeCount == 0
    ensures ListsOk(slabs[f := s], heads, lists, full)
  {
    hide IsList;
    forall c | 0 <= c < NUM_CACHES
      ensures ListOk(slabs[f := s], heads[c], lists[c], SizeOf(c), full)
    {
      assert ListOk(slabs, heads[c], lists[c], SizeOf(c), full);
      SameNexts(slabs, slabs[f := s], heads[c], lists[c]);
    }
  }

  /** A slab that joins list c, at its head. */
  lemma JoinKeepsLists(slabs: map<nat, Slab>, heads: seq<nat>, lists: seq<seq<nat>>, full: bool, c: nat, f: nat, s: Slab)
    requires ListsOk(slabs, heads, lists, full) && c < NUM_CACHES && f > 0
    requires forall d | 0 <= d < NUM_CACHES :: !Belongs(slabs, f, SizeOf(d), full)
    requires s.next == heads[c] && s.objSize == SizeOf(c) && (s.freeCount == 0 <==> full)
    ensures ListsOk(slabs[f := s], heads[c := f], lists[c := [f] + lists[c]], full)
  {
    hide IsList;
    var slabs' := slabs[f := s];
    forall d | 0 <= d < NUM_CACHES
      ensures ListOk(slabs', heads[c := f][d], lists[c := [f] + lists[c]][d], SizeOf(d), full)
    {
      assert ListOk(slabs, heads[d], lists[d], SizeOf(d), full);
      SizeInjective(c, d);
      SameNexts(slabs, slabs', heads[d], lists[d]);
      if d == c { PushSlab(slabs', heads[c], lists[c], f); }
    }
  }

  /** The slab at k of list c leaves it, after the list was relinked around it; it may change as it goes. */
  lemma LeaveKeepsLists(slabs: map<nat, Slab>, heads: seq<nat>, lists: seq<seq<nat>>, full: bool, c: nat, k: nat,
                        slabs': map<nat, Slab>, head': nat)
    requires ListsOk(slabs, heads, lists, full) && c < NUM_CACHES && k < |lists[c]|
    requires IsList(slabs', head', Without(lists[c], k))
    requires forall g | g in slabs && g != lists[c][k] ::
               g in slabs' && slabs'[g] == slabs[g].(next := slabs'[g].next) && (g !in lists[c] ==> slabs'[g] == slabs[g])
    requires forall g | g in slabs' :: g in slabs
    requires forall d | 0 <= d < NUM_CACHES :: !Belongs(slabs', lists[c][k], SizeOf(d), full)
    ensures ListsOk(slabs', heads[c := head'], lists[c := Without(lists[c], k)], full)
  {
    hide IsList, Without;
    var f := lists[c][k];
    assert ListOk(slabs, heads[c], lists[c], SizeOf(c), full);
    assert Distinct(lists[c]) by { IsDistinct(slabs, heads[c], lists[c]); }
    WithoutMembers(lists[c], k);
    forall d | 0 <= d < NUM_CACHES
      ensures ListOk(slabs', heads[c := head'][d], lists[c := Without(lists[c], k)][d], SizeOf(d), full)
    {
      assert ListOk(slabs, heads[d], lists[d], SizeOf(d), full);
      SizeInjective(c, d);
      if d != c {
        assert forall g | g in lists[d] :: g !in lists[c];
        SameNexts(slabs, slabs', heads[d], lists[d]);
      }
    }
  }

  lemma IsDistinct(slabs: map<nat, Slab>, head: nat, list: seq<nat>)
    requires IsList(slabs, head, list)
    ensures Distinct(list)
  {
  }

  /** Lists of the other kind are left alone. */
  lemma ElsewhereKeepsLists(slabs: map<nat, Slab>, heads: seq<nat>, lists: seq<seq<nat>>, full: bool, f: nat,
                            slabs': map<nat, Slab>)
    requires ListsOk(slabs, heads, lists, full)
    requires forall g | g in slabs && g != f && (slabs[g].freeCount == 0 <==> full) :: g in slabs' && slabs'[g] == slabs[g]
    requires forall g | g in slabs && g != f && !(slabs[g].freeCount == 0 <==> full) ::
               g in slabs' ==> !(slabs'[g].freeCount == 0 <==> full)
    requires forall g | g in slabs' && g != f :: g in slabs
    requires forall d | 0 <= d < NUM_CACHES :: !Belongs(slabs, f, SizeOf(d), full) && !Belongs(slabs', f, SizeOf(d), full)
    ensures ListsOk(slabs', heads, lists, full)
  {
    hide IsList;
    forall d | 0 <= d < NUM_CACHES
      ensures ListOk(slabs', heads[d], lists[d], SizeOf(d), full)
    {
      assert ListOk(slabs, heads[d], lists[d], SizeOf(d), full);
      SameNexts(slabs, slabs', heads[d], lists[d]);
    }
  }

  /** Only next fields of members of the list changed, and not the one at k. */
  ghost predicate Unlinked(slabs: map<nat, Slab>, slabs': map<nat, Slab>, list: seq<nat>, k: nat)
    requires k < |list|
  {
    && slabs.Keys == slabs'.Keys
    && forall g | g in slabs :: slabs'[g] == slabs[g].(next := slabs'[g].next)
                                && (g !in list || g == list[k] ==> slabs'[g] == slabs[g])
  }

  /** The assignment through the pointer-to-pointer: the head, or the next field of the slab before. */
  lemma UnlinkAt(slabs: map<nat, Slab>, head: nat, list: seq<nat>, k: nat)
    requires IsList(slabs, head, list) && k < |list|
    ensures list[k] in slabs && (k > 0 ==> list[k - 1] in slabs && list[k - 1] > 0)
    ensures var nxt := slabs[list[k]].next;
            var slabs' := if k == 0 then slabs else slabs[list[k - 1] := slabs[list[k - 1]].(next := nxt)];
      IsList(slabs', if k == 0 then nxt else head, Without(list, k)) && Unlinked(slabs, slabs', list, k)
  {
    LinkAt(slabs, head, list, k);
    if k == 0 {
      PopSlab(slabs, head, list);
      assert Without(list, 0) == list[1..];
    } else {
      hide Without;
      LinkAt(slabs, head, list, k - 1);
      UnlinkSlab(slabs, head, list, k);
    }
  }

  /** The slab at k of full list c, with an object free again, goes to the head of partial list c. */
  lemma FullToPartial(slabs: map<nat, Slab>, partial: seq<nat>, partials: seq<seq<nat>>, full: seq<nat>,
                      fulls: seq<seq<nat>>, c: nat, k: nat, given: Slab, slabs': map<nat, Slab>, head': nat, s': Slab)
    requires ListsOk(slabs, partial, partials, false) && ListsOk(slabs, full, fulls, true)
    requires c < NUM_CACHES && k < |fulls[c]| && fulls[c][k] in slabs && fulls[c][k] > 0
    requires Unlinked(slabs[fulls[c][k] := given], slabs', fulls[c], k)
    requires IsList(slabs', head', Without(fulls[c], k))
    requires s'.next == partial[c] && s'.objSize == SizeOf(c) && s'.freeCount > 0
    ensures var f := fulls[c][k]; var slabs'' := slabs'[f := s'];
      && ListsOk(slabs'', partial[c := f], partials[c := [f] + partials[c]], false)
      && ListsOk(slabs'', full[c := head'], fulls[c := Without(fulls[c], k)], true)
  {
    hide IsList, Without, SizeOf;
    var f := fulls[c][k];
    var slabs'' := slabs'[f := s'];
    assert ListOk(slabs, full[c], fulls[c], SizeOf(c), true);
    IsDistinct(slabs, full[c], fulls[c]);
    WithoutMembers(fulls[c], k);
    assert Belongs(slabs, f, SizeOf(c), true);
    SameNexts(slabs', slabs'', head', Without(fulls[c], k));
    LeaveKeepsLists(slabs, full, fulls, true, c, k, slabs'', head');
    var base := slabs'[f := slabs[f]];
    ElsewhereKeepsLists(slabs, partial, partials, false, f, base);
    JoinKeepsLists(base, partial, partials, false, c, f, s');
    assert base[f := s'] == slabs'';
  }

  /** The slab at k of partial list c goes away. */
  lemma DropFromLists(slabs: map<nat, Slab>, partial: seq<nat>, partials: seq<seq<nat>>, full: seq<nat>,
                      fulls: seq<seq<nat>>, c: nat, k: nat, slabs': map<nat, Slab>, head': nat)
    requires ListsOk(slabs, partial, partials, false) && ListsOk(slabs, full, fulls, true)
    requires c < NUM_CACHES && k < |partials[c]| && Unlinked(slabs, slabs', partials[c], k)
    requires IsList(slabs', head', Without(partials[c], k))
    ensures var f := partials[c][k];
      && ListsOk(slabs' - {f}, partial[c := head'], partials[c := Without(partials[c], k)], false)
      && ListsOk(slabs' - {f}, full, fulls, true)
  {
    hide IsList, Without, SizeOf;
    var f := partials[c][k];
    var slabs'' := slabs' - {f};
    assert ListOk(slabs, partial[c], partials[c], SizeOf(c), false);
    IsDistinct(slabs, partial[c], partials[c]);
    WithoutMembers(partials[c], k);
    assert Belongs(slabs, f, SizeOf(c), false);
    SameNexts(slabs', slabs'', head', Without(partials[c], k));
    LeaveKeepsLists(slabs, partial, partials, false, c, k, slabs'', head');
    ElsewhereKeepsLists(slabs, full, fulls, true, f, slabs'');
  }

  lemma PageContents(f: nat, b: nat, size: nat, words: map<nat, nat>, live: set<nat>, words': map<nat, nat>)
    requires SamePage(f, words, live, words', live) && f * SLAB_SIZE <= b && b + size <= (f + 1) * SLAB_SIZE
    ensures SameContents(b, size, words, words')
  {
    hide SameWord;
    forall x: nat | b <= x < b + size
      ensures SameWord(words, words', x)
    {
      assert x / SLAB_SIZE == f;
    }
  }

  /** Work on pages that held no slab leaves every live object alone. */
  lemma NewPagesOnly(slabs: map<nat, Slab>, words: map<nat, nat>, live: set<nat>, slabs': map<nat, Slab>,
                     words': map<nat, nat>)
    requires LiveOk(slabs, live) && SameSizes(slabs, slabs') && slabs.Keys <= slabs'.Keys
    requires forall g | g in slabs :: SamePage(g, words, live, words', live)
    ensures Untouched(live, slabs, words, slabs', words')
  {
    hide Slots, IsClass, SameWord, SamePage, SameContents;
    forall b | b in live
      ensures b / SLAB_SIZE in slabs && b / SLAB_SIZE in slabs'
      ensures SameContents(b, slabs[b / SLAB_SIZE].objSize, words, words')
    {
      assert IsObject(slabs, b);
      InPage(b / SLAB_SIZE, slabs[b / SLAB_SIZE].objSize, b);
      PageContents(b / SLAB_SIZE, b, slabs[b / SLAB_SIZE].objSize, words, live, words');
    }
  }

  /** Live objects lie in their own pages behind the descriptor, aligned to their size, and apart from each
      other. */
  lemma LiveApart(slabs: map<nat, Slab>, live: set<nat>, a: nat, b: nat)
    requires LiveOk(slabs, live) && a in live && b in live && a != b
    ensures a / SLAB_SIZE in slabs && b / SLAB_SIZE in slabs
    ensures var m := slabs[a / SLAB_SIZE].objSize; var n := slabs[b / SLAB_SIZE].objSize;
      && a / SLAB_SIZE * SLAB_SIZE + DESCRIPTOR <= a && a + m <= (a / SLAB_SIZE + 1) * SLAB_SIZE
      && m > 0 && a % m == 0
      && (a + m <= b || b + n <= a)
  {
    hide Slots, SizeOf;
    assert IsObject(slabs, a) && IsObject(slabs, b);
    var f, g := a / SLAB_SIZE, b / SLAB_SIZE;
    InPage(f, slabs[f].objSize, a);
    InPage(g, slabs[g].objSize, b);
    if f == g {
      var c :| 0 <= c <= 8 && slabs[f].objSize == SizeOf(c);
      SlotsApart(f, c, a, b);
    } else if f < g {
      PagesApart(f, g);
    } else {
      PagesApart(g, f);
    }
  }

  /** Writing the first word of an object that is being freed leaves the other live objects alone. */
  lemma FreedWordOnly(slabs: map<nat, Slab>, words: map<nat, nat>, live: set<nat>, a: nat, slabs': map<nat, Slab>,
                      words': map<nat, nat>)
    requires LiveOk(slabs, live) && a in live && LiveOk(slabs', live - {a}) && SameSizes(slabs, slabs')
    requires forall x: nat | x != a :: SameWord(words, words', x)
    ensures Untouched(live - {a}, slabs, words, slabs', words')
  {
    hide SameWord, Slots, IsClass;
    forall b | b in live - {a}
      ensures b / SLAB_SIZE in slabs && b / SLAB_SIZE in slabs'
      ensures SameContents(b, slabs[b / SLAB_SIZE].objSize, words, words')
    {
      assert IsObject(slabs', b);
      LiveApart(slabs, live, a, b);
    }
  }
}
