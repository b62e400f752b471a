/** Slab descriptors, the freelists threaded through free objects, and the partial and full lists of slabs
    (src/heap/heap_internal.h and src/heap/heap.c).  A slab is named by the number of its page; 0 is NULL. */
module Slabs {
  import opened Seqs
  import opened SlabGeometry

  datatype Slab = Slab(next: nat, freelist: nat, objSize: nat, freeCount: nat, total: nat)

  // ----- Freelists

  /** The first word of each free object holds the address of the next one. */
  ghost predicate FreeChain(words: map<nat, nat>, head: nat, fl: seq<nat>)
  {
    head == At(fl, 0) && forall i | 0 <= i < |fl| :: ChainOk(words, fl, i)
  }

  ghost predicate ChainOk(words: map<nat, nat>, fl: seq<nat>, i: nat)
    requires i < |fl|
  {
    fl[i] in words && words[fl[i]] == At(fl, i + 1)
  }

  function At(s: seq<nat>, i: nat): nat
  {
    if i < |s| then s[i] else 0
  }

  predicate IsClass(size: nat)
  {
    exists c | 0 <= c <= 8 :: size == SizeOf(c)
  }

  /** What holds of one slab: its freelist is made of distinct objects of its page, as many as free_count
      says, and the objects not on it are the live ones. */
  ghost predicate SlabOk(f: nat, s: Slab, fl: seq<nat>, words: map<nat, nat>, live: set<nat>)
  {
    && f > 0 && s.objSize > 0 && IsClass(s.objSize) && s.total == Total(s.objSize)
    && |fl| == s.freeCount && Distinct(fl) && FreeChain(words, s.freelist, fl)
    && (forall a | a in fl :: a in Slots(f, s.objSize))
    && (forall a | a in Slots(f, s.objSize) :: a in live <==> a !in fl)
  }

  ghost predicate SamePage(f: nat, words: map<nat, nat>, live: set<nat>, words': map<nat, nat>, live': set<nat>)
  {
    forall a: nat | a / SLAB_SIZE == f :: SameWord(words, words', a) && (a in live <==> a in live')
  }

  ghost predicate SameWord(words: map<nat, nat>, words': map<nat, nat>, a: nat)
  {
    (a in words <==> a in words') && (a in words ==> words[a] == words'[a])
  }

  lemma InPage(f: nat, size: nat, a: nat)
    requires size > 0 && IsClass(size) && a in Slots(f, size)
    ensures f * SLAB_SIZE + DESCRIPTOR <= a && a + size <= (f + 1) * SLAB_SIZE
    ensures a / SLAB_SIZE == f && a % size == 0 && a % 8 == 0
  {
    var c :| 0 <= c <= 8 && size == SizeOf(c);
    SlotInPage(f, c, a);
  }

  /** A slab does not depend on what happens in other pages. */
  lemma OtherPages(f: nat, s: Slab, fl: seq<nat>, words: map<nat, nat>, live: set<nat>,
                   words': map<nat, nat>, live': set<nat>)
    requires SlabOk(f, s, fl, words, live) && SamePage(f, words, live, words', live')
    ensures SlabOk(f, s, fl, words', live')
  {
    hide Slots;
    forall a | a in Slots(f, s.objSize)
      ensures a / SLAB_SIZE == f
    {
      InPage(f, s.objSize, a);
    }
    forall i | 0 <= i < |fl|
      ensures ChainOk(words', fl, i)
    {
      assert ChainOk(words, fl, i) && fl[i] in fl && SameWord(words, words', fl[i]);
    }
  }

  /** slab_alloc_from: the head of the freelist becomes live. */
  lemma TakeKeepsSlab(f: nat, s: Slab, fl: seq<nat>, words: map<nat, nat>, live: set<nat>)
    requires SlabOk(f, s, fl, words, live) && s.freeCount > 0
    ensures s.freelist == fl[0] && fl[0] in words && fl[0] !in live && fl[0] in Slots(f, s.objSize)
    ensures var s' := s.(freelist := words[fl[0]], freeCount := s.freeCount - 1);
      SlabOk(f, s', fl[1..], words, live + {fl[0]})
  {
    hide Slots, Total;
    var rest := fl[1..];
    assert fl == [fl[0]] + rest;
    assert fl[0] in fl;
    forall a | a in rest
      ensures a in fl && a != fl[0]
    {
      var i :| 0 <= i < |rest| && rest[i] == a;
      assert fl[i + 1] == a;
    }
    assert ChainOk(words, fl, 0);
    PopDistinct(fl);
    forall i | 0 <= i < |rest|
      ensures ChainOk(words, rest, i)
    {
      assert ChainOk(words, fl, i + 1);
    }
  }

  /** cache_free: a live object becomes the head of the freelist. */
  lemma GiveKeepsSlab(f: nat, s: Slab, fl: seq<nat>, words: map<nat, nat>, live: set<nat>, a: nat)
    requires SlabOk(f, s, fl, words, live) && a in live && a in Slots(f, s.objSize)
    ensures var s' := s.(freelist := a, freeCount := s.freeCount + 1);
      SlabOk(f, s', [a] + fl, words[a := s.freelist], live - {a})
  {
    hide Slots, Total;
    var fl' := [a] + fl;
    var words' := words[a := s.freelist];
    assert forall x | x in fl :: x != a;
    PushDistinct(fl, a);
    forall i | 0 <= i < |fl'|
      ensures ChainOk(words', fl', i)
    {
      if i > 0 {
        assert ChainOk(words, fl, i - 1);
        assert fl[i - 1] in fl;
      }
    }
    forall x | x in fl'
      ensures x in Slots(f, s.objSize)
    {
    }
  }

  /** free_count never passes total, and tells whether the slab holds a live object. */
  lemma FreeCountMeans(f: nat, s: Slab, fl: seq<nat>, words: map<nat, nat>, live: set<nat>)
    requires SlabOk(f, s, fl, words, live)
    ensures s.freeCount <= s.total
    ensures s.freeCount == s.total <==> forall a | a in Slots(f, s.objSize) :: a !in live
  {
    SlotCount(f, s.objSize, Total(s.objSize));
    DistinctFits(fl, Slots(f, s.objSize));
  }

  /** A slab is full exactly when each of its objects is live. */
  lemma FullMeans(f: nat, s: Slab, fl: seq<nat>, words: map<nat, nat>, live: set<nat>)
    requires SlabOk(f, s, fl, words, live)
    ensures s.freeCount == 0 <==> Slots(f, s.objSize) <= live
  {
    if fl != [] {
      assert fl[0] in fl;
    }
  }

  // ----- Lists of slabs

  ghost predicate IsList(slabs: map<nat, Slab>, head: nat, list: seq<nat>)
  {
    && Distinct(list) && head == At(list, 0)
    && (forall f | f in list :: f in slabs && f > 0)
    && (forall i | 0 <= i < |list| :: NextOk(slabs, list, i))
  }

  ghost predicate NextOk(slabs: map<nat, Slab>, list: seq<nat>, i: nat)
    requires i < |list|
  {
    list[i] in slabs && slabs[list[i]].next == At(list, i + 1)
  }

  lemma LinkAt(slabs: map<nat, Slab>, head: nat, list: seq<nat>, k: nat)
    requires IsList(slabs, head, list)
    ensures head == At(list, 0)
    ensures k < |list| ==> list[k] > 0 && NextOk(slabs, list, k)
  {
    assert k < |list| ==> list[k] in list;
  }

  /** Lists survive changes that leave their members' next fields alone. */
  lemma SameNexts(slabs: map<nat, Slab>, slabs': map<nat, Slab>, head: nat, list: seq<nat>)
    requires IsList(slabs, head, list)
    requires forall f | f in list :: f in slabs' && slabs'[f].next == slabs[f].next
    ensures IsList(slabs', head, list)
  {
    forall i | 0 <= i < |list|
      ensures NextOk(slabs', list, i)
    {
      assert NextOk(slabs, list, i) && list[i] in list;
    }
  }

  lemma PushSlab(slabs: map<nat, Slab>, head: nat, list: seq<nat>, f: nat)
    requires IsList(slabs, head, list) && f in slabs && f > 0 && f !in list && slabs[f].next == head
    ensures IsList(slabs, f, [f] + list)
  {
    var list' := [f] + list;
    PushDistinct(list, f);
    forall i | 0 <= i < |list'|
      ensures NextOk(slabs, list', i)
    {
      if i > 0 { assert NextOk(slabs, list, i - 1); }
    }
  }

  lemma PopSlab(slabs: map<nat, Slab>, head: nat, list: seq<nat>)
    requires IsList(slabs, head, list) && list != []
    ensures head == list[0] && head in slabs && IsList(slabs, slabs[head].next, list[1..]) && head !in list[1..]
    ensures forall f :: f in list[1..] <==> f in list && f != head
  {
    var rest := list[1..];
    assert list == [list[0]] + rest;
    PopDistinct(list);
    assert NextOk(slabs, list, 0);
    forall i | 0 <= i < |rest|
      ensures NextOk(slabs, rest, i)
    {
      assert NextOk(slabs, list, i + 1);
    }
  }

  lemma PushDistinct(list: seq<nat>, f: nat)
    requires Distinct(list) && f !in list
    ensures Distinct([f] + list)
  {
  }

  lemma PopDistinct(list: seq<nat>)
    requires list != [] && Distinct(list)
    ensures Distinct(list[1..]) && list[0] !in list[1..]
  {
  }

  lemma UnlinkSlab(slabs: map<nat, Slab>, head: nat, list: seq<nat>, k: nat)
    requires IsList(slabs, head, list) && 0 < k < |list| && list[k] in slabs && list[k - 1] in slabs
    ensures var prev := list[k - 1];
      IsList(slabs[prev := slabs[prev].(next := slabs[list[k]].next)], head, Without(list, k))
  {
    hide Without;
    WithoutAt(list, k);
    var prev, list' := list[k - 1], Without(list, k);
    var slabs' := slabs[prev := slabs[prev].(next := slabs[list[k]].next)];
    WithoutMembers(list, k);
    assert NextOk(slabs, list, k) && NextOk(slabs, list, k - 1);
    forall i | 0 <= i < |list'|
      ensures NextOk(slabs', list', i)
    {
      var o := if i < k then i else i + 1;
      assert list'[i] == list[o] && NextOk(slabs, list, o);
    }
  }
}
