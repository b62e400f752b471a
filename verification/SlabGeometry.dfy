/** How a 4 KB slab page is cut into objects (slab_create of src/heap/heap.c): a 32-byte descriptor, rounded
    up to the object size, then as many objects as fit.  Addresses are offsets into the kernel's window on
    physical memory, so page f begins at f * 4096. */
module SlabGeometry {
  const SLAB_SIZE: nat := 4096
  const DESCRIPTOR: nat := 32
  const NUM_CACHES: nat := 10

  /** The object size of cache c: 8, 16, ..., 4096. */
  function SizeOf(c: nat): (s: nat)
    ensures s >= 8
  {
    if c == 0 then 8 else 2 * SizeOf(c - 1)
  }

  lemma Sizes()
    ensures SizeOf(0) == 8 && SizeOf(1) == 16 && SizeOf(2) == 32 && SizeOf(3) == 64 && SizeOf(4) == 128
    ensures SizeOf(5) == 256 && SizeOf(6) == 512 && SizeOf(7) == 1024 && SizeOf(8) == 2048 && SizeOf(9) == 4096
  {
    assert SizeOf(4) == 16 * SizeOf(0);
    assert SizeOf(8) == 16 * SizeOf(4);
  }

  lemma {:induction false} SizeGrows(c: nat, d: nat)
    requires c < d
    ensures SizeOf(c) < SizeOf(d)
    decreases d
  {
    if c < d - 1 { SizeGrows(c, d - 1); }
  }

  lemma SizeInjective(c: nat, d: nat)
    ensures SizeOf(c) == SizeOf(d) <==> c == d
  {
    if c < d { SizeGrows(c, d); } else if d < c { SizeGrows(d, c); }
  }

  /** cache_index: the first cache whose objects are large enough, or the last. */
  method CacheIndex(size: nat) returns (idx: nat)
    ensures idx < NUM_CACHES
    ensures size <= 4096 ==> size <= SizeOf(idx)
    ensures forall c | 0 <= c < idx :: SizeOf(c) < size
  {
    Sizes();
    var s := 8;
    idx := 0;
    while s < size && idx < NUM_CACHES - 1
      invariant idx < NUM_CACHES && s == SizeOf(idx)
      invariant forall c | 0 <= c < idx :: SizeOf(c) < size
    {
      s := s * 2;
      idx := idx + 1;
    }
  }

  /** round_up_pow2, for sizes whose rounding fits in 64 bits: the least object size that holds the request. */
  method RoundUpPow2(size: nat) returns (s: nat, ghost c: nat)
    requires size <= 0x8000_0000_0000_0000
    ensures s == SizeOf(c) && s >= size
    ensures forall d | 0 <= d < c :: SizeOf(d) < size
  {
    s, c := 8, 0;
    while s < size
      invariant s == SizeOf(c)
      invariant forall d | 0 <= d < c :: SizeOf(d) < size
      decreases size - s
    {
      s, c := s * 2, c + 1;
    }
  }

  // ----- The page

  function HeaderSize(size: nat): nat
    requires size > 0
  {
    if DESCRIPTOR % size != 0 then DESCRIPTOR + (size - DESCRIPTOR % size) else DESCRIPTOR
  }

  /** slab->total, for object sizes up to a page. */
  function Total(size: nat): nat
    requires size > 0
  {
    if HeaderSize(size) > SLAB_SIZE then 0 else (SLAB_SIZE - HeaderSize(size)) / size
  }

  /** A page of the largest class holds no object at all, and what its freelist starts with lies behind the page;
      every other class gets at least one. */
  lemma HoldsAnObject(c: nat)
    requires c < NUM_CACHES
    ensures Total(SizeOf(c)) >= 1 <==> SizeOf(c) <= 2048
    ensures Total(SizeOf(c)) >= 1 <==> c <= 8
    ensures HeaderSize(SizeOf(c)) + SizeOf(c) <= SLAB_SIZE <==> c <= 8
  {
    Sizes();
  }

  /** How many objects of each class a page holds. */
  function Capacity(c: nat): nat
    requires c <= 8
  {
    [508, 254, 127, 63, 31, 15, 7, 3, 1][c]
  }

  /** The objects begin at the first multiple of their size behind the descriptor, and use the page up: there is no room
      for one more. */
  lemma PageUsedUp(c: nat)
    requires c <= 8
    ensures var size := SizeOf(c); var h := HeaderSize(size);
      && h % size == 0 && DESCRIPTOR <= h < DESCRIPTOR + size
      && h + Capacity(c) * size <= SLAB_SIZE < h + (Capacity(c) + 1) * size
      && Total(size) == Capacity(c)
  {
    Sizes();
  }

  lemma TotalIs(c: nat)
    requires c <= 8
    ensures Total(SizeOf(c)) == Capacity(c)
  {
    PageUsedUp(c);
  }

  lemma PageFits(c: nat)
    requires c <= 8
    ensures var size := SizeOf(c); var h := HeaderSize(size);
      && DESCRIPTOR <= h && h % size == 0 && h + Total(size) * size <= SLAB_SIZE && SLAB_SIZE % size == 0
  {
    Sizes();
  }

  function SlotAt(f: nat, size: nat, i: nat): nat
    requires size > 0
  {
    f * SLAB_SIZE + HeaderSize(size) + i * size
  }

  /** The addresses of the objects of page f. */
  ghost function Slots(f: nat, size: nat): set<nat>
    requires size > 0
  {
    SlotsUpTo(f, size, Total(size))
  }

  ghost function SlotsUpTo(f: nat, size: nat, n: nat): set<nat>
    requires size > 0
  {
    set i | 0 <= i < n :: SlotAt(f, size, i)
  }

  lemma NextSlot(f: nat, size: nat, i: nat)
    requires size > 0
    ensures SlotAt(f, size, i + 1) == SlotAt(f, size, i) + size
  {
    assert (i + 1) * size == i * size + size;
  }

  lemma {:induction false} SlotGap(f: nat, size: nat, i: nat, j: nat)
    requires size > 0 && i < j
    ensures SlotAt(f, size, i) + size <= SlotAt(f, size, j)
    decreases j
  {
    hide SlotAt;
    NextSlot(f, size, j - 1);
    if i < j - 1 { SlotGap(f, size, i, j - 1); }
  }

  /** Every object lies in its page behind the descriptor, aligned to its size. */
  lemma SlotInPage(f: nat, c: nat, a: nat)
    requires c <= 8 && a in Slots(f, SizeOf(c))
    ensures f * SLAB_SIZE + DESCRIPTOR <= a && a + SizeOf(c) <= (f + 1) * SLAB_SIZE
    ensures a / SLAB_SIZE == f && a % SizeOf(c) == 0 && a % 8 == 0
  {
    hide SlotAt, SizeOf, Total, HeaderSize;
    var size := SizeOf(c);
    var i :| 0 <= i < Total(size) && a == SlotAt(f, size, i);
    SlotEnds(f, c);
    SlotGap(f, size, i, Total(size));
    if i > 0 { SlotGap(f, size, 0, i); }
    SlotAligned(f, c, i);
  }

  lemma SlotEnds(f: nat, c: nat)
    requires c <= 8
    ensures f * SLAB_SIZE + DESCRIPTOR <= SlotAt(f, SizeOf(c), 0)
    ensures SlotAt(f, SizeOf(c), Total(SizeOf(c))) <= (f + 1) * SLAB_SIZE
  {
    hide SizeOf, Total, HeaderSize;
    PageFits(c);
  }

  lemma {:induction false} SlotAligned(f: nat, c: nat, i: nat)
    requires c <= 8
    ensures SlotAt(f, SizeOf(c), i) % SizeOf(c) == 0 && SlotAt(f, SizeOf(c), i) % 8 == 0
  {
    if i == 0 {
      FirstAligned(f, c);
    } else {
      hide SlotAt, SizeOf;
      NextSlot(f, SizeOf(c), i - 1);
      SlotAligned(f, c, i - 1);
      StaysAligned(SlotAt(f, SizeOf(c), i - 1), c);
    }
  }

  lemma FirstAligned(f: nat, c: nat)
    requires c <= 8
    ensures SlotAt(f, SizeOf(c), 0) % SizeOf(c) == 0 && SlotAt(f, SizeOf(c), 0) % 8 == 0
  {
    hide HeaderSize, SizeOf, Total;
    PageFits(c);
    EightDivides(c);
    var size := SizeOf(c);
    var h, q := HeaderSize(size), SLAB_SIZE / size;
    SumOfMultiples(f, q, h / size, size);
    SumOfMultiples(f, 512, h / 8, 8);
  }

  lemma EightDivides(c: nat)
    requires c <= 8
    ensures SizeOf(c) % 8 == 0 && HeaderSize(SizeOf(c)) % 8 == 0
  {
    Sizes();
  }

  lemma SumOfMultiples(f: nat, q: nat, h: nat, size: nat)
    requires size > 0
    ensures (f * (size * q) + size * h) % size == 0
  {
    assert f * (size * q) + size * h == size * (f * q + h);
    Multiple(size * (f * q + h), size, f * q + h);
  }

  lemma StaysAligned(a: nat, c: nat)
    requires c <= 8 && a % SizeOf(c) == 0 && a % 8 == 0
    ensures (a + SizeOf(c)) % SizeOf(c) == 0 && (a + SizeOf(c)) % 8 == 0
  {
    hide SizeOf;
    EightDivides(c);
    NextMultiple(a, SizeOf(c));
    assert forall x: nat, y: nat | x % 8 == 0 && y % 8 == 0 :: (x + y) % 8 == 0;
  }

  lemma NextMultiple(a: nat, size: nat)
    requires size > 0 && a % size == 0
    ensures (a + size) % size == 0
  {
    var k := a / size;
    assert a == size * k;
    assert a + size == size * (k + 1);
    Multiple(a + size, size, k + 1);
  }

  lemma Multiple(x: nat, size: nat, k: nat)
    requires size > 0 && x == size * k
    ensures x % size == 0
  {
    var q, r := x / size, x % size;
    assert x == size * q + r;
    if k > q {
      MoreIsLarger(size, q, k);
    } else if k < q {
      MoreIsLarger(size, k, q);
    }
  }

  lemma {:induction false} MoreIsLarger(size: nat, i: nat, j: nat)
    requires i < j
    ensures size * i + size <= size * j
    decreases j
  {
    assert size * j == size * (j - 1) + size;
    if i < j - 1 { MoreIsLarger(size, i, j - 1); }
  }

  lemma SlotsApart(f: nat, c: nat, a: nat, b: nat)
    requires c <= 8 && a in Slots(f, SizeOf(c)) && b in Slots(f, SizeOf(c)) && a != b
    ensures a + SizeOf(c) <= b || b + SizeOf(c) <= a
  {
    var size := SizeOf(c);
    var i :| 0 <= i < Total(size) && a == SlotAt(f, size, i);
    var j :| 0 <= j < Total(size) && b == SlotAt(f, size, j);
    if i < j { SlotGap(f, size, i, j); } else { SlotGap(f, size, j, i); }
  }

  lemma {:induction false} SlotCount(f: nat, size: nat, n: nat)
    requires size > 0
    ensures |SlotsUpTo(f, size, n)| == n
  {
    if n == 0 {
      assert SlotsUpTo(f, size, 0) == {};
    } else {
      SlotCount(f, size, n - 1);
      var a := SlotAt(f, size, n - 1);
      if a in SlotsUpTo(f, size, n - 1) {
        var i :| 0 <= i < n - 1 && a == SlotAt(f, size, i);
        SlotGap(f, size, i, n - 1);
      }
      assert SlotsUpTo(f, size, n) == SlotsUpTo(f, size, n - 1) + {a};
    }
  }

  lemma PagesApart(f: nat, g: nat)
    requires f < g
    ensures (f + 1) * SLAB_SIZE <= g * SLAB_SIZE
  {
  }
}
