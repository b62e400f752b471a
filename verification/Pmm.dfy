/** The bitmap frame allocator (src/pmm): one bit per 4 KB frame, 0 = free, and a counter of free
    frames.  The ghost field `free` is the set of frame numbers the bitmap stands for. */
module Pmm {
  import opened Bits

  const FRAME_SIZE: nat := 4096
  const WORD_BITS: nat := 64
  const MAX_FRAMES: nat := 0x10_0000
  const BITMAP_WORDS: nat := 16384
  const U64: nat := 0x1_0000_0000_0000_0000
  const ALL_ONES: nat := 0xFFFF_FFFF_FFFF_FFFF

  lemma WordSize()
    ensures Pow2(WORD_BITS) == U64
  {
    assert Pow2(8) == 256;
    assert Pow2(16) == 256 * Pow2(8);
    assert Pow2(24) == 256 * Pow2(16);
    assert Pow2(32) == 256 * Pow2(24);
    assert Pow2(40) == 256 * Pow2(32);
    assert Pow2(48) == 256 * Pow2(40);
    assert Pow2(56) == 256 * Pow2(48);
    assert Pow2(64) == 256 * Pow2(56);
  }

  ghost predicate AllSet(w: nat)
  {
    forall b: nat | b < WORD_BITS :: Bit(w, b)
  }

  /** A word equals ~0 exactly when all its digits are set. */
  lemma FullWord(w: nat)
    requires w < U64
    ensures w == ALL_ONES <==> AllSet(w)
  {
    var ones := Not(0, WORD_BITS);
    WordSize();
    assert ones == ALL_ONES;
    assert AllSet(ones) by {
      forall b: nat | b < WORD_BITS
        ensures Bit(ones, b)
      {
        BitNot(0, WORD_BITS, b);
        BitOfZero(b);
      }
    }
    if AllSet(w) {
      Extensionality(w, ones, WORD_BITS);
    }
  }

  /** bm[i] |= 1 << b */
  function SetBit(w: nat, b: nat): nat
  {
    Or(w, Pow2(b))
  }

  /** bm[i] &= ~(1 << b) */
  function ClearBit(w: nat, b: nat): nat
    requires b < WORD_BITS
  {
    Pow2Small(b);
    And(w, Not(Pow2(b), WORD_BITS))
  }

  lemma {:induction false} Pow2Small(b: nat)
    requires b < WORD_BITS
    ensures Pow2(b) < Pow2(WORD_BITS) && Pow2(b) < U64
  {
    WordSize();
    Pow2Monotone(b + 1, WORD_BITS);
  }

  lemma SetBitDigits(w: nat, b: nat)
    requires w < U64 && b < WORD_BITS
    ensures SetBit(w, b) < U64
    ensures forall c: nat | c < WORD_BITS :: Bit(SetBit(w, b), c) <==> c == b || Bit(w, c)
  {
    WordSize();
    Pow2Small(b);
    OrBound(w, Pow2(b), WORD_BITS);
    forall c: nat | c < WORD_BITS
      ensures Bit(SetBit(w, b), c) <==> c == b || Bit(w, c)
    {
      BitOr(w, Pow2(b), c);
      BitPow2(b, c);
    }
  }

  lemma ClearBitDigits(w: nat, b: nat)
    requires w < U64 && b < WORD_BITS
    ensures ClearBit(w, b) < U64
    ensures forall c: nat | c < WORD_BITS :: Bit(ClearBit(w, b), c) <==> c != b && Bit(w, c)
  {
    Pow2Small(b);
    var m := Not(Pow2(b), WORD_BITS);
    AndBound(w, m);
    forall c: nat | c < WORD_BITS
      ensures Bit(ClearBit(w, b), c) <==> c != b && Bit(w, c)
    {
      BitAnd(w, m, c);
      BitNot(Pow2(b), WORD_BITS, c);
      BitPow2(b, c);
    }
  }

  /** The frames a bitmap marks free. */
  ghost predicate Represents(words: seq<nat>, free: set<nat>)
  {
    && |words| == BITMAP_WORDS
    && (forall w | 0 <= w < BITMAP_WORDS :: words[w] < U64)
    && (forall f | f in free :: f < MAX_FRAMES)
    && (forall f | 0 <= f < MAX_FRAMES :: f in free <==> !Bit(words[f / WORD_BITS], f % WORD_BITS))
  }

  lemma TakeFrame(words: seq<nat>, free: set<nat>, f: nat)
    requires Represents(words, free) && f < MAX_FRAMES
    ensures Represents(words[f / WORD_BITS := SetBit(words[f / WORD_BITS], f % WORD_BITS)], free - {f})
  {
    SetBitDigits(words[f / WORD_BITS], f % WORD_BITS);
  }

  lemma ReleaseFrame(words: seq<nat>, free: set<nat>, f: nat)
    requires Represents(words, free) && f < MAX_FRAMES
    ensures Represents(words[f / WORD_BITS := ClearBit(words[f / WORD_BITS], f % WORD_BITS)], free + {f})
  {
    ClearBitDigits(words[f / WORD_BITS], f % WORD_BITS);
  }

  /** f is the least element of s. */
  ghost predicate IsLeast(f: nat, s: set<nat>)
  {
    f in s && forall g | g in s :: f <= g
  }

  class Allocator {
    const bitmap: array<nat>
    var freeFrames: nat
    ghost var free: set<nat>

    ghost predicate Valid()
      reads this, bitmap
    {
      freeFrames < U64 && Represents(bitmap[..], free)
    }

    /** The counter is right.  It is kept by every operation from a state where it holds. */
    ghost predicate CountExact()
      reads this
    {
      freeFrames == |free|
    }

    /** All frames used, as at the start of pmm_init. */
    constructor ()
      ensures Valid() && CountExact() && fresh(bitmap)
      ensures free == {}
    {
      bitmap := new nat[BITMAP_WORDS](_ => ALL_ONES);
      freeFrames := 0;
      free := {};
      new;
      FullWord(ALL_ONES);
    }

    /** bitmap_test */
    method IsUsed(f: nat) returns (used: bool)
      requires Valid() && f < MAX_FRAMES
      ensures used <==> f !in free
    {
      used := Bit(bitmap[f / WORD_BITS], f % WORD_BITS);
    }

    method Take(f: nat)
      requires Valid() && f < MAX_FRAMES
      modifies this`free, bitmap
      ensures Represents(bitmap[..], free) && free == old(free) - {f}
    {
      ghost var words := bitmap[..];
      TakeFrame(words, free, f);
      bitmap[f / WORD_BITS] := SetBit(bitmap[f / WORD_BITS], f % WORD_BITS);
      assert bitmap[..] == words[f / WORD_BITS := SetBit(words[f / WORD_BITS], f % WORD_BITS)];
      free := free - {f};
    }

    method Release(f: nat)
      requires Valid() && f < MAX_FRAMES
      modifies this`free, bitmap
      ensures Represents(bitmap[..], free) && free == old(free) + {f}
    {
      ghost var words := bitmap[..];
      ReleaseFrame(words, free, f);
      bitmap[f / WORD_BITS] := ClearBit(bitmap[f / WORD_BITS], f % WORD_BITS);
      assert bitmap[..] == words[f / WORD_BITS := ClearBit(words[f / WORD_BITS], f % WORD_BITS)];
      free := free + {f};
    }

    method ReleaseCounted(f: nat)
      requires Valid() && f < MAX_FRAMES && f !in free
      modifies this, bitmap
      ensures Valid() && (old(CountExact()) ==> CountExact())
      ensures free == old(free) + {f}
    {
      BoundedSet(free, MAX_FRAMES);
      Release(f);
      freeFrames := (freeFrames + 1) % U64;
    }

    method TakeCounted(f: nat)
      requires Valid() && f < MAX_FRAMES && f in free
      modifies this, bitmap
      ensures Valid() && (old(CountExact()) ==> CountExact())
      ensures free == old(free) - {f}
    {
      Take(f);
      if freeFrames > 0 { freeFrames := freeFrames - 1; }
    }

    /** pmm_alloc_frame: take the least free frame and return its address; 0 when none is free.
        (Frame 0 has address 0: were it free, it would be taken and reported as failure.) */
    method Alloc() returns (phys: nat)
      requires Valid()
      modifies this, bitmap
      ensures Valid() && (old(CountExact()) ==> CountExact())
      ensures old(free) == {} ==> phys == 0 && free == {} && freeFrames == old(freeFrames)
      ensures old(free) != {} ==>
        exists f: nat :: IsLeast(f, old(free)) && phys == f * FRAME_SIZE && free == old(free) - {f}
    {
      for w := 0 to BITMAP_WORDS
        invariant Valid() && free == old(free) && freeFrames == old(freeFrames)
        invariant forall f | 0 <= f < w * WORD_BITS :: f !in free
      {
        var word := bitmap[w];
        if word == ALL_ONES {
          FullWord(word);
          forall f | w * WORD_BITS <= f < (w + 1) * WORD_BITS
            ensures f !in free
          {
            assert f / WORD_BITS == w && Bit(word, f % WORD_BITS);
          }
        } else {
          for b := 0 to WORD_BITS
            invariant Valid() && free == old(free) && freeFrames == old(freeFrames)
            invariant bitmap[w] == word
            invariant forall f | 0 <= f < w * WORD_BITS + b :: f !in free
          {
            var frame := w * WORD_BITS + b;
            assert frame / WORD_BITS == w && frame % WORD_BITS == b;
            if !Bit(word, b) {
              assert IsLeast(frame, free);
              Take(frame);
              freeFrames := (freeFrames + U64 - 1) % U64;
              return frame * FRAME_SIZE;
            }
          }
        }
      }
      phys := 0;
    }

    /** pmm_free_frame: out-of-range and already-free frames are ignored. */
    method FreeFrame(phys: nat)
      requires Valid()
      modifies this, bitmap
      ensures Valid() && (old(CountExact()) ==> CountExact())
      ensures free == if phys / FRAME_SIZE < MAX_FRAMES then old(free) + {phys / FRAME_SIZE} else old(free)
    {
      var frame := phys / FRAME_SIZE;
      if frame >= MAX_FRAMES { return; }
      var used := IsUsed(frame);
      if !used { return; }
      ReleaseCounted(frame);
    }

    /** mark_range_used: every frame touched by [base, base + length), clipped to the bitmap. */
    method MarkRangeUsed(base: nat, length: nat)
      requires Valid()
      modifies this, bitmap
      ensures Valid() && (old(CountExact()) ==> CountExact())
      ensures free == old(free) - Range(base / FRAME_SIZE, EndRoundedUp(base, length))
    {
      hide Represents, EndRoundedUp;
      var start := base / FRAME_SIZE;
      var end := EndRoundedUp(base, length);
      if end > MAX_FRAMES { end := MAX_FRAMES; }
      var f := start;
      while f < end
        invariant start <= f && (f <= end || f == start)
        invariant Valid() && (old(CountExact()) ==> CountExact())
        invariant forall g :: g in free <==> g in old(free) && !Between(start, g, f)
      {
        var used := IsUsed(f);
        if !used {
          TakeCounted(f);
        }
        f := f + 1;
      }
      BelowMax(bitmap[..], free);
    }

    /** mark_range_free: frames from the one holding base up to the last whole one, clipped. */
    method MarkRangeFree(base: nat, length: nat)
      requires Valid()
      modifies this, bitmap
      ensures Valid() && (old(CountExact()) ==> CountExact())
      ensures free == old(free) + Range(base / FRAME_SIZE, EndRoundedDown(base, length))
    {
      hide Represents, EndRoundedDown;
      var start := base / FRAME_SIZE;
      var end := EndRoundedDown(base, length);
      if end > MAX_FRAMES { end := MAX_FRAMES; }
      var f := start;
      while f < end
        invariant start <= f && (f <= end || f == start)
        invariant Valid() && (old(CountExact()) ==> CountExact())
        invariant forall g :: g in free <==> g in old(free) || Between(start, g, f)
      {
        var used := IsUsed(f);
        if used {
          ReleaseCounted(f);
        }
        f := f + 1;
      }
      BelowMax(bitmap[..], free);
    }
  }

  lemma BelowMax(words: seq<nat>, free: set<nat>)
    requires Represents(words, free)
    ensures forall f | f in free :: f < MAX_FRAMES
  {
  }

  /** (base + length + FRAME_SIZE - 1) / FRAME_SIZE in u64 arithmetic. */
  function EndRoundedUp(base: nat, length: nat): nat
  {
    (base + length + FRAME_SIZE - 1) % U64 / FRAME_SIZE
  }

  /** (base + length) / FRAME_SIZE in u64 arithmetic. */
  function EndRoundedDown(base: nat, length: nat): nat
  {
    (base + length) % U64 / FRAME_SIZE
  }

  /** Frame numbers in [lo, hi), clipped to the 2^20 frames of the bitmap. */
  ghost function Range(lo: nat, hi: nat): set<nat>
  {
    set f: nat | f < MAX_FRAMES && Between(lo, f, hi)
  }

  /** Address x of the range lies in frame f. */
  predicate InFrame(base: nat, length: nat, f: nat, x: nat)
  {
    base <= x < base + length && f * FRAME_SIZE <= x < (f + 1) * FRAME_SIZE
  }

  /** Unless the sum wraps around, a non-empty range to be used takes in exactly the frames that hold one of its
      addresses. */
  lemma UsedRange(base: nat, length: nat, f: nat)
    requires length > 0 && base + length + FRAME_SIZE - 1 < U64 && f < MAX_FRAMES
    ensures f in Range(base / FRAME_SIZE, EndRoundedUp(base, length)) <==> exists x :: InFrame(base, length, f, x)
  {
    if Between(base / FRAME_SIZE, f, EndRoundedUp(base, length)) {
      assert InFrame(base, length, f, if f * FRAME_SIZE > base then f * FRAME_SIZE else base);
    }
  }

  /** A range to be freed takes in the frames that end in it: a frame only its end lies in is kept, one only its start
      lies in is freed. */
  lemma FreedRange(base: nat, length: nat, f: nat)
    requires base + length < U64 && f < MAX_FRAMES
    ensures f in Range(base / FRAME_SIZE, EndRoundedDown(base, length)) <==>
      base < (f + 1) * FRAME_SIZE <= base + length
  {
  }

  predicate Between(lo: nat, f: nat, hi: nat)
  {
    lo <= f < hi
  }

  lemma {:induction false} BoundedSet(s: set<nat>, n: nat)
    requires forall f | f in s :: f < n
    ensures |s| <= n
  {
    if n == 0 {
      assert s == {} by {
        assert forall f | f in s :: f < 0;
      }
    } else {
      BoundedSet(s - {n - 1}, n - 1);
    }
  }
}
