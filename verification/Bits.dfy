/** Machine words as natural numbers.  The kernel's u64 values are modelled as naturals below
    2^64; `|`, `&`, `~` and `1 << b` are given by recursion on the binary digits, and every fact
    about them is read off the digit function `Bit`. */
module Bits {

  /** The value of 1 << k before truncation. */
  function Pow2(k: nat): (p: nat)
    ensures p >= 1
  {
    if k == 0 then 1 else 2 * Pow2(k - 1)
  }

  /** Digit b of w, i.e. (w >> b) & 1. */
  predicate Bit(w: nat, b: nat)
    decreases w
  {
    w > 0 && if b == 0 then w % 2 == 1 else Bit(w / 2, b - 1)
  }

  function Or(x: nat, y: nat): nat
    decreases x + y
  {
    if x == 0 && y == 0 then 0
    else (if x % 2 == 1 || y % 2 == 1 then 1 else 0) + 2 * Or(x / 2, y / 2)
  }

  function And(x: nat, y: nat): nat
    decreases x
  {
    if x == 0 then 0
    else (if x % 2 == 1 && y % 2 == 1 then 1 else 0) + 2 * And(x / 2, y / 2)
  }

  /** Complement of a k-bit word. */
  function Not(x: nat, k: nat): nat
    requires x < Pow2(k)
  {
    Pow2(k) - 1 - x
  }

  lemma BitOfZero(b: nat)
    ensures !Bit(0, b)
  {
  }

  lemma {:induction false} BitOr(x: nat, y: nat, b: nat)
    ensures Bit(Or(x, y), b) <==> Bit(x, b) || Bit(y, b)
    decreases b
  {
    if x == 0 && y == 0 {
      BitOfZero(b);
    } else if b > 0 {
      BitOr(x / 2, y / 2, b - 1);
    }
  }

  lemma {:induction false} BitAnd(x: nat, y: nat, b: nat)
    ensures Bit(And(x, y), b) <==> Bit(x, b) && Bit(y, b)
    decreases b
  {
    if x == 0 {
      BitOfZero(b);
    } else if b > 0 {
      BitAnd(x / 2, y / 2, b - 1);
    }
  }

  lemma {:induction false} BitNot(x: nat, k: nat, b: nat)
    requires x < Pow2(k)
    ensures Bit(Not(x, k), b) <==> b < k && !Bit(x, b)
    decreases b
  {
    if k == 0 {
      BitOfZero(b);
    } else if b > 0 {
      assert Not(x, k) / 2 == Not(x / 2, k - 1);
      BitNot(x / 2, k - 1, b - 1);
    }
  }

  lemma {:induction false} BitPow2(k: nat, b: nat)
    ensures Bit(Pow2(k), b) <==> b == k
  {
    if k == 0 {
      if b > 0 { BitOfZero(b - 1); }
    } else if b > 0 {
      BitPow2(k - 1, b - 1);
    }
  }

  /** A word is determined by its digits. */
  lemma {:induction false} Extensionality(x: nat, y: nat, k: nat)
    requires x < Pow2(k) && y < Pow2(k)
    requires forall b: nat | b < k :: Bit(x, b) == Bit(y, b)
    ensures x == y
  {
    if k > 0 {
      assert Bit(x, 0) == Bit(y, 0);
      forall b: nat | b < k - 1
        ensures Bit(x / 2, b) == Bit(y / 2, b)
      {
        assert Bit(x, b + 1) == Bit(y, b + 1);
      }
      Extensionality(x / 2, y / 2, k - 1);
    }
  }

  lemma {:induction false} OrBound(x: nat, y: nat, k: nat)
    requires x < Pow2(k) && y < Pow2(k)
    ensures Or(x, y) < Pow2(k)
    decreases k
  {
    if k > 0 && (x > 0 || y > 0) {
      OrBound(x / 2, y / 2, k - 1);
    }
  }

  lemma {:induction false} AndBound(x: nat, y: nat)
    ensures And(x, y) <= x
    decreases x
  {
    if x > 0 { AndBound(x / 2, y / 2); }
  }

  lemma {:induction false} Pow2Monotone(a: nat, b: nat)
    requires a <= b
    ensures Pow2(a) <= Pow2(b)
    decreases b
  {
    if a < b { Pow2Monotone(a, b - 1); }
  }

  /** w >> k */
  function Shr(w: nat, k: nat): nat
  {
    if k == 0 then w else Shr(w / 2, k - 1)
  }

  /** w << k, before truncation. */
  function Shl(w: nat, k: nat): nat
  {
    if k == 0 then w else 2 * Shl(w, k - 1)
  }

  /** w & ((1 << k) - 1) */
  function Low(w: nat, k: nat): nat
  {
    if k == 0 then 0 else w % 2 + 2 * Low(w / 2, k - 1)
  }

  lemma {:induction false} BitShr(w: nat, k: nat, b: nat)
    ensures Bit(Shr(w, k), b) == Bit(w, b + k)
    decreases k
  {
    if k > 0 { BitShr(w / 2, k - 1, b); }
  }

  lemma {:induction false} BitShl(w: nat, k: nat, b: nat)
    ensures Bit(Shl(w, k), b) <==> b >= k && Bit(w, b - k)
    decreases k
  {
    if k > 0 && b > 0 { BitShl(w, k - 1, b - 1); }
  }

  lemma {:induction false} BitLow(w: nat, k: nat, b: nat)
    ensures Low(w, k) < Pow2(k)
    ensures Bit(Low(w, k), b) <==> b < k && Bit(w, b)
    decreases k
  {
    if k == 0 {
      BitOfZero(b);
    } else if b > 0 {
      BitLow(w / 2, k - 1, b - 1);
    } else {
      BitLow(w / 2, k - 1, 0);
    }
  }

  /** A number below 2^k has no digit at k or above. */
  lemma {:induction false} HighDigits(w: nat, k: nat, b: nat)
    requires w < Pow2(k) && k <= b
    ensures !Bit(w, b)
    decreases b
  {
    if w == 0 {
      BitOfZero(b);
    } else if k > 0 {
      HighDigits(w / 2, k - 1, b - 1);
    }
  }

  lemma {:induction false} ShlBound(w: nat, a: nat, k: nat)
    requires w < Pow2(a)
    ensures Shl(w, k) < Pow2(a + k)
    decreases k
  {
    if k > 0 { ShlBound(w, a, k - 1); }
  }
}
