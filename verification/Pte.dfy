/** Page-table entries (src/vmm/vmm_internal.h).  An entry is a u64; the rest of the model works on
    the record `Pte` of its fields.  This module proves that the record is an exact picture of the
    word, and that the mask-and-or expressions of vmm.c act on the record as field updates. */
module Ptes {
  import opened Bits
  import opened Pmm

  /** PRESENT, WRITE, USER, HUGE, COW and NX, the 40-bit frame number, and the other bits in place. */
  datatype Pte = Pte(present: bool, write: bool, user: bool, huge: bool, cow: bool, nx: bool,
                     frame: nat, rest: nat)

  const FRAME_BITS: nat := 40
  const BIT_PRESENT: nat := 0
  const BIT_WRITE: nat := 1
  const BIT_USER: nat := 2
  const BIT_HUGE: nat := 7
  const BIT_COW: nat := 9
  const BIT_NX: nat := 63
  const BIT_FRAME: nat := 12

  const PTE_PRESENT: nat := Pow2(BIT_PRESENT)
  const PTE_WRITE: nat := Pow2(BIT_WRITE)
  const PTE_COW: nat := Pow2(BIT_COW)

  /** 0x000FFFFFFFFFF000: forty ones from bit 12. */
  const PTE_ADDR_MASK: nat := Shl(Pow2(FRAME_BITS) - 1, BIT_FRAME)

  predicate InFrame(b: nat) { BIT_FRAME <= b < BIT_FRAME + FRAME_BITS }

  predicate InRest(b: nat)
  {
    && b < WORD_BITS && !InFrame(b)
    && b != BIT_PRESENT && b != BIT_WRITE && b != BIT_USER && b != BIT_HUGE && b != BIT_COW && b != BIT_NX
  }

  /** The bits of w that no named field covers. */
  function RestOf(w: nat): nat
  {
    RestBelow(w, WORD_BITS)
  }

  function RestBelow(w: nat, k: nat): nat
  {
    if k == 0 then 0
    else RestBelow(w, k - 1) + (if InRest(k - 1) && Bit(w, k - 1) then Pow2(k - 1) else 0)
  }

  function Decode(w: nat): Pte
  {
    Pte(Bit(w, BIT_PRESENT), Bit(w, BIT_WRITE), Bit(w, BIT_USER), Bit(w, BIT_HUGE), Bit(w, BIT_COW),
        Bit(w, BIT_NX), Low(Shr(w, BIT_FRAME), FRAME_BITS), RestOf(w))
  }

  /** The word of a record: frame | flags. */
  function Encode(p: Pte): nat
  {
    Or(Shl(p.frame, BIT_FRAME), Or(p.rest, FlagWord(p)))
  }

  function FlagWord(p: Pte): nat
  {
    Or(One(p.present, BIT_PRESENT), Or(One(p.write, BIT_WRITE), Or(One(p.user, BIT_USER),
    Or(One(p.huge, BIT_HUGE), Or(One(p.cow, BIT_COW), One(p.nx, BIT_NX))))))
  }

  function One(set_: bool, b: nat): nat
  {
    if set_ then Pow2(b) else 0
  }

  /** A record some u64 has. */
  ghost predicate WellFormed(p: Pte)
  {
    && p.frame < Pow2(FRAME_BITS)
    && p.rest < Pow2(WORD_BITS)
    && forall b: nat | Bit(p.rest, b) :: InRest(b)
  }

  /** The digit of the word of p at b. */
  predicate Digit(p: Pte, b: nat)
  {
    if InFrame(b) then Bit(p.frame, b - BIT_FRAME)
    else if b == BIT_PRESENT then p.present
    else if b == BIT_WRITE then p.write
    else if b == BIT_USER then p.user
    else if b == BIT_HUGE then p.huge
    else if b == BIT_COW then p.cow
    else if b == BIT_NX then p.nx
    else b < WORD_BITS && Bit(p.rest, b)
  }

  lemma {:induction false} RestBelowDigits(w: nat, k: nat, b: nat)
    ensures RestBelow(w, k) < Pow2(k)
    ensures Bit(RestBelow(w, k), b) <==> b < k && InRest(b) && Bit(w, b)
    decreases k
  {
    if k == 0 {
      BitOfZero(b);
    } else {
      RestBelowDigits(w, k - 1, b);
      if InRest(k - 1) && Bit(w, k - 1) {
        AddTop(RestBelow(w, k - 1), k - 1, b);
      } else if b == k - 1 {
      }
    }
  }

  /** Adding 2^k to a number below 2^k sets digit k. */
  lemma {:induction false} AddTop(x: nat, k: nat, b: nat)
    requires x < Pow2(k)
    ensures Bit(x + Pow2(k), b) <==> b == k || Bit(x, b)
    decreases k
  {
    if k > 0 {
      var p := Pow2(k - 1);
      assert (x + 2 * p) / 2 == x / 2 + p && (x + 2 * p) % 2 == x % 2;
      if b > 0 { AddTop(x / 2, k - 1, b - 1); }
    } else if b > 0 {
      BitOfZero(b - 1);
    }
  }

  lemma FrameDigits(w: nat, b: nat)
    requires b < FRAME_BITS
    ensures Bit(Low(Shr(w, BIT_FRAME), FRAME_BITS), b) == Bit(w, b + BIT_FRAME)
  {
    BitLow(Shr(w, BIT_FRAME), FRAME_BITS, b);
    BitShr(w, BIT_FRAME, b);
  }

  /** The digits of a word are those its record shows. */
  lemma DecodeDigits(w: nat, b: nat)
    requires b < WORD_BITS
    ensures Digit(Decode(w), b) == Bit(w, b)
  {
    hide Bit, Pow2, Low, Shr, RestOf;
    if InFrame(b) {
      FrameDigits(w, b - BIT_FRAME);
    } else if InRest(b) {
      RestDigits(w, b);
    }
  }

  lemma RestDigits(w: nat, b: nat)
    requires InRest(b)
    ensures Bit(RestOf(w), b) == Bit(w, b)
  {
    RestBelowDigits(w, WORD_BITS, b);
  }

  lemma DecodeWellFormed(w: nat)
    ensures WellFormed(Decode(w))
  {
    RestBelowDigits(w, WORD_BITS, 0);
    BitLow(Shr(w, BIT_FRAME), FRAME_BITS, 0);
    forall b: nat | Bit(RestOf(w), b)
      ensures InRest(b)
    {
      RestBelowDigits(w, WORD_BITS, b);
    }
  }

  /** No two words share a record. */
  lemma DecodeInjective(v: nat, w: nat)
    requires v < Pow2(WORD_BITS) && w < Pow2(WORD_BITS)
    requires Decode(v) == Decode(w)
    ensures v == w
  {
    forall b: nat | b < WORD_BITS
      ensures Bit(v, b) == Bit(w, b)
    {
      DecodeDigits(v, b);
      DecodeDigits(w, b);
    }
    Extensionality(v, w, WORD_BITS);
  }

  /** Two records with the same digits are the same. */
  lemma SameDigits(p: Pte, q: Pte)
    requires WellFormed(p) && WellFormed(q)
    requires forall b: nat | b < WORD_BITS :: Digit(p, b) == Digit(q, b)
    ensures p == q
  {
    hide Bit, Pow2;
    assert Digit(p, BIT_PRESENT) == Digit(q, BIT_PRESENT);
    assert Digit(p, BIT_WRITE) == Digit(q, BIT_WRITE);
    assert Digit(p, BIT_USER) == Digit(q, BIT_USER);
    assert Digit(p, BIT_HUGE) == Digit(q, BIT_HUGE);
    assert Digit(p, BIT_COW) == Digit(q, BIT_COW);
    assert Digit(p, BIT_NX) == Digit(q, BIT_NX);
    forall b: nat | b < FRAME_BITS
      ensures Bit(p.frame, b) == Bit(q.frame, b)
    {
      assert Digit(p, b + BIT_FRAME) == Digit(q, b + BIT_FRAME);
    }
    Extensionality(p.frame, q.frame, FRAME_BITS);
    forall b: nat | b < WORD_BITS
      ensures Bit(p.rest, b) == Bit(q.rest, b)
    {
      assert Digit(p, b) == Digit(q, b);
    }
    Extensionality(p.rest, q.rest, WORD_BITS);
  }

  /** w is the word of p. */
  ghost predicate Shows(w: nat, p: Pte)
  {
    WellFormed(p) && forall b: nat | b < WORD_BITS :: Bit(w, b) == Digit(p, b)
  }

  lemma DecodeShows(w: nat)
    ensures Shows(w, Decode(w))
  {
    DecodeWellFormed(w);
    forall b: nat | b < WORD_BITS
      ensures Bit(w, b) == Digit(Decode(w), b)
    {
      DecodeDigits(w, b);
    }
  }

  /** A word whose digits are those of p decodes to p. */
  lemma DecodeIs(w: nat, p: Pte)
    requires Shows(w, p)
    ensures Decode(w) == p
  {
    DecodeShows(w);
    SameDigits(Decode(w), p);
  }

  lemma OneDigits(set_: bool, k: nat, b: nat)
    ensures Bit(One(set_, k), b) <==> set_ && b == k
  {
    BitPow2(k, b);
    BitOfZero(b);
  }

  lemma FlagDigits(p: Pte, b: nat)
    ensures Bit(FlagWord(p), b) <==>
      || (p.present && b == BIT_PRESENT) || (p.write && b == BIT_WRITE) || (p.user && b == BIT_USER)
      || (p.huge && b == BIT_HUGE) || (p.cow && b == BIT_COW) || (p.nx && b == BIT_NX)
  {
    hide Bit, Or, And, Not, Pow2, Shl;
    var w5 := One(p.nx, BIT_NX);
    var w4 := Or(One(p.cow, BIT_COW), w5);
    var w3 := Or(One(p.huge, BIT_HUGE), w4);
    var w2 := Or(One(p.user, BIT_USER), w3);
    var w1 := Or(One(p.write, BIT_WRITE), w2);
    BitOr(One(p.present, BIT_PRESENT), w1, b);
    BitOr(One(p.write, BIT_WRITE), w2, b);
    BitOr(One(p.user, BIT_USER), w3, b);
    BitOr(One(p.huge, BIT_HUGE), w4, b);
    BitOr(One(p.cow, BIT_COW), w5, b);
    OneDigits(p.present, BIT_PRESENT, b);
    OneDigits(p.write, BIT_WRITE, b);
    OneDigits(p.user, BIT_USER, b);
    OneDigits(p.huge, BIT_HUGE, b);
    OneDigits(p.cow, BIT_COW, b);
    OneDigits(p.nx, BIT_NX, b);
  }

  /** The digits of an address word: only the frame field. */
  lemma AddressDigits(f: nat, b: nat)
    requires f < Pow2(FRAME_BITS)
    ensures Bit(Shl(f, BIT_FRAME), b) <==> InFrame(b) && Bit(f, b - BIT_FRAME)
  {
    hide Bit, Shl, Pow2;
    BitShl(f, BIT_FRAME, b);
    if b >= BIT_FRAME + FRAME_BITS {
      HighDigits(f, FRAME_BITS, b - BIT_FRAME);
    }
  }

  /** Every well-formed record is the record of its word. */
  lemma DecodeEncode(p: Pte)
    requires WellFormed(p)
    ensures Decode(Encode(p)) == p
  {
    hide Bit, Or, And, Not, Pow2, Shl;
    forall b: nat | b < WORD_BITS
      ensures Bit(Encode(p), b) == Digit(p, b)
    {
      BitOr(Shl(p.frame, BIT_FRAME), Or(p.rest, FlagWord(p)), b);
      BitOr(p.rest, FlagWord(p), b);
      AddressDigits(p.frame, b);
      FlagDigits(p, b);
    }
    DecodeIs(Encode(p), p);
  }

  lemma MaskDigits(b: nat)
    ensures Bit(PTE_ADDR_MASK, b) <==> InFrame(b)
  {
    hide Bit, Shl, Pow2;
    AddressDigits(Pow2(FRAME_BITS) - 1, b);
    if InFrame(b) {
      BitNot(0, FRAME_BITS, b - BIT_FRAME);
      BitOfZero(b - BIT_FRAME);
    }
  }

  lemma MaskSmall()
    ensures PTE_ADDR_MASK < Pow2(WORD_BITS)
    ensures PTE_WRITE < Pow2(WORD_BITS) && PTE_COW < Pow2(WORD_BITS)
    ensures Or(PTE_ADDR_MASK, PTE_COW) < Pow2(WORD_BITS)
  {
    hide Or, Shl, Pow2;
    AddressMaskSmall();
    Pow2Small(BIT_WRITE);
    Pow2Small(BIT_COW);
    OrBound(PTE_ADDR_MASK, PTE_COW, WORD_BITS);
  }

  lemma AddressMaskSmall()
    ensures PTE_ADDR_MASK < Pow2(WORD_BITS)
  {
    hide Shl, Pow2;
    ShlBound(Pow2(FRAME_BITS) - 1, FRAME_BITS, BIT_FRAME);
    Pow2Monotone(FRAME_BITS + BIT_FRAME, WORD_BITS);
  }

  /** The digits ~(PTE_ADDR_MASK | PTE_COW) keeps. */
  lemma KeepDigits(b: nat)
    requires b < WORD_BITS
    ensures Or(PTE_ADDR_MASK, PTE_COW) < Pow2(WORD_BITS)
    ensures Bit(Not(Or(PTE_ADDR_MASK, PTE_COW), WORD_BITS), b) <==> !InFrame(b) && b != BIT_COW
  {
    hide Bit, Or, And, Not, Pow2, Shl;
    MaskSmall();
    BitNot(Or(PTE_ADDR_MASK, PTE_COW), WORD_BITS, b);
    BitOr(PTE_ADDR_MASK, PTE_COW, b);
    MaskDigits(b);
    BitPow2(BIT_COW, b);
  }

  /** (e & ~PTE_WRITE) | PTE_COW, as written by cow_clone_pt. */
  function MarkCowWord(e: nat): nat
  {
    MaskSmall();
    Or(And(e, Not(PTE_WRITE, WORD_BITS)), PTE_COW)
  }

  lemma MarkCowShows(e: nat, p: Pte)
    requires Shows(e, p)
    ensures Shows(MarkCowWord(e), p.(write := false, cow := true))
  {
    hide Bit, Or, And, Not, Pow2, Shl;
    MaskSmall();
    var m := Not(PTE_WRITE, WORD_BITS);
    forall b: nat | b < WORD_BITS
      ensures Bit(MarkCowWord(e), b) == Digit(p.(write := false, cow := true), b)
    {
      BitOr(And(e, m), PTE_COW, b);
      BitAnd(e, m, b);
      BitNot(PTE_WRITE, WORD_BITS, b);
      BitPow2(BIT_WRITE, b);
      BitPow2(BIT_COW, b);
    }
  }

  lemma MarkCowIsFieldUpdate(e: nat)
    ensures Decode(MarkCowWord(e)) == Decode(e).(write := false, cow := true)
  {
    DecodeShows(e);
    MarkCowShows(e, Decode(e));
    DecodeIs(MarkCowWord(e), Decode(e).(write := false, cow := true));
  }

  /** (e & ~PTE_ADDR_MASK) | new_table, as written by cow_clone_pdt, cow_clone_pdpt, vmm_fork_pml4. */
  function RelocateWord(e: nat, phys: nat): nat
  {
    MaskSmall();
    Or(And(e, Not(PTE_ADDR_MASK, WORD_BITS)), phys)
  }

  lemma RelocateShows(e: nat, f: nat, p: Pte)
    requires Shows(e, p) && f < Pow2(FRAME_BITS)
    ensures Shows(RelocateWord(e, Shl(f, BIT_FRAME)), p.(frame := f))
  {
    hide Bit, Or, And, Not, Pow2, Shl;
    MaskSmall();
    var m := Not(PTE_ADDR_MASK, WORD_BITS);
    var a := Shl(f, BIT_FRAME);
    forall b: nat | b < WORD_BITS
      ensures Bit(RelocateWord(e, a), b) == Digit(p.(frame := f), b)
    {
      BitOr(And(e, m), a, b);
      BitAnd(e, m, b);
      BitNot(PTE_ADDR_MASK, WORD_BITS, b);
      MaskDigits(b);
      AddressDigits(f, b);
    }
  }

  lemma RelocateIsFieldUpdate(e: nat, f: nat)
    requires f < Pow2(FRAME_BITS)
    ensures Decode(RelocateWord(e, Shl(f, BIT_FRAME))) == Decode(e).(frame := f)
  {
    DecodeShows(e);
    RelocateShows(e, f, Decode(e));
    DecodeIs(RelocateWord(e, Shl(f, BIT_FRAME)), Decode(e).(frame := f));
  }

  /** (*pte & ~(PTE_ADDR_MASK | PTE_COW)) | new_phys | PTE_WRITE, as written by cow_handle. */
  function CowRemapWord(e: nat, phys: nat): nat
  {
    MaskSmall();
    Or(Or(And(e, Not(Or(PTE_ADDR_MASK, PTE_COW), WORD_BITS)), phys), PTE_WRITE)
  }

  lemma CowRemapShows(e: nat, f: nat, p: Pte)
    requires Shows(e, p) && f < Pow2(FRAME_BITS)
    ensures Shows(CowRemapWord(e, Shl(f, BIT_FRAME)), p.(frame := f, cow := false, write := true))
  {
    hide Bit, Or, And, Not, Pow2, Shl;
    MaskSmall();
    var m := Not(Or(PTE_ADDR_MASK, PTE_COW), WORD_BITS);
    var a := Shl(f, BIT_FRAME);
    forall b: nat | b < WORD_BITS
      ensures Bit(CowRemapWord(e, a), b) == Digit(p.(frame := f, cow := false, write := true), b)
    {
      BitOr(Or(And(e, m), a), PTE_WRITE, b);
      BitOr(And(e, m), a, b);
      BitAnd(e, m, b);
      KeepDigits(b);
      BitPow2(BIT_WRITE, b);
      AddressDigits(f, b);
    }
  }

  lemma CowRemapIsFieldUpdate(e: nat, f: nat)
    requires f < Pow2(FRAME_BITS)
    ensures Decode(CowRemapWord(e, Shl(f, BIT_FRAME))) == Decode(e).(frame := f, cow := false, write := true)
  {
    DecodeShows(e);
    CowRemapShows(e, f, Decode(e));
    DecodeIs(CowRemapWord(e, Shl(f, BIT_FRAME)), Decode(e).(frame := f, cow := false, write := true));
  }

  /** (phys & PTE_ADDR_MASK) | flags | PTE_PRESENT, as written by vmm_map_user_page. */
  function MapWord(phys: nat, flags: nat): nat
  {
    Or(Or(And(phys, PTE_ADDR_MASK), flags), PTE_PRESENT)
  }

  lemma MapShows(f: nat, flags: nat, p: Pte)
    requires Shows(flags, p) && p.frame == 0 && f < Pow2(FRAME_BITS)
    ensures Shows(MapWord(Shl(f, BIT_FRAME), flags), p.(frame := f, present := true))
  {
    hide Bit, Or, And, Not, Pow2, Shl;
    var a := Shl(f, BIT_FRAME);
    forall b: nat | b < WORD_BITS
      ensures Bit(MapWord(a, flags), b) == Digit(p.(frame := f, present := true), b)
    {
      BitOr(Or(And(a, PTE_ADDR_MASK), flags), PTE_PRESENT, b);
      BitOr(And(a, PTE_ADDR_MASK), flags, b);
      BitAnd(a, PTE_ADDR_MASK, b);
      MaskDigits(b);
      BitPow2(BIT_PRESENT, b);
      AddressDigits(f, b);
      if InFrame(b) { BitOfZero(b - BIT_FRAME); }
    }
  }

  /** For a frame address and flags outside the frame field the entry is the flags with the frame. */
  lemma MapIsFieldUpdate(f: nat, flags: nat)
    requires f < Pow2(FRAME_BITS) && Decode(flags).frame == 0
    ensures Decode(MapWord(Shl(f, BIT_FRAME), flags)) == Decode(flags).(frame := f, present := true)
  {
    DecodeShows(flags);
    MapShows(f, flags, Decode(flags));
    DecodeIs(MapWord(Shl(f, BIT_FRAME), flags), Decode(flags).(frame := f, present := true));
  }
}
