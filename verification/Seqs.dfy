/** Sequences without repetition, the abstract view of the kernel's linked lists. */
module Seqs {
  ghost predicate Distinct(s: seq<nat>)
  {
    forall i, j | 0 <= i < j < |s| :: s[i] != s[j]
  }

  /** The sequence without its member at k. */
  function Without(s: seq<nat>, k: nat): seq<nat>
    requires k < |s|
  {
    s[..k] + s[k + 1..]
  }

  lemma WithoutAt(s: seq<nat>, k: nat)
    requires k < |s|
    ensures |Without(s, k)| == |s| - 1
    ensures forall i | 0 <= i < k :: Without(s, k)[i] == s[i]
    ensures forall i | k <= i < |s| - 1 :: Without(s, k)[i] == s[i + 1]
    ensures Distinct(s) ==> Distinct(Without(s, k))
  {
  }

  lemma WithoutMembers(s: seq<nat>, k: nat)
    requires k < |s| && Distinct(s)
    ensures forall p :: p in Without(s, k) <==> p in s && p != s[k]
  {
    forall p
      ensures p in Without(s, k) <==> p in s && p != s[k]
    {
      if p in s && p != s[k] {
        var i :| 0 <= i < |s| && s[i] == p;
        assert Without(s, k)[if i < k then i else i - 1] == p;
      }
    }
  }

  /** A sequence without repetition inside a set is no longer than the set is large, and as long only when
      it takes in the whole set. */
  lemma {:induction false} DistinctFits(s: seq<nat>, all: set<nat>)
    requires Distinct(s) && forall x | x in s :: x in all
    ensures |s| <= |all|
    ensures |s| == |all| <==> forall x | x in all :: x in s
  {
    if s == [] {
      if all != {} { var x :| x in all; }
    } else {
      var x := s[|s| - 1];
      var rest := s[..|s| - 1];
      assert forall y :: y in s <==> y == x || y in rest;
      DistinctFits(rest, all - {x});
    }
  }

  lemma {:induction false} SubsetSize<T>(s: set<T>, t: set<T>)
    requires s <= t
    ensures |s| <= |t|
    decreases |t|
  {
    if s != {} {
      var x :| x in s;
      SubsetSize(s - {x}, t - {x});
    }
  }
}
