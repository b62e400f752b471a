/** The run queue of src/scheduler/scheduler.c: a circular list threaded through the `next` fields of the
    process table, seen as the sequence of its members from the head on. */
module RunRing {
  import opened Seqs

  const PROC_MAX: nat := 64

  /** next[i] is the successor of process i, -1 for none. */
  ghost predicate IsRing(next: seq<int>, ring: seq<nat>)
  {
    && |next| == PROC_MAX && |ring| > 0
    && (forall i | 0 <= i < |ring| :: ring[i] < PROC_MAX)
    && Distinct(ring)
    && (forall i | 0 <= i < |ring| :: next[ring[i]] == ring[Succ(i, |ring|)])
  }

  function Succ(i: nat, n: nat): (j: nat)
    requires i < n
    ensures j < n
  {
    if i + 1 < n then i + 1 else 0
  }

  // ----- The three ways the queue changes

  /** scheduler_add: after the head. */
  function Inserted(ring: seq<nat>, p: nat): seq<nat>
    requires |ring| > 0
  {
    [ring[0], p] + ring[1..]
  }

  lemma InsertKeepsRing(next: seq<int>, ring: seq<nat>, p: nat)
    requires IsRing(next, ring) && p < PROC_MAX && p !in ring
    ensures IsRing(next[p := next[ring[0]]][ring[0] := p], Inserted(ring, p))
  {
    var next' := next[p := next[ring[0]]][ring[0] := p];
    var ring' := Inserted(ring, p);
    forall i, j | 0 <= i < j < |ring'|
      ensures ring'[i] != ring'[j]
    {
      assert i >= 2 ==> ring'[i] == ring[i - 1];
      assert j >= 2 ==> ring'[j] == ring[j - 1];
    }
    forall i | 0 <= i < |ring'|
      ensures ring'[i] < PROC_MAX && next'[ring'[i]] == ring'[Succ(i, |ring'|)]
    {
      if i >= 2 { assert ring'[i] == ring[i - 1] && ring[i - 1] != ring[0]; }
    }
  }

  lemma InsertMembers(ring: seq<nat>, p: nat)
    requires |ring| > 0
    ensures forall q :: q in Inserted(ring, p) <==> q == p || q in ring
  {
    forall q
      ensures q in Inserted(ring, p) <==> q == p || q in ring
    {
      assert ring == [ring[0]] + ring[1..];
    }
  }

  /** The queue seen from its member at k. */
  function Rotated(ring: seq<nat>, k: nat): (r: seq<nat>)
    requires k <= |ring|
    ensures |r| == |ring|
  {
    ring[k..] + ring[..k]
  }

  lemma RotateMembers(ring: seq<nat>, k: nat)
    requires k < |ring|
    ensures Rotated(ring, k)[0] == ring[k]
    ensures forall p :: p in Rotated(ring, k) <==> p in ring
  {
    var ring' := Rotated(ring, k);
    forall p
      ensures p in ring' <==> p in ring
    {
      if p in ring {
        var i :| 0 <= i < |ring| && ring[i] == p;
        assert ring'[if i >= k then i - k else i - k + |ring|] == p;
      }
    }
  }

  lemma RotatedAt(ring: seq<nat>, k: nat, i: nat)
    requires k < |ring| && i < |ring|
    ensures Rotated(ring, k)[i] == ring[if i + k < |ring| then i + k else i + k - |ring|]
  {
  }

  lemma RotateDistinct(ring: seq<nat>, k: nat)
    requires k < |ring| && Distinct(ring)
    ensures Distinct(Rotated(ring, k))
  {
    hide Rotated;
    var ring' := Rotated(ring, k);
    forall i, j | 0 <= i < j < |ring'|
      ensures ring'[i] != ring'[j]
    {
      RotatedAt(ring, k, i);
      RotatedAt(ring, k, j);
    }
  }

  lemma RotateKeepsRing(next: seq<int>, ring: seq<nat>, k: nat)
    requires IsRing(next, ring) && k < |ring|
    ensures IsRing(next, Rotated(ring, k)) && Rotated(ring, k)[0] == ring[k]
    ensures forall p :: p in Rotated(ring, k) <==> p in ring
  {
    hide Rotated;
    RotateMembers(ring, k);
    RotateDistinct(ring, k);
    var ring' := Rotated(ring, k);
    forall i | 0 <= i < |ring'|
      ensures ring'[i] < PROC_MAX && next[ring'[i]] == ring'[Succ(i, |ring'|)]
    {
      RotatedAt(ring, k, i);
      RotatedAt(ring, k, Succ(i, |ring'|));
    }
  }

  lemma RemoveKeepsRing(next: seq<int>, ring: seq<nat>, k: nat)
    requires IsRing(next, ring) && 0 < k < |ring|
    ensures IsRing(next[ring[k - 1] := next[ring[k]]][ring[k] := -1], Without(ring, k))
    ensures forall p :: p in Without(ring, k) <==> p in ring && p != ring[k]
  {
    hide Without;
    var next' := next[ring[k - 1] := next[ring[k]]][ring[k] := -1];
    var ring' := Without(ring, k);
    WithoutAt(ring, k);
    WithoutMembers(ring, k);
    forall i | 0 <= i < |ring'|
      ensures next'[ring'[i]] == ring'[Succ(i, |ring'|)]
    {
      var o := if i < k then i else i + 1;
      assert ring'[i] == ring[o];
      if i == k - 1 {
        assert next'[ring'[i]] == next[ring[k]];
      } else {
        assert next'[ring'[i]] == next[ring[o]];
      }
    }
  }

  // ----- Distance from the head

  ghost function IndexOf(ring: seq<nat>, p: nat): (i: nat)
    requires p in ring
    ensures i < |ring| && ring[i] == p
  {
    var i: nat :| i < |ring| && ring[i] == p;
    i
  }

  lemma IndexIs(ring: seq<nat>, p: nat, i: nat)
    requires Distinct(ring) && i < |ring| && ring[i] == p
    ensures p in ring && IndexOf(ring, p) == i
  {
  }

  lemma InsertIndex(ring: seq<nat>, q: nat, p: nat)
    requires |ring| > 0 && Distinct(ring) && Distinct(Inserted(ring, q)) && p in ring && p != ring[0]
    ensures p in Inserted(ring, q) && IndexOf(Inserted(ring, q), p) == IndexOf(ring, p) + 1
  {
    IndexIs(Inserted(ring, q), p, IndexOf(ring, p) + 1);
  }

  lemma RotateIndex(ring: seq<nat>, k: nat, p: nat)
    requires Distinct(ring) && k <= |ring| && Distinct(Rotated(ring, k)) && p in ring && k <= IndexOf(ring, p)
    ensures p in Rotated(ring, k) && IndexOf(Rotated(ring, k), p) == IndexOf(ring, p) - k
  {
    IndexIs(Rotated(ring, k), p, IndexOf(ring, p) - k);
  }

  lemma RemoveIndex(ring: seq<nat>, k: nat, p: nat)
    requires k < |ring| && Distinct(ring) && Distinct(Without(ring, k)) && p in ring && p != ring[k]
    ensures p in Without(ring, k) && IndexOf(Without(ring, k), p) <= IndexOf(ring, p)
  {
    var i := IndexOf(ring, p);
    IndexIs(Without(ring, k), p, if i < k then i else i - 1);
  }
}
