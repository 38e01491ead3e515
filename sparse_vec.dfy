/**
 * Inner sparse vectors: the (inner index, value) pairs of one outer slice of a
 * compressed matrix, and the intersection iterator `nnz_zip` that walks two of
 * them together.
 */
module SparseVec {
  import opened Outcomes

  /** Indices strictly increase along the vector (what a well-formed slice guarantees). */
  predicate StrictlyAscending(s: seq<(nat, int)>) {
    forall p, q :: 0 <= p < q < |s| ==> s[p].0 < s[q].0
  }

  /** The value stored at inner index `j`, searching from the back. */
  function Find(s: seq<(nat, int)>, j: nat): (r: Option<int>)
    ensures r.None? <==> forall p :: 0 <= p < |s| ==> s[p].0 != j
    ensures r.Some? ==> exists p :: 0 <= p < |s| && s[p] == (j, r.value)
  {
    if |s| == 0 then None
    else if s[|s| - 1].0 == j then Some(s[|s| - 1].1)
    else
      var r := Find(s[..|s| - 1], j);
      assert forall p :: 0 <= p < |s| - 1 ==> s[..|s| - 1][p] == s[p];
      r
  }

  /** In a strictly ascending vector, the entry at position `p` is the one found at its index. */
  lemma {:induction false} FindAt(s: seq<(nat, int)>, p: nat)
    requires StrictlyAscending(s) && p < |s|
    ensures Find(s, s[p].0) == Some(s[p].1)
  {
    if p < |s| - 1 {
      assert s[p].0 < s[|s| - 1].0;
      var init := s[..|s| - 1];
      assert init[p] == s[p];
      FindAt(init, p);
    }
  }

  /** Triples (shared index, left value, right value) with strictly increasing indices. */
  predicate ZipAscending(z: seq<(nat, int, int)>) {
    forall t, u :: 0 <= t < u < |z| ==> z[t].0 < z[u].0
  }

  /**
   * The sorted-merge intersection `nnz_zip`: walks both vectors in order and
   * yields (index, left value, right value) only for indices present in both,
   * so it is never longer than either vector.
   */
  function NnzZip(a: seq<(nat, int)>, b: seq<(nat, int)>): (z: seq<(nat, int, int)>)
    ensures |z| <= |a| && |z| <= |b|
    decreases |a| + |b|
  {
    if |a| == 0 || |b| == 0 then []
    else if a[0].0 < b[0].0 then NnzZip(a[1..], b)
    else if b[0].0 < a[0].0 then NnzZip(a, b[1..])
    else [(a[0].0, a[0].1, b[0].1)] + NnzZip(a[1..], b[1..])
  }

  /** Every triple the intersection yields pairs an entry of `a` with an entry of `b` at the same index. */
  lemma {:induction false} NnzZipPairs(a: seq<(nat, int)>, b: seq<(nat, int)>)
    ensures forall t :: 0 <= t < |NnzZip(a, b)| ==>
      exists p, q :: 0 <= p < |a| && 0 <= q < |b| && a[p] == (NnzZip(a, b)[t].0, NnzZip(a, b)[t].1) && b[q] == (NnzZip(a, b)[t].0, NnzZip(a, b)[t].2)
    decreases |a| + |b|
  {
    var z := NnzZip(a, b);
    if |a| == 0 || |b| == 0 {
    } else if a[0].0 < b[0].0 {
      NnzZipPairs(a[1..], b);
      assert forall p :: 0 <= p < |a| - 1 ==> a[1..][p] == a[p + 1];
    } else if b[0].0 < a[0].0 {
      NnzZipPairs(a, b[1..]);
      assert forall q :: 0 <= q < |b| - 1 ==> b[1..][q] == b[q + 1];
    } else {
      var rest := NnzZip(a[1..], b[1..]);
      NnzZipPairs(a[1..], b[1..]);
      assert forall p :: 0 <= p < |a| - 1 ==> a[1..][p] == a[p + 1];
      assert forall q :: 0 <= q < |b| - 1 ==> b[1..][q] == b[q + 1];
      assert forall t :: 1 <= t < |z| ==> z[t] == rest[t - 1];
      assert z[0] == (a[0].0, a[0].1, b[0].1);
    }
  }

  /** Every index the intersection yields is an index of `a`, so it respects any lower bound of `a`'s indices. */
  lemma {:induction false} NnzZipLowerBound(a: seq<(nat, int)>, b: seq<(nat, int)>, lo: nat)
    requires forall p :: 0 <= p < |a| ==> lo <= a[p].0
    ensures forall t :: 0 <= t < |NnzZip(a, b)| ==> lo <= NnzZip(a, b)[t].0
    decreases |a| + |b|
  {
    if |a| == 0 || |b| == 0 {
    } else {
      assert forall p :: 0 <= p < |a| - 1 ==> a[1..][p] == a[p + 1];
      if a[0].0 < b[0].0 {
        NnzZipLowerBound(a[1..], b, lo);
      } else if b[0].0 < a[0].0 {
        NnzZipLowerBound(a, b[1..], lo);
      } else {
        NnzZipLowerBound(a[1..], b[1..], lo);
      }
    }
  }

  /** Dropping the first entry keeps a vector strictly ascending. */
  lemma AscendingTail(a: seq<(nat, int)>)
    requires StrictlyAscending(a) && |a| > 0
    ensures StrictlyAscending(a[1..])
    ensures forall p :: 0 <= p < |a| - 1 ==> a[0].0 < a[1..][p].0
  {
    forall p, q | 0 <= p < q < |a| - 1 ensures a[1..][p].0 < a[1..][q].0 {
      assert a[1..][p] == a[p + 1] && a[1..][q] == a[q + 1];
    }
    forall p | 0 <= p < |a| - 1 ensures a[0].0 < a[1..][p].0 {
      assert a[1..][p] == a[p + 1];
    }
  }

  /** On strictly ascending inputs the intersection comes out strictly ascending. */
  lemma {:induction false} NnzZipAscending(a: seq<(nat, int)>, b: seq<(nat, int)>)
    requires StrictlyAscending(a) && StrictlyAscending(b)
    ensures ZipAscending(NnzZip(a, b))
    decreases |a| + |b|
  {
    if |a| == 0 || |b| == 0 {
    } else if a[0].0 < b[0].0 {
      AscendingTail(a);
      NnzZipAscending(a[1..], b);
    } else if b[0].0 < a[0].0 {
      AscendingTail(b);
      NnzZipAscending(a, b[1..]);
    } else {
      var z, rest := NnzZip(a, b), NnzZip(a[1..], b[1..]);
      AscendingTail(a);
      AscendingTail(b);
      NnzZipAscending(a[1..], b[1..]);
      NnzZipLowerBound(a[1..], b[1..], a[0].0 + 1);
      assert z == [(a[0].0, a[0].1, b[0].1)] + rest;
      forall t, u | 0 <= t < u < |z| ensures z[t].0 < z[u].0 {
        assert z[u] == rest[u - 1];
        if t > 0 {
          assert z[t] == rest[t - 1];
        }
      }
    }
  }

  /** On strictly ascending inputs every index present in both vectors is yielded, with both values. */
  lemma {:induction false} NnzZipComplete(a: seq<(nat, int)>, b: seq<(nat, int)>, p: nat, q: nat)
    requires StrictlyAscending(a) && StrictlyAscending(b)
    requires p < |a| && q < |b| && a[p].0 == b[q].0
    ensures exists t :: 0 <= t < |NnzZip(a, b)| && NnzZip(a, b)[t] == (a[p].0, a[p].1, b[q].1)
    decreases |a| + |b|
  {
    if a[0].0 < b[0].0 {
      assert b[0].0 <= b[q].0;
      assert p != 0;
      assert a[1..][p - 1] == a[p];
      assert NnzZip(a, b) == NnzZip(a[1..], b);
      NnzZipComplete(a[1..], b, p - 1, q);
    } else if b[0].0 < a[0].0 {
      assert a[0].0 <= a[p].0;
      assert q != 0;
      assert b[1..][q - 1] == b[q];
      assert NnzZip(a, b) == NnzZip(a, b[1..]);
      NnzZipComplete(a, b[1..], p, q - 1);
    } else {
      var z := NnzZip(a, b);
      var rest := NnzZip(a[1..], b[1..]);
      assert z == [(a[0].0, a[0].1, b[0].1)] + rest;
      if p == 0 {
        assert q == 0;
        assert z[0] == (a[p].0, a[p].1, b[q].1);
      } else {
        assert a[0].0 < a[p].0;
        assert q != 0;
        assert a[1..][p - 1] == a[p];
        assert b[1..][q - 1] == b[q];
        NnzZipComplete(a[1..], b[1..], p - 1, q - 1);
        var t :| 0 <= t < |rest| && rest[t] == (a[p].0, a[p].1, b[q].1);
        assert z[t + 1] == rest[t];
      }
    }
  }
}
