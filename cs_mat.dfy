/**
 * The compressed sparse matrix container `CsMat`, as the kernels consume it:
 * its storage order, its dimensions, the outer iterator (one inner sparse vector
 * per outer index), and the two constructors the sparse product uses, `empty`
 * and `append_outer`.
 */
module CsMatrix {
  import opened Outcomes
  import opened SparseVec

  /** Row-major (the outer dimension is rows) or column-major (the outer dimension is columns). */
  datatype Storage = CSR | CSC

  /**
   * `indptr[o]..indptr[o + 1]` is the half-open range of positions in `indices`
   * and `data` that holds outer slice `o`.
   */
  datatype CsMat = CsMat(storage: Storage, rows: nat, cols: nat,
                         indptr: seq<nat>, indices: seq<nat>, data: seq<int>)

  function Outer(m: CsMat): nat {
    if m.storage == CSR then m.rows else m.cols
  }

  function Inner(m: CsMat): nat {
    if m.storage == CSR then m.cols else m.rows
  }

  predicate AscendingBetween(s: seq<nat>, lo: nat, hi: nat) {
    forall p, q :: lo <= p < q < hi && q < |s| ==> s[p] < s[q]
  }

  /** The structural invariant every constructed matrix satisfies. */
  predicate Valid(m: CsMat)
  {
    && |m.indptr| == Outer(m) + 1
    && m.indptr[Outer(m)] == |m.indices| == |m.data|
    && (forall p, q :: 0 <= p <= q < |m.indptr| ==> m.indptr[p] <= m.indptr[q])
    && (forall k :: 0 <= k < |m.indices| ==> m.indices[k] < Inner(m))
    && (forall o :: 0 <= o < Outer(m) ==> AscendingBetween(m.indices, m.indptr[o], m.indptr[o + 1]))
  }

  /**
   * What `Valid` guarantees the outer iterator: each outer slice's `indptr`
   * range lies within the stored entries.
   */
  lemma ValidSliceBounds(m: CsMat, o: nat)
    requires Valid(m) && o < Outer(m)
    ensures m.indptr[o] <= m.indptr[o + 1] <= |m.indices| == |m.data|
  {
    assert m.indptr[o + 1] <= m.indptr[Outer(m)];
  }

  /**
   * Outer slice `o` as an inner sparse vector: what `outer_iterator` yields
   * for outer index `o`. Its indices are in range and strictly ascending.
   */
  function Slice(m: CsMat, o: nat): (s: seq<(nat, int)>)
    requires Valid(m) && o < Outer(m)
    ensures |s| == m.indptr[o + 1] - m.indptr[o]
    ensures forall t :: 0 <= t < |s| ==> s[t] == (m.indices[m.indptr[o] + t], m.data[m.indptr[o] + t])
    ensures forall t :: 0 <= t < |s| ==> s[t].0 < Inner(m)
    ensures StrictlyAscending(s)
  {
    ValidSliceBounds(m, o);
    var lo, hi := m.indptr[o], m.indptr[o + 1];
    seq(hi - lo, t requires 0 <= t < hi - lo => (m.indices[lo + t], m.data[lo + t]))
  }

  /** Every outer slice in outer order: the whole of `outer_iterator`. */
  function OuterRows(m: CsMat): (rs: seq<seq<(nat, int)>>)
    requires Valid(m)
    ensures |rs| == Outer(m)
    ensures forall o :: 0 <= o < Outer(m) ==> rs[o] == Slice(m, o)
  {
    seq(Outer(m), o requires 0 <= o < Outer(m) => Slice(m, o))
  }

  /** `CsMat::empty`: a matrix with no outer slice and the given inner dimension. */
  function Empty(storage: Storage, innerDim: nat): (m: CsMat)
    ensures Valid(m) && m.storage == storage
    ensures Outer(m) == 0 && Inner(m) == innerDim
  {
    if storage == CSR then CsMat(CSR, 0, innerDim, [0], [], [])
    else CsMat(CSC, innerDim, 0, [0], [], [])
  }

  /**
   * Workspace compression: the occupied slots of a dense row of optional
   * accumulators, as (index, value) pairs in ascending index order
   * (`CompressFind`: exactly the occupied slots appear, each with its value).
   */
  function Compress(ws: seq<Option<int>>): (c: seq<(nat, int)>)
    ensures StrictlyAscending(c)
    ensures forall t :: 0 <= t < |c| ==> c[t].0 < |ws|
  {
    if |ws| == 0 then []
    else
      var n := |ws| - 1;
      var init := Compress(ws[..n]);
      assert forall j :: 0 <= j < n ==> ws[..n][j] == ws[j];
      if ws[n].Some? then
        var c := init + [(n, ws[n].value)];
        assert c[..|c| - 1] == init;
        c
      else init
  }

  /** The compressed workspace finds, at every index, exactly what the workspace slot holds. */
  lemma {:induction false} CompressFind(ws: seq<Option<int>>, j: nat)
    requires j < |ws|
    ensures Find(Compress(ws), j) == ws[j]
  {
    var n := |ws| - 1;
    var init := Compress(ws[..n]);
    if ws[n].Some? {
      var c := init + [(n, ws[n].value)];
      assert Compress(ws) == c;
      if j < n {
        assert c[..|c| - 1] == init;
        assert Find(c, j) == Find(init, j);
        CompressFind(ws[..n], j);
        assert ws[..n][j] == ws[j];
      } else {
        assert Find(c, j) == Some(ws[n].value);
      }
    } else {
      assert Compress(ws) == init;
      if j < n {
        CompressFind(ws[..n], j);
        assert ws[..n][j] == ws[j];
        assert Find(init, j) == ws[j];
      } else {
        assert forall t :: 0 <= t < |init| ==> init[t].0 != j;
      }
    }
  }

  function Keys(s: seq<(nat, int)>): (r: seq<nat>)
    ensures |r| == |s| && forall t :: 0 <= t < |s| ==> r[t] == s[t].0
  {
    seq(|s|, t requires 0 <= t < |s| => s[t].0)
  }

  function Values(s: seq<(nat, int)>): (r: seq<int>)
    ensures |r| == |s| && forall t :: 0 <= t < |s| ==> r[t] == s[t].1
  {
    seq(|s|, t requires 0 <= t < |s| => s[t].1)
  }

  /**
   * `append_outer(&workspace)`: the matrix with one more outer slice, holding the
   * compressed workspace. Earlier slices are untouched.
   */
  function AppendOuter(m: CsMat, ws: seq<Option<int>>): (r: CsMat)
    requires Valid(m) && |ws| == Inner(m)
    ensures Valid(r) && r.storage == m.storage
    ensures Outer(r) == Outer(m) + 1 && Inner(r) == Inner(m)
    ensures forall o :: 0 <= o < Outer(m) ==> Slice(r, o) == Slice(m, o)
    ensures Slice(r, Outer(m)) == Compress(ws)
  {
    var c := Compress(ws);
    var nnz := |m.indices|;
    var r := CsMat(m.storage,
                   if m.storage == CSR then m.rows + 1 else m.rows,
                   if m.storage == CSC then m.cols + 1 else m.cols,
                   m.indptr + [nnz + |c|], m.indices + Keys(c), m.data + Values(c));
    AppendOuterValid(m, c, r);
    AppendOuterSlices(m, c, r);
    r
  }

  lemma AppendOuterSlices(m: CsMat, c: seq<(nat, int)>, r: CsMat)
    requires Valid(m) && Valid(r) && r.storage == m.storage && Outer(r) == Outer(m) + 1
    requires r.indptr == m.indptr + [|m.indices| + |c|]
    requires r.indices == m.indices + Keys(c) && r.data == m.data + Values(c)
    ensures forall o :: 0 <= o < Outer(m) ==> Slice(r, o) == Slice(m, o)
    ensures Slice(r, Outer(m)) == c
  {
    var n := Outer(m);
    forall o | 0 <= o < n ensures Slice(r, o) == Slice(m, o) {
      assert r.indptr[o] == m.indptr[o] && r.indptr[o + 1] == m.indptr[o + 1];
      assert m.indptr[o + 1] <= |m.indices|;
      forall t | 0 <= t < |Slice(m, o)| ensures Slice(r, o)[t] == Slice(m, o)[t] {
        var k := m.indptr[o] + t;
        assert r.indices[k] == m.indices[k] && r.data[k] == m.data[k];
      }
    }
    assert r.indptr[n] == |m.indices| && r.indptr[n + 1] == |m.indices| + |c|;
    forall t | 0 <= t < |c| ensures Slice(r, n)[t] == c[t] {
      var k := |m.indices| + t;
      assert r.indices[k] == c[t].0 && r.data[k] == c[t].1;
    }
  }

  lemma AppendOuterValid(m: CsMat, c: seq<(nat, int)>, r: CsMat)
    requires Valid(m) && StrictlyAscending(c) && forall t :: 0 <= t < |c| ==> c[t].0 < Inner(m)
    requires r == CsMat(m.storage,
                        if m.storage == CSR then m.rows + 1 else m.rows,
                        if m.storage == CSC then m.cols + 1 else m.cols,
                        m.indptr + [|m.indices| + |c|], m.indices + Keys(c), m.data + Values(c))
    ensures Valid(r)
  {
    var nnz := |m.indices|;
    var n := Outer(m);
    assert Outer(r) == n + 1 && Inner(r) == Inner(m);
    forall o | 0 <= o < n + 1
      ensures AscendingBetween(r.indices, r.indptr[o], r.indptr[o + 1])
    {
      if o < n {
        assert r.indptr[o] == m.indptr[o] && r.indptr[o + 1] == m.indptr[o + 1] <= nnz;
        forall p, q | r.indptr[o] <= p < q < r.indptr[o + 1] && q < |r.indices|
          ensures r.indices[p] < r.indices[q]
        {
          assert r.indices[p] == m.indices[p] && r.indices[q] == m.indices[q];
        }
      } else {
        forall p, q | r.indptr[o] <= p < q < r.indptr[o + 1] && q < |r.indices|
          ensures r.indices[p] < r.indices[q]
        {
          assert r.indices[p] == c[p - nnz].0 && r.indices[q] == c[q - nnz].0;
        }
      }
    }
    forall p, q | 0 <= p <= q < |r.indptr| ensures r.indptr[p] <= r.indptr[q] {
      if q < n + 1 {
        assert r.indptr[p] == m.indptr[p] && r.indptr[q] == m.indptr[q];
      } else {
        assert r.indptr[p] <= nnz || p == n + 1;
      }
    }
    forall k | 0 <= k < |r.indices| ensures r.indices[k] < Inner(r) {
      if k >= nnz {
        assert r.indices[k] == c[k - nnz].0;
      }
    }
  }
}
