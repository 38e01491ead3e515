/**
 * The dense meaning of a compressed matrix and the reference matrix-vector
 * product `out + M * v` that both accumulation kernels are proved to compute.
 */
module DenseRef {
  import opened Outcomes
  import opened SparseVec
  import opened CsMatrix

  /** The sum of the values stored at inner index `j` (zero when there are none). */
  function SliceSum(s: seq<(nat, int)>, j: nat): int {
    if |s| == 0 then 0
    else SliceSum(s[..|s| - 1], j) + (if s[|s| - 1].0 == j then s[|s| - 1].1 else 0)
  }

  /** In a well-formed slice the dense entry is the stored value, or zero where nothing is stored. */
  lemma {:induction false} SliceSumIsStoredValue(s: seq<(nat, int)>, j: nat)
    requires StrictlyAscending(s)
    ensures SliceSum(s, j) == match Find(s, j) case None => 0 case Some(x) => x
  {
    if |s| > 0 {
      var init := s[..|s| - 1];
      assert forall p :: 0 <= p < |init| ==> init[p] == s[p];
      SliceSumIsStoredValue(init, j);
      if s[|s| - 1].0 == j {
        assert Find(init, j) == None;
      }
    }
  }

  /** The gather-dot of a sparse vector with a dense one: the sum of `v[index] * value`. */
  function SliceDot(s: seq<(nat, int)>, v: seq<int>): int
    requires forall t :: 0 <= t < |s| ==> s[t].0 < |v|
  {
    if |s| == 0 then 0
    else SliceDot(s[..|s| - 1], v) + v[s[|s| - 1].0] * s[|s| - 1].1
  }

  /** The dense dot product of `a` with the first `|a|` entries of `v`. */
  function Dot(a: seq<int>, v: seq<int>): int
    requires |a| <= |v|
  {
    if |a| == 0 then 0
    else Dot(a[..|a| - 1], v) + a[|a| - 1] * v[|a| - 1]
  }

  /** Distributivity, kept apart so that callers do not reason about it in a large context. */
  lemma MulAddDistrib(a: int, b: int, c: int)
    ensures a * (b + c) == a * b + a * c
  {
  }

  /** The sparse vector `s` written out densely over `n` coordinates. */
  function Densify(s: seq<(nat, int)>, n: nat): (d: seq<int>)
    ensures |d| == n
  {
    seq(n, c requires 0 <= c < n => SliceSum(s, c))
  }

  /** The logical value at row `r`, column `c`, whichever the storage order. */
  function Entry(m: CsMat, r: nat, c: nat): int
    requires Valid(m) && r < m.rows && c < m.cols
  {
    if m.storage == CSR then SliceSum(Slice(m, r), c) else SliceSum(Slice(m, c), r)
  }

  /** Row `r` of the logical matrix as a dense sequence of length `cols`. */
  function DenseRow(m: CsMat, r: nat): (row: seq<int>)
    requires Valid(m) && r < m.rows
    ensures |row| == m.cols
  {
    seq(m.cols, c requires 0 <= c < m.cols => Entry(m, r, c))
  }

  /** Column `c` of the logical matrix as a dense sequence of length `rows`. */
  function DenseColumn(m: CsMat, c: nat): (col: seq<int>)
    requires Valid(m) && c < m.cols
    ensures |col| == m.rows
  {
    seq(m.rows, r requires 0 <= r < m.rows => Entry(m, r, c))
  }

  /**
   * The reference accumulating product: entry `r` of the result is
   * `out[r] + sum over c of M[r][c] * v[c]`.
   */
  function DenseMatVec(m: CsMat, v: seq<int>, out: seq<int>): (res: seq<int>)
    requires Valid(m) && |v| == m.cols && |out| == m.rows
    ensures |res| == |out|
  {
    seq(|out|, r requires 0 <= r < |out| => out[r] + Dot(DenseRow(m, r), v))
  }

  // ---------------------------------------------------------------------------
  // Sums over dense rows

  lemma {:induction false} DotPrefix(a: seq<int>, v: seq<int>, c: nat)
    requires c < |a| <= |v|
    ensures Dot(a[..c + 1], v) == Dot(a[..c], v) + a[c] * v[c]
  {
    assert a[..c + 1][..c] == a[..c];
  }

  lemma {:induction false} DotAdd(a: seq<int>, b: seq<int>, v: seq<int>)
    requires |a| == |b| <= |v|
    ensures Dot(seq(|a|, i requires 0 <= i < |a| => a[i] + b[i]), v) == Dot(a, v) + Dot(b, v)
  {
    var s := seq(|a|, i requires 0 <= i < |a| => a[i] + b[i]);
    if |a| > 0 {
      var n := |a| - 1;
      var s' := seq(n, i requires 0 <= i < n => a[..n][i] + b[..n][i]);
      assert s[..n] == s';
      DotAdd(a[..n], b[..n], v);
      assert s[n] * v[n] == a[n] * v[n] + b[n] * v[n];
    }
  }

  /** A dense row that is zero except at `j` contributes `x * v[j]`. */
  lemma {:induction false} DotSpike(n: nat, j: nat, x: int, v: seq<int>)
    requires j < n <= |v|
    ensures Dot(seq(n, c requires 0 <= c < n => if c == j then x else 0), v) == x * v[j]
  {
    var s := seq(n, c requires 0 <= c < n => if c == j then x else 0);
    if j < n - 1 {
      var s' := seq(n - 1, c requires 0 <= c < n - 1 => if c == j then x else 0);
      assert s[..n - 1] == s';
      DotSpike(n - 1, j, x, v);
    } else {
      DotZero(s[..n - 1], v);
    }
  }

  lemma {:induction false} DotZero(a: seq<int>, v: seq<int>)
    requires |a| <= |v| && forall c :: 0 <= c < |a| ==> a[c] == 0
    ensures Dot(a, v) == 0
  {
    if |a| > 0 {
      DotZero(a[..|a| - 1], v);
    }
  }

  /**
   * Gathering over the stored entries equals the dense dot product: for a
   * sparse vector whose indices are below `n`, summing `v[index] * value` over
   * its entries is the same as summing `d[c] * v[c]` over its dense form `d`.
   */
  lemma {:induction false} SliceDotIsDenseDot(s: seq<(nat, int)>, v: seq<int>, n: nat)
    requires n <= |v| && forall t :: 0 <= t < |s| ==> s[t].0 < n
    ensures Dot(Densify(s, n), v) == SliceDot(s, v)
  {
    if |s| == 0 {
      DotZero(Densify(s, n), v);
    } else {
      var init, e := s[..|s| - 1], s[|s| - 1];
      SliceDotIsDenseDot(init, v, n);
      var spike := seq(n, c requires 0 <= c < n => if c == e.0 then e.1 else 0);
      var d, d' := Densify(s, n), Densify(init, n);
      assert d == seq(n, i requires 0 <= i < n => d'[i] + spike[i]);
      DotAdd(d', spike, v);
      DotSpike(n, e.0, e.1, v);
    }
  }

  // ---------------------------------------------------------------------------
  // The column-major scatter

  /** The sum of `x * value` over the entries stored at inner index `j`. */
  function ScaledSliceSum(s: seq<(nat, int)>, j: nat, x: int): int {
    if |s| == 0 then 0
    else ScaledSliceSum(s[..|s| - 1], j, x) + (if s[|s| - 1].0 == j then x * s[|s| - 1].1 else 0)
  }

  /** Visiting one more entry of a column adds its scaled value to its own row only. */
  lemma ScaledSliceSumStep(s: seq<(nat, int)>, t: nat, x: int)
    requires t < |s|
    ensures forall r ::
      ScaledSliceSum(s[..t + 1], r, x) == ScaledSliceSum(s[..t], r, x) + (if s[t].0 == r then x * s[t].1 else 0)
  {
    assert s[..t + 1][..t] == s[..t];
  }

  lemma {:induction false} ScaledSliceSumIsScaled(s: seq<(nat, int)>, j: nat, x: int)
    ensures ScaledSliceSum(s, j, x) == SliceSum(s, j) * x
  {
    if |s| > 0 {
      ScaledSliceSumIsScaled(s[..|s| - 1], j, x);
    }
  }

  /**
   * What the scatter over the first `n` columns has added to output slot `r`:
   * the sum over those columns `c` of `v[c]` times every value column `c`
   * stores at row `r`.
   */
  function ScatterSum(cols: seq<seq<(nat, int)>>, v: seq<int>, r: nat, n: nat): int
    requires n <= |cols| && n <= |v|
  {
    if n == 0 then 0 else ScatterSum(cols, v, r, n - 1) + ScaledSliceSum(cols[n - 1], r, v[n - 1])
  }

  lemma {:induction false} ScatterSumPrefix(m: CsMat, v: seq<int>, r: nat, n: nat)
    requires Valid(m) && m.storage == CSC && |v| == m.cols && r < m.rows && n <= m.cols
    ensures ScatterSum(OuterRows(m), v, r, n) == Dot(DenseRow(m, r)[..n], v)
  {
    if n > 0 {
      ScatterSumPrefix(m, v, r, n - 1);
      ScaledSliceSumIsScaled(Slice(m, n - 1), r, v[n - 1]);
      DotPrefix(DenseRow(m, r), v, n - 1);
    }
  }

  /** The column-by-column scatter adds, to every output slot, the dot product with that row. */
  lemma CscScatterIsDenseDot(m: CsMat, v: seq<int>, r: nat)
    requires Valid(m) && m.storage == CSC && |v| == m.cols && r < m.rows
    ensures ScatterSum(OuterRows(m), v, r, m.cols) == Dot(DenseRow(m, r), v)
  {
    ScatterSumPrefix(m, v, r, m.cols);
    assert DenseRow(m, r)[..m.cols] == DenseRow(m, r);
  }

  // ---------------------------------------------------------------------------
  // Properties of the reference product

  /** A CSR row's dense form is its slice written out densely. */
  lemma CsrDenseRow(m: CsMat, r: nat)
    requires Valid(m) && m.storage == CSR && r < m.rows
    ensures DenseRow(m, r) == Densify(Slice(m, r), m.cols)
  {
  }

  /** The dot product with a CSR row is the gather over that row's stored entries. */
  lemma CsrRowDot(m: CsMat, v: seq<int>, r: nat)
    requires Valid(m) && m.storage == CSR && r < m.rows && |v| == m.cols
    ensures Dot(DenseRow(m, r), v) == SliceDot(Slice(m, r), v)
  {
    CsrDenseRow(m, r);
    SliceDotIsDenseDot(Slice(m, r), v, m.cols);
  }

  /** A buffer that holds `out[r]` plus row `r`'s dot product in every slot is the reference product. */
  lemma DenseMatVecPointwise(m: CsMat, v: seq<int>, out: seq<int>, res: seq<int>)
    requires Valid(m) && |v| == m.cols && |out| == m.rows && |res| == |out|
    requires forall r :: 0 <= r < |res| ==> res[r] == out[r] + Dot(DenseRow(m, r), v)
    ensures res == DenseMatVec(m, v, out)
  {
  }

  /** A matrix with no stored entries leaves the output buffer as it was. */
  lemma NoEntriesNoChange(m: CsMat, v: seq<int>, out: seq<int>)
    requires Valid(m) && |v| == m.cols && |out| == m.rows
    requires |m.data| == 0
    ensures DenseMatVec(m, v, out) == out
  {
    forall r | 0 <= r < |out| ensures Dot(DenseRow(m, r), v) == 0 {
      forall c | 0 <= c < m.cols ensures Entry(m, r, c) == 0 {
        if m.storage == CSR {
          assert |Slice(m, r)| == 0;
        } else {
          assert |Slice(m, c)| == 0;
        }
      }
      DotZero(DenseRow(m, r), v);
    }
  }

  /** Accumulating twice into the same buffer adds the product twice. */
  lemma AccumulateTwice(m: CsMat, v: seq<int>, out: seq<int>)
    requires Valid(m) && |v| == m.cols && |out| == m.rows
    ensures forall r :: 0 <= r < |out| ==>
      DenseMatVec(m, v, DenseMatVec(m, v, out))[r] == out[r] + 2 * Dot(DenseRow(m, r), v)
  {
  }

  /**
   * Two encodings of the same logical matrix, in either storage order, give
   * identical products from identical starting buffers.
   */
  lemma SameMatrixSameProduct(a: CsMat, b: CsMat, v: seq<int>, out: seq<int>)
    requires Valid(a) && Valid(b) && a.rows == b.rows && a.cols == b.cols
    requires |v| == a.cols && |out| == a.rows
    requires forall r, c :: 0 <= r < a.rows && 0 <= c < a.cols ==> Entry(a, r, c) == Entry(b, r, c)
    ensures DenseMatVec(a, v, out) == DenseMatVec(b, v, out)
  {
    forall r | 0 <= r < a.rows ensures DenseRow(a, r) == DenseRow(b, r) {
    }
  }
}
