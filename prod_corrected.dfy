/**
 * The row-by-row product `csr_mul_csr` is documented to compute, written the
 * way such kernels usually are (Gustavson's scheme): for each stored entry
 * `(k, lval)` of lhs row `i`, rhs row `k` is scaled by `lval` and accumulated
 * into the workspace. The checks, the workspace protocol and the result
 * assembly are the ones of `Prod.CsrMulCsr`; only the accumulation differs.
 */
module CorrectedProd {
  import opened Outcomes
  import opened SparseVec
  import opened CsMatrix
  import opened DenseRef
  import opened Prod

  /** Operands the corrected kernel accepts once its checks have passed. */
  predicate Conformable(lhs: CsMat, rhs: CsMat) {
    ProductOperands(lhs, rhs) && lhs.cols == rhs.rows
  }

  /** Every inner index of the lhs row names an rhs row. */
  predicate RowsInRange(lrow: seq<(nat, int)>, rrows: seq<seq<(nat, int)>>) {
    forall u :: 0 <= u < |lrow| ==> lrow[u].0 < |rrows|
  }

  /** An rhs row scaled by `lval`, as the (index, lval, rval) triples the inner loop visits. */
  function Scaled(lval: int, rrow: seq<(nat, int)>): (z: seq<(nat, int, int)>)
    ensures |z| == |rrow|
    ensures forall t :: 0 <= t < |z| ==> z[t] == (rrow[t].0, lval, rrow[t].1)
    ensures StrictlyAscending(rrow) ==> ZipAscending(z)
  {
    seq(|rrow|, t requires 0 <= t < |rrow| => (rrow[t].0, lval, rrow[t].1))
  }

  /**
   * Workspace slot `j` after the first `t` stored entries of the lhs row, from an
   * empty slot. An lhs index naming no rhs row contributes nothing; for
   * conformable operands there is none.
   */
  function ProductSlot(lrow: seq<(nat, int)>, rrows: seq<seq<(nat, int)>>, j: nat, t: nat): Option<int>
    requires t <= |lrow|
  {
    if t == 0 then None
    else
      var prev := ProductSlot(lrow, rrows, j, t - 1);
      var k, lval := lrow[t - 1].0, lrow[t - 1].1;
      if k < |rrows| then
        match Find(rrows[k], j)
        case Some(rval) => Acc(prev, lval * rval)
        case None => prev
      else prev
  }

  /** Some of the first `t` lhs entries names an rhs row that stores index `j`. */
  predicate ProductMatched(lrow: seq<(nat, int)>, rrows: seq<seq<(nat, int)>>, j: nat, t: nat)
    requires t <= |lrow|
  {
    exists u :: 0 <= u < t && lrow[u].0 < |rrows| && Find(rrows[lrow[u].0], j).Some?
  }

  /** Column `j` of the rhs, densely, one value per rhs row. */
  function ColumnOf(rrows: seq<seq<(nat, int)>>, j: nat): (col: seq<int>)
    ensures |col| == |rrows|
  {
    seq(|rrows|, k requires 0 <= k < |rrows| => SliceSum(rrows[k], j))
  }

  /**
   * Processing lhs entry `t` scatters the scaled rhs row into the workspace and
   * takes every slot from its state after `t` entries to its state after `t + 1`.
   */
  lemma AccumulateLhsEntry(lrow: seq<(nat, int)>, rrows: seq<seq<(nat, int)>>, t: nat, ws: seq<Option<int>>)
    requires t < |lrow| && RowsInRange(lrow, rrows) && StrictlyAscending(rrows[lrow[t].0])
    requires forall q :: 0 <= q < |rrows[lrow[t].0]| ==> rrows[lrow[t].0][q].0 < |ws|
    requires forall j :: 0 <= j < |ws| ==> ws[j] == ProductSlot(lrow, rrows, j, t)
    ensures forall j :: 0 <= j < |ws| ==>
      Scatter(ws, Scaled(lrow[t].1, rrows[lrow[t].0]))[j] == ProductSlot(lrow, rrows, j, t + 1)
  {
    var rrow := rrows[lrow[t].0];
    var z := Scaled(lrow[t].1, rrow);
    forall j | 0 <= j < |ws| ensures Scatter(ws, z)[j] == ProductSlot(lrow, rrows, j, t + 1) {
      ScatterAt(ws, z, j);
      match Find(rrow, j)
      case None =>
      case Some(rval) =>
        var q :| 0 <= q < |rrow| && rrow[q] == (j, rval);
        assert z[q] == (j, lrow[t].1, rval);
    }
  }

  /** The running sum of `lval * rval` over the first `t` lhs entries whose rhs row stores `j`. */
  function ProductSum(lrow: seq<(nat, int)>, rrows: seq<seq<(nat, int)>>, j: nat, t: nat): int
    requires t <= |lrow|
  {
    if t == 0 then 0
    else
      var k, lval := lrow[t - 1].0, lrow[t - 1].1;
      ProductSum(lrow, rrows, j, t - 1) +
      if k < |rrows| then
        match Find(rrows[k], j)
        case Some(rval) => lval * rval
        case None => 0
      else 0
  }

  /**
   * The slot in closed form: empty exactly when no visited lhs entry names an
   * rhs row storing `j`, otherwise the sparse dot product of the visited lhs
   * entries with column `j` of the rhs.
   */
  lemma ProductSlotClosedForm(lrow: seq<(nat, int)>, rrows: seq<seq<(nat, int)>>, j: nat, t: nat)
    requires t <= |lrow| && RowsInRange(lrow, rrows)
    requires forall k :: 0 <= k < |rrows| ==> StrictlyAscending(rrows[k])
    ensures ProductSlot(lrow, rrows, j, t) ==
      if ProductMatched(lrow, rrows, j, t) then Some(SliceDot(lrow[..t], ColumnOf(rrows, j))) else None
    ensures !ProductMatched(lrow, rrows, j, t) ==> SliceDot(lrow[..t], ColumnOf(rrows, j)) == 0
  {
    ProductSlotIsProductSum(lrow, rrows, j, t);
    ProductSumIsSliceDot(lrow, rrows, j, t);
  }

  /** The slot is empty until the first match, and then holds the running sum. */
  lemma {:induction false} ProductSlotIsProductSum(lrow: seq<(nat, int)>, rrows: seq<seq<(nat, int)>>, j: nat, t: nat)
    requires t <= |lrow|
    ensures ProductSlot(lrow, rrows, j, t) ==
      if ProductMatched(lrow, rrows, j, t) then Some(ProductSum(lrow, rrows, j, t)) else None
    ensures !ProductMatched(lrow, rrows, j, t) ==> ProductSum(lrow, rrows, j, t) == 0
  {
    if t > 0 {
      ProductSlotIsProductSum(lrow, rrows, j, t - 1);
      var k := lrow[t - 1].0;
      if k < |rrows| && Find(rrows[k], j).Some? {
        assert ProductMatched(lrow, rrows, j, t);
      } else {
        assert ProductMatched(lrow, rrows, j, t) == ProductMatched(lrow, rrows, j, t - 1);
      }
    }
  }

  /** The running sum is the sparse dot product of the visited lhs entries with column `j`. */
  lemma {:induction false} ProductSumIsSliceDot(lrow: seq<(nat, int)>, rrows: seq<seq<(nat, int)>>, j: nat, t: nat)
    requires t <= |lrow| && RowsInRange(lrow, rrows)
    requires forall k :: 0 <= k < |rrows| ==> StrictlyAscending(rrows[k])
    ensures ProductSum(lrow, rrows, j, t) == SliceDot(lrow[..t], ColumnOf(rrows, j))
  {
    if t > 0 {
      ProductSumIsSliceDot(lrow, rrows, j, t - 1);
      var k, lval := lrow[t - 1].0, lrow[t - 1].1;
      var col := ColumnOf(rrows, j);
      assert lrow[..t][..t - 1] == lrow[..t - 1];
      assert SliceDot(lrow[..t], col) == SliceDot(lrow[..t - 1], col) + col[k] * lval;
      assert col[k] * lval == lval * col[k];
      SliceSumIsStoredValue(rrows[k], j);
    }
  }

  /** The workspace once every stored entry of the lhs row has been processed. */
  function ProductWsRow(lrow: seq<(nat, int)>, rrows: seq<seq<(nat, int)>>, width: nat): (ws: seq<Option<int>>)
    ensures |ws| == width
  {
    seq(width, j requires 0 <= j < width => ProductSlot(lrow, rrows, j, |lrow|))
  }

  /** The workspace the corrected kernel builds for lhs row `i`. */
  function ProductWorkspace(lhs: CsMat, rhs: CsMat, i: nat): (ws: seq<Option<int>>)
    requires Conformable(lhs, rhs) && i < lhs.rows
    ensures |ws| == rhs.cols
  {
    ProductWsRow(Slice(lhs, i), OuterRows(rhs), rhs.cols)
  }

  /** The corrected result after the first `n` lhs rows: row `i` is the compressed workspace of lhs row `i`. */
  function ProductRows(lhs: CsMat, rhs: CsMat, n: nat): (res: CsMat)
    requires Conformable(lhs, rhs) && n <= lhs.rows
    ensures Valid(res) && res.storage == CSR && res.rows == n && res.cols == rhs.cols
    ensures forall i :: 0 <= i < n ==> Slice(res, i) == Compress(ProductWorkspace(lhs, rhs, i))
  {
    if n == 0 then Empty(CSR, rhs.cols)
    else
      var prev := ProductRows(lhs, rhs, n - 1);
      var res := AppendOuter(prev, ProductWorkspace(lhs, rhs, n - 1));
      AppendedProductRow(lhs, rhs, n, prev, res);
      res
  }

  /** Appending the compressed workspace of lhs row `n - 1` extends the rows built so far. */
  lemma {:induction false} AppendedProductRow(lhs: CsMat, rhs: CsMat, n: nat, prev: CsMat, res: CsMat)
    requires Conformable(lhs, rhs) && 0 < n <= lhs.rows
    requires Valid(prev) && prev.storage == CSR && prev.rows == n - 1 && prev.cols == rhs.cols
    requires forall i :: 0 <= i < n - 1 ==> Slice(prev, i) == Compress(ProductWorkspace(lhs, rhs, i))
    requires res == AppendOuter(prev, ProductWorkspace(lhs, rhs, n - 1))
    ensures Valid(res) && res.storage == CSR && res.rows == n && res.cols == rhs.cols
    ensures forall i :: 0 <= i < n ==> Slice(res, i) == Compress(ProductWorkspace(lhs, rhs, i))
  {
    var ws := ProductWorkspace(lhs, rhs, n - 1);
    assert Outer(prev) == n - 1 && |ws| == Inner(prev);
    assert Valid(res) && Outer(res) == n && Slice(res, n - 1) == Compress(ws);
    forall i | 0 <= i < n ensures Slice(res, i) == Compress(ProductWorkspace(lhs, rhs, i)) {
      if i < n - 1 {
        assert Slice(res, i) == Slice(prev, i);
      }
    }
  }

  /**
   * The finished workspace slot, on sequences: occupied exactly when some lhs
   * entry names an rhs row storing `j`, and then holding the sparse dot product
   * of the lhs row with column `j` of the rhs.
   */
  lemma ProductSlotFinal(lrow: seq<(nat, int)>, rrows: seq<seq<(nat, int)>>, j: nat)
    requires RowsInRange(lrow, rrows) && StrictlyAscending(lrow)
    requires forall k :: 0 <= k < |rrows| ==> StrictlyAscending(rrows[k])
    ensures ProductSlot(lrow, rrows, j, |lrow|).Some? <==>
      exists k :: 0 <= k < |rrows| && Find(lrow, k).Some? && Find(rrows[k], j).Some?
    ensures (match ProductSlot(lrow, rrows, j, |lrow|) case None => 0 case Some(x) => x) ==
      SliceDot(lrow, ColumnOf(rrows, j))
  {
    ProductSlotClosedForm(lrow, rrows, j, |lrow|);
    assert lrow[..|lrow|] == lrow;
    if ProductMatched(lrow, rrows, j, |lrow|) {
      var u :| 0 <= u < |lrow| && Find(rrows[lrow[u].0], j).Some?;
      FindAt(lrow, u);
    }
    if k :| 0 <= k < |rrows| && Find(lrow, k).Some? && Find(rrows[k], j).Some? {
      var u :| 0 <= u < |lrow| && lrow[u] == (k, Find(lrow, k).value);
      assert Find(rrows[lrow[u].0], j).Some?;
    }
  }

  /** Column `j` of a CSR matrix, read densely, is the column of its outer slices. */
  lemma DenseColumnOfRows(m: CsMat, j: nat)
    requires Valid(m) && m.storage == CSR && j < m.cols
    ensures DenseColumn(m, j) == ColumnOf(OuterRows(m), j)
  {
  }

  /**
   * The corrected kernel computes the matrix product: entry `(i, j)` of the
   * result is the sum over `k` of `L[i][k] * R[k][j]`, and it is stored exactly
   * when some `k` has both `L[i][k]` and `R[k][j]` stored.
   */
  lemma ProductRowEntries(lhs: CsMat, rhs: CsMat, i: nat, j: nat)
    requires Conformable(lhs, rhs) && i < lhs.rows && j < rhs.cols
    ensures Entry(ProductRows(lhs, rhs, lhs.rows), i, j) == Dot(DenseRow(lhs, i), DenseColumn(rhs, j))
    ensures Find(Slice(ProductRows(lhs, rhs, lhs.rows), i), j).Some? <==>
      exists k :: 0 <= k < lhs.cols && Find(Slice(lhs, i), k).Some? && Find(Slice(rhs, k), j).Some?
  {
    var lrow, rrows := Slice(lhs, i), OuterRows(rhs);
    var row := Slice(ProductRows(lhs, rhs, lhs.rows), i);
    assert RowsInRange(lrow, rrows);
    ProductSlotFinal(lrow, rrows, j);
    CompressFind(ProductWorkspace(lhs, rhs, i), j);
    assert Find(row, j) == ProductSlot(lrow, rrows, j, |lrow|);
    SliceSumIsStoredValue(row, j);
    DenseColumnOfRows(rhs, j);
    CsrRowDot(lhs, DenseColumn(rhs, j), i);
  }

  /** Lhs row `i` of the corrected kernel: reset the workspace, then one pass per stored lhs entry. */
  method FillProductWorkspace(lhs: CsMat, rhs: CsMat, i: nat, workspace: array<Option<int>>)
    requires Conformable(lhs, rhs) && i < lhs.rows && workspace.Length == rhs.cols
    modifies workspace
    ensures workspace[..] == ProductWorkspace(lhs, rhs, i)
  {
    ghost var rrows := OuterRows(rhs);
    var lvec := Slice(lhs, i);
    ResetWorkspace(workspace);
    for t := 0 to |lvec|
      invariant forall j :: 0 <= j < workspace.Length ==> workspace[j] == ProductSlot(lvec, rrows, j, t)
    {
      AccumulateRhsRowOf(lhs, rhs, i, t, workspace);
    }
  }

  /** One pass of the lhs-entry loop: entry `t` of lhs row `i` scales its rhs row into the workspace. */
  method AccumulateRhsRowOf(lhs: CsMat, rhs: CsMat, i: nat, t: nat, workspace: array<Option<int>>)
    requires Conformable(lhs, rhs) && i < lhs.rows && workspace.Length == rhs.cols
    requires t < |Slice(lhs, i)|
    requires forall j :: 0 <= j < workspace.Length ==> workspace[j] == ProductSlot(Slice(lhs, i), OuterRows(rhs), j, t)
    modifies workspace
    ensures forall j :: 0 <= j < workspace.Length ==> workspace[j] == ProductSlot(Slice(lhs, i), OuterRows(rhs), j, t + 1)
  {
    var lvec := Slice(lhs, i);
    var k, lval := lvec[t].0, lvec[t].1;
    var rvec := Slice(rhs, k);
    AccumulateLhsEntry(lvec, OuterRows(rhs), t, workspace[..]);
    AccumulateScaledRow(workspace, lval, rvec);
  }

  /** Accumulates `lval * rval` into slot `j` for every stored entry `(j, rval)` of an rhs row. */
  method AccumulateScaledRow(workspace: array<Option<int>>, lval: int, rvec: seq<(nat, int)>)
    requires forall q :: 0 <= q < |rvec| ==> rvec[q].0 < workspace.Length
    modifies workspace
    ensures workspace[..] == Scatter(old(workspace[..]), Scaled(lval, rvec))
  {
    ghost var before := workspace[..];
    ghost var z := Scaled(lval, rvec);
    for q := 0 to |rvec|
      invariant workspace[..] == Scatter(before, z[..q])
    {
      var colInd, rval := rvec[q].0, rvec[q].1;
      var prod := lval * rval;
      assert z[..q + 1][..q] == z[..q];
      match workspace[colInd] {
        case None => workspace[colInd] := Some(prod);
        case Some(acc) => workspace[colInd] := Some(acc + prod);
      }
    }
    assert z[..|z|] == z;
  }

  /**
   * The corrected kernel: the same checks in the same order as `csr_mul_csr`,
   * the same workspace protocol, and a result that is the matrix product.
   */
  method CsrMulCsr(lhs: CsMat, rhs: CsMat, workspace: array<Option<int>>)
    returns (result: Result<CsMat, ProductError>)
    requires Valid(lhs) && Valid(rhs)
    modifies workspace
    ensures lhs.cols != rhs.rows ==> result == Failure(InnerDims)
    ensures lhs.cols == rhs.rows && rhs.cols != workspace.Length ==> result == Failure(WorkspaceLen)
    ensures lhs.cols == rhs.rows && rhs.cols == workspace.Length && lhs.storage != rhs.storage ==>
      result == Failure(StorageMismatch)
    ensures lhs.cols == rhs.rows && rhs.cols == workspace.Length && lhs.storage == rhs.storage && rhs.storage != CSR ==>
      result == Failure(RhsNotCsr)
    ensures lhs.cols == rhs.rows && rhs.cols == workspace.Length && lhs.storage == rhs.storage && rhs.storage == CSR ==>
      result.Success?
    ensures result.Failure? ==> workspace[..] == old(workspace[..])
    ensures result.Success? ==>
      && Conformable(lhs, rhs) && workspace.Length == rhs.cols
      && result.value == ProductRows(lhs, rhs, lhs.rows)
      && (lhs.rows == 0 ==> workspace[..] == old(workspace[..]))
      && (lhs.rows > 0 ==> workspace[..] == ProductWorkspace(lhs, rhs, lhs.rows - 1))
  {
    var resRows, resCols := lhs.rows, rhs.cols;
    if lhs.cols != rhs.rows { return Failure(InnerDims); }
    if resCols != workspace.Length { return Failure(WorkspaceLen); }
    if lhs.storage != rhs.storage { return Failure(StorageMismatch); }
    if rhs.storage != CSR { return Failure(RhsNotCsr); }

    var res := AccumulateProductRows(lhs, rhs, workspace);
    assert resRows == res.rows;
    return Success(res);
  }

  /** The lhs-row loop of the corrected kernel, once every check has passed. */
  method AccumulateProductRows(lhs: CsMat, rhs: CsMat, workspace: array<Option<int>>) returns (res: CsMat)
    requires Conformable(lhs, rhs) && workspace.Length == rhs.cols
    modifies workspace
    ensures res == ProductRows(lhs, rhs, lhs.rows)
    ensures lhs.rows == 0 ==> workspace[..] == old(workspace[..])
    ensures lhs.rows > 0 ==> workspace[..] == ProductWorkspace(lhs, rhs, lhs.rows - 1)
  {
    res := Empty(lhs.storage, rhs.cols);
    for i := 0 to lhs.rows
      invariant res == ProductRows(lhs, rhs, i)
      invariant i == 0 ==> workspace[..] == old(workspace[..])
      invariant i > 0 ==> workspace[..] == ProductWorkspace(lhs, rhs, i - 1)
    {
      res := AppendProductRow(lhs, rhs, i, res, workspace);
    }
  }

  /** One pass of the lhs-row loop: fill the workspace for row `i`, then compress it into the result. */
  method AppendProductRow(lhs: CsMat, rhs: CsMat, i: nat, res: CsMat, workspace: array<Option<int>>)
    returns (res': CsMat)
    requires Conformable(lhs, rhs) && i < lhs.rows
    requires workspace.Length == rhs.cols && res == ProductRows(lhs, rhs, i)
    modifies workspace
    ensures res' == ProductRows(lhs, rhs, i + 1)
    ensures workspace[..] == ProductWorkspace(lhs, rhs, i)
  {
    FillProductWorkspace(lhs, rhs, i, workspace);
    res' := AppendOuter(res, workspace[..]);
  }

  /** L = [[1]], one row storing index 0. */
  function ExampleLhs(): (m: CsMat)
    ensures Valid(m) && m.storage == CSR && m.rows == 1 && m.cols == 1
    ensures Slice(m, 0) == [(0, 1)]
  {
    CsMat(CSR, 1, 1, [0, 1], [0], [1])
  }

  /** R = [[0, 1]], one row storing index 1. */
  function ExampleRhs(): (m: CsMat)
    ensures Valid(m) && m.storage == CSR && m.rows == 1 && m.cols == 2
    ensures Slice(m, 0) == [(1, 1)]
  {
    CsMat(CSR, 1, 2, [0, 1], [1], [1])
  }

  /** The example pair: lhs L = [[1]] and rhs R = [[0, 1]], both row-major. */
  predicate ExamplePair(lhs: CsMat, rhs: CsMat) {
    && Valid(lhs) && Valid(rhs) && lhs.storage == CSR && rhs.storage == CSR
    && lhs.rows == 1 && lhs.cols == 1 && rhs.rows == 1 && rhs.cols == 2
    && Slice(lhs, 0) == [(0, 1)] && Slice(rhs, 0) == [(1, 1)]
  }

  /** Entry (0, 1) of L * R for the example pair is 1. */
  lemma ExampleProductEntry(lhs: CsMat, rhs: CsMat)
    requires ExamplePair(lhs, rhs)
    ensures Dot(DenseRow(lhs, 0), DenseColumn(rhs, 1)) == 1
  {
    var l0, r0 := Slice(lhs, 0), Slice(rhs, 0);
    FindAt(l0, 0);
    SliceSumIsStoredValue(l0, 0);
    FindAt(r0, 0);
    SliceSumIsStoredValue(r0, 1);
    var row, col := DenseRow(lhs, 0), DenseColumn(rhs, 1);
    assert row[0] == 1 && col[0] == 1;
    assert row[..0] == [];
  }

  /**
   * The kernel as written differs from the product on a 1x1 times 1x2 example:
   * L = [[1]] and R = [[0, 1]] give L * R = [[0, 1]], but the lhs row stores
   * index 0 and the only rhs row stores index 1, so their intersection is empty
   * and the as-written result row stores nothing. The corrected kernel stores 1.
   * `ExampleLhs` and `ExampleRhs` form such a pair.
   */
  lemma AsWrittenIsNotProduct(lhs: CsMat, rhs: CsMat)
    requires ExamplePair(lhs, rhs)
    ensures Conformable(lhs, rhs)
    ensures Entry(CsrMulCsrRows(lhs, rhs, lhs.rows), 0, 1) != Dot(DenseRow(lhs, 0), DenseColumn(rhs, 1))
    ensures Entry(ProductRows(lhs, rhs, lhs.rows), 0, 1) == Dot(DenseRow(lhs, 0), DenseColumn(rhs, 1))
  {
    ExampleProductEntry(lhs, rhs);
    assert Find(Slice(lhs, 0), 1) == None;
    UnstoredLhsIndexGivesZero(lhs, rhs, 0, 1);
    ProductRowEntries(lhs, rhs, 0, 1);
  }

  /** The example pair exists. */
  lemma ExamplePairExists()
    ensures ExamplePair(ExampleLhs(), ExampleRhs())
  {
  }
}
