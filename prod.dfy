/**
 * The three multiplication kernels over compressed sparse matrices:
 * accumulating matrix-vector products in column-major and row-major storage,
 * and the row-by-row sparse-sparse kernel `csr_mul_csr`.
 */
module Prod {
  import opened Outcomes
  import opened SparseVec
  import opened CsMatrix
  import opened DenseRef

  /** Why a matrix-vector kernel stopped, in the order it checks. */
  datatype MatVecError = InVecDims | ResVecDims | WrongStorage

  /** Why `csr_mul_csr` stopped, in the order it checks. */
  datatype ProductError = InnerDims | WorkspaceLen | StorageMismatch | RhsNotCsr

  // ===========================================================================
  // Accumulating matrix-vector products

  /**
   * `mul_acc_mat_vec_csc`: `resVec += mat * inVec` for a column-major matrix,
   * scattering column `c`'s entries `(row, value)` into `resVec[row]`.
   * Every check happens before the first write, so a failed check leaves
   * `resVec` as it was.
   */
  method MulAccMatVecCsc(mat: CsMat, inVec: seq<int>, resVec: array<int>)
    returns (outcome: Outcome<MatVecError>)
    requires Valid(mat)
    modifies resVec
    ensures mat.cols != |inVec| ==> outcome == Fail(InVecDims)
    ensures mat.cols == |inVec| && mat.rows != resVec.Length ==> outcome == Fail(ResVecDims)
    ensures mat.cols == |inVec| && mat.rows == resVec.Length && mat.storage != CSC ==> outcome == Fail(WrongStorage)
    ensures mat.cols == |inVec| && mat.rows == resVec.Length && mat.storage == CSC ==> outcome == Pass
    ensures outcome.Fail? ==> resVec[..] == old(resVec[..])
    ensures outcome.Pass? ==>
      && mat.cols == |inVec| && mat.rows == resVec.Length && mat.storage == CSC
      && resVec[..] == DenseMatVec(mat, inVec, old(resVec[..]))
  {
    if mat.cols != |inVec| { return Fail(InVecDims); }
    if mat.rows != resVec.Length { return Fail(ResVecDims); }
    if mat.storage != CSC { return Fail(WrongStorage); }
    ghost var out := resVec[..];
    ghost var columns := OuterRows(mat);
    for c := 0 to mat.cols
      invariant forall r :: 0 <= r < resVec.Length ==>
        resVec[r] == out[r] + ScatterSum(columns, inVec, r, c)
    {
      var vec := Slice(mat, c);
      var multiplier := inVec[c];
      ScatterColumn(vec, multiplier, resVec);
    }
    forall r | 0 <= r < resVec.Length ensures resVec[r] == out[r] + Dot(DenseRow(mat, r), inVec) {
      CscScatterIsDenseDot(mat, inVec, r);
    }
    DenseMatVecPointwise(mat, inVec, out, resVec[..]);
    return Pass;
  }

  /**
   * The inner loop of `mul_acc_mat_vec_csc` over one column: every entry
   * `(row, value)` adds `multiplier * value` to `resVec[row]`.
   */
  method ScatterColumn(vec: seq<(nat, int)>, multiplier: int, resVec: array<int>)
    requires forall t :: 0 <= t < |vec| ==> vec[t].0 < resVec.Length
    modifies resVec
    ensures forall r :: 0 <= r < resVec.Length ==>
      resVec[r] == old(resVec[r]) + ScaledSliceSum(vec, r, multiplier)
  {
    for t := 0 to |vec|
      invariant forall r :: 0 <= r < resVec.Length ==>
        resVec[r] == old(resVec[r]) + ScaledSliceSum(vec[..t], r, multiplier)
    {
      var rowInd, value := vec[t].0, vec[t].1;
      resVec[rowInd] := resVec[rowInd] + multiplier * value;
      ScaledSliceSumStep(vec, t, multiplier);
    }
    assert vec[..|vec|] == vec;
  }

  /**
   * `mul_acc_mat_vec_csr`: `resVec += mat * inVec` for a row-major matrix, as a
   * gather-dot per row. The pass over row `r` writes `resVec[r]` and no other slot.
   */
  method MulAccMatVecCsr(mat: CsMat, inVec: seq<int>, resVec: array<int>)
    returns (outcome: Outcome<MatVecError>)
    requires Valid(mat)
    modifies resVec
    ensures mat.cols != |inVec| ==> outcome == Fail(InVecDims)
    ensures mat.cols == |inVec| && mat.rows != resVec.Length ==> outcome == Fail(ResVecDims)
    ensures mat.cols == |inVec| && mat.rows == resVec.Length && mat.storage != CSR ==> outcome == Fail(WrongStorage)
    ensures mat.cols == |inVec| && mat.rows == resVec.Length && mat.storage == CSR ==> outcome == Pass
    ensures outcome.Fail? ==> resVec[..] == old(resVec[..])
    ensures outcome.Pass? ==>
      && mat.cols == |inVec| && mat.rows == resVec.Length && mat.storage == CSR
      && resVec[..] == DenseMatVec(mat, inVec, old(resVec[..]))
  {
    if mat.cols != |inVec| { return Fail(InVecDims); }
    if mat.rows != resVec.Length { return Fail(ResVecDims); }
    if mat.storage != CSR { return Fail(WrongStorage); }
    ghost var out := resVec[..];
    for r := 0 to mat.rows
      invariant forall r' :: 0 <= r' < r ==> resVec[r'] == out[r'] + Dot(DenseRow(mat, r'), inVec)
      invariant forall r' :: r <= r' < resVec.Length ==> resVec[r'] == out[r']
    {
      var vec := Slice(mat, r);
      GatherRow(vec, inVec, resVec, r);
      CsrRowDot(mat, inVec, r);
    }
    DenseMatVecPointwise(mat, inVec, out, resVec[..]);
    return Pass;
  }

  /**
   * The inner loop of `mul_acc_mat_vec_csr` over row `r`: adds the gather of
   * `inVec` over the row's entries to `resVec[r]` and leaves every other slot alone.
   */
  method GatherRow(vec: seq<(nat, int)>, inVec: seq<int>, resVec: array<int>, r: nat)
    requires forall t :: 0 <= t < |vec| ==> vec[t].0 < |inVec|
    requires r < resVec.Length
    modifies resVec
    ensures resVec[r] == old(resVec[r]) + SliceDot(vec, inVec)
    ensures forall r' :: 0 <= r' < resVec.Length && r' != r ==> resVec[r'] == old(resVec[r'])
  {
    for t := 0 to |vec|
      invariant resVec[r] == old(resVec[r]) + SliceDot(vec[..t], inVec)
      invariant forall r' :: 0 <= r' < resVec.Length && r' != r ==> resVec[r'] == old(resVec[r'])
    {
      var colInd, value := vec[t].0, vec[t].1;
      resVec[r] := resVec[r] + inVec[colInd] * value;
      assert vec[..t + 1][..t] == vec[..t];
    }
    assert vec[..|vec|] == vec;
  }

  // ===========================================================================
  // The sparse-sparse kernel, as written
  //
  // For each lhs row, `csr_mul_csr` visits EVERY rhs row and intersects the lhs
  // row with it on their shared inner index (`nnz_zip`). It never selects rhs
  // row `k` for an lhs entry in column `k`, so what it builds is not the matrix
  // product its documentation announces: slot `j` of result row `i` is
  // `L[i][j] * (R[0][j] + ... + R[n-1][j])` (see `ResultRowEntries`).
  // The definitions below describe what the code computes.

  /** Both operands are well formed and row-major, as the kernel's checks guarantee. */
  predicate ProductOperands(lhs: CsMat, rhs: CsMat) {
    Valid(lhs) && Valid(rhs) && lhs.storage == CSR && rhs.storage == CSR
  }

  /** One workspace update: an empty slot takes `prod`, an occupied one adds it. */
  function Acc(slot: Option<int>, prod: int): (r: Option<int>)
    ensures r.Some?
    ensures r.value == (if slot.Some? then slot.value else 0) + prod
  {
    match slot
    case None => Some(prod)
    case Some(acc) => Some(acc + prod)
  }

  /**
   * What one rhs row contributes to slot `j`: the product of the two stored
   * values when the lhs row and the rhs row both store index `j`, else nothing.
   */
  function Contribution(lrow: seq<(nat, int)>, rrow: seq<(nat, int)>, j: nat): Option<int> {
    var lval, rval := Find(lrow, j), Find(rrow, j);
    if lval.Some? && rval.Some? then Some(lval.value * rval.value) else None
  }

  /**
   * Workspace slot `j` once the lhs row has been intersected with the first `k`
   * rhs rows, starting from an empty slot.
   */
  function WsSlot(lrow: seq<(nat, int)>, rrows: seq<seq<(nat, int)>>, j: nat, k: nat): Option<int>
    requires k <= |rrows|
  {
    if k == 0 then None
    else
      var prev := WsSlot(lrow, rrows, j, k - 1);
      match Contribution(lrow, rrows[k - 1], j)
      case Some(prod) => Acc(prev, prod)
      case None => prev
  }

  /** Index `j` is stored in the lhs row and in at least one of the first `k` rhs rows. */
  predicate Matched(lrow: seq<(nat, int)>, rrows: seq<seq<(nat, int)>>, j: nat, k: nat)
    requires k <= |rrows|
  {
    exists kk :: 0 <= kk < k && Contribution(lrow, rrows[kk], j).Some?
  }

  /** The sum of `lval * rval` over the first `k` rhs rows that store index `j`. */
  function MatchSum(lrow: seq<(nat, int)>, rrows: seq<seq<(nat, int)>>, j: nat, k: nat): int
    requires k <= |rrows|
  {
    if k == 0 then 0
    else
      MatchSum(lrow, rrows, j, k - 1) +
      match Contribution(lrow, rrows[k - 1], j)
      case Some(prod) => prod
      case None => 0
  }

  /**
   * The workspace slot in closed form: empty exactly when no rhs row among the
   * first `k` shares index `j` with the lhs row, and otherwise the sum of the
   * products over all those rows (the first match sets the slot, later ones add).
   */
  lemma {:induction false} WsSlotClosedForm(lrow: seq<(nat, int)>, rrows: seq<seq<(nat, int)>>, j: nat, k: nat)
    requires k <= |rrows|
    ensures WsSlot(lrow, rrows, j, k) ==
      if Matched(lrow, rrows, j, k) then Some(MatchSum(lrow, rrows, j, k)) else None
    ensures !Matched(lrow, rrows, j, k) ==> MatchSum(lrow, rrows, j, k) == 0
  {
    if k > 0 {
      WsSlotClosedForm(lrow, rrows, j, k - 1);
      if Contribution(lrow, rrows[k - 1], j).Some? {
        assert Matched(lrow, rrows, j, k);
      } else {
        assert Matched(lrow, rrows, j, k) == Matched(lrow, rrows, j, k - 1);
      }
    }
  }

  /** The sum over the first `k` rhs rows of the value each stores at index `j`. */
  function ColumnSum(rrows: seq<seq<(nat, int)>>, j: nat, k: nat): int
    requires k <= |rrows|
  {
    if k == 0 then 0 else ColumnSum(rrows, j, k - 1) + SliceSum(rrows[k - 1], j)
  }

  /**
   * What the kernel computes, in the logical matrices' terms: the accumulated
   * value for slot `j` is the lhs row's entry at `j` times the sum of column `j`
   * over the rhs rows.
   */
  lemma {:induction false} MatchSumIsScaledColumnSum(lrow: seq<(nat, int)>, rrows: seq<seq<(nat, int)>>, j: nat, k: nat)
    requires k <= |rrows| && StrictlyAscending(lrow)
    requires forall kk :: 0 <= kk < |rrows| ==> StrictlyAscending(rrows[kk])
    ensures MatchSum(lrow, rrows, j, k) == SliceSum(lrow, j) * ColumnSum(rrows, j, k)
  {
    if k > 0 {
      MatchSumIsScaledColumnSum(lrow, rrows, j, k - 1);
      var rrow := rrows[k - 1];
      SliceSumIsStoredValue(lrow, j);
      SliceSumIsStoredValue(rrow, j);
      var a, b := SliceSum(lrow, j), SliceSum(rrow, j);
      var prev := ColumnSum(rrows, j, k - 1);
      assert ColumnSum(rrows, j, k) == prev + b;
      MulAddDistrib(a, prev, b);
      if Find(lrow, j).Some? && Find(rrow, j).Some? {
        assert Contribution(lrow, rrow, j) == Some(a * b);
      } else {
        assert a == 0 || b == 0;
        assert Contribution(lrow, rrow, j) == None;
      }
    }
  }

  /** The workspace once the lhs row has been intersected with every rhs row. */
  function WsRow(lrow: seq<(nat, int)>, rrows: seq<seq<(nat, int)>>, width: nat): (ws: seq<Option<int>>)
    ensures |ws| == width
  {
    seq(width, j requires 0 <= j < width => WsSlot(lrow, rrows, j, |rrows|))
  }

  /** The effect of the inner loop over one `nnz_zip` sequence on the workspace. */
  function Scatter(ws: seq<Option<int>>, z: seq<(nat, int, int)>): (r: seq<Option<int>>)
    requires forall t :: 0 <= t < |z| ==> z[t].0 < |ws|
    ensures |r| == |ws|
  {
    if |z| == 0 then ws
    else
      var prev := Scatter(ws, z[..|z| - 1]);
      var e := z[|z| - 1];
      prev[e.0 := Acc(prev[e.0], e.1 * e.2)]
  }

  /** With distinct indices, each slot is updated at most once, by the triple that names it. */
  lemma {:induction false} ScatterAt(ws: seq<Option<int>>, z: seq<(nat, int, int)>, j: nat)
    requires forall t :: 0 <= t < |z| ==> z[t].0 < |ws|
    requires ZipAscending(z) && j < |ws|
    ensures (forall t :: 0 <= t < |z| ==> z[t].0 != j) ==> Scatter(ws, z)[j] == ws[j]
    ensures forall t :: 0 <= t < |z| && z[t].0 == j ==> Scatter(ws, z)[j] == Acc(ws[j], z[t].1 * z[t].2)
  {
    if |z| > 0 {
      var init := z[..|z| - 1];
      assert forall t :: 0 <= t < |init| ==> init[t] == z[t];
      ScatterAt(ws, init, j);
    }
  }

  /**
   * Intersecting the lhs row with rhs row `k` takes the workspace from its state
   * after `k` rhs rows to its state after `k + 1`, and only touches slots in range.
   */
  lemma AccumulateRhsRow(lrow: seq<(nat, int)>, rrows: seq<seq<(nat, int)>>, k: nat, ws: seq<Option<int>>)
    requires k < |rrows| && StrictlyAscending(lrow) && StrictlyAscending(rrows[k])
    requires forall t :: 0 <= t < |rrows[k]| ==> rrows[k][t].0 < |ws|
    requires forall j :: 0 <= j < |ws| ==> ws[j] == WsSlot(lrow, rrows, j, k)
    ensures forall t :: 0 <= t < |NnzZip(lrow, rrows[k])| ==> NnzZip(lrow, rrows[k])[t].0 < |ws|
    ensures forall j :: 0 <= j < |ws| ==> Scatter(ws, NnzZip(lrow, rrows[k]))[j] == WsSlot(lrow, rrows, j, k + 1)
  {
    var rrow := rrows[k];
    var z := NnzZip(lrow, rrow);
    NnzZipPairs(lrow, rrow);
    forall t | 0 <= t < |z| ensures z[t].0 < |ws| && Find(lrow, z[t].0).Some? && Find(rrow, z[t].0).Some? {
      var p, q :| 0 <= p < |lrow| && 0 <= q < |rrow| && lrow[p] == (z[t].0, z[t].1) && rrow[q] == (z[t].0, z[t].2);
      FindAt(lrow, p);
      FindAt(rrow, q);
    }
    NnzZipAscending(lrow, rrow);
    forall j | 0 <= j < |ws| ensures Scatter(ws, z)[j] == WsSlot(lrow, rrows, j, k + 1) {
      ScatterAt(ws, z, j);
      var fl, fr := Find(lrow, j), Find(rrow, j);
      if fl.Some? && fr.Some? {
        var p :| 0 <= p < |lrow| && lrow[p] == (j, fl.value);
        var q :| 0 <= q < |rrow| && rrow[q] == (j, fr.value);
        NnzZipComplete(lrow, rrow, p, q);
      }
    }
  }

  /** The workspace `csr_mul_csr` builds for lhs row `i`. */
  function RowWorkspace(lhs: CsMat, rhs: CsMat, i: nat): (ws: seq<Option<int>>)
    requires ProductOperands(lhs, rhs) && i < lhs.rows
    ensures |ws| == rhs.cols
  {
    WsRow(Slice(lhs, i), OuterRows(rhs), rhs.cols)
  }

  /**
   * The result matrix after the first `n` lhs rows: row `i` is the compressed
   * workspace of lhs row `i`, rows in lhs order.
   */
  function CsrMulCsrRows(lhs: CsMat, rhs: CsMat, n: nat): (res: CsMat)
    requires ProductOperands(lhs, rhs) && n <= lhs.rows
    ensures Valid(res) && res.storage == CSR && res.rows == n && res.cols == rhs.cols
    ensures forall i :: 0 <= i < n ==> Slice(res, i) == Compress(RowWorkspace(lhs, rhs, i))
  {
    if n == 0 then Empty(CSR, rhs.cols)
    else
      var prev := CsrMulCsrRows(lhs, rhs, n - 1);
      var res := AppendOuter(prev, RowWorkspace(lhs, rhs, n - 1));
      AppendedRow(lhs, rhs, n, prev, res);
      res
  }

  /** Appending the compressed workspace of lhs row `n - 1` extends the rows built so far. */
  lemma {:induction false} AppendedRow(lhs: CsMat, rhs: CsMat, n: nat, prev: CsMat, res: CsMat)
    requires ProductOperands(lhs, rhs) && 0 < n <= lhs.rows
    requires Valid(prev) && prev.storage == CSR && prev.rows == n - 1 && prev.cols == rhs.cols
    requires forall i :: 0 <= i < n - 1 ==> Slice(prev, i) == Compress(RowWorkspace(lhs, rhs, i))
    requires res == AppendOuter(prev, RowWorkspace(lhs, rhs, n - 1))
    ensures Valid(res) && res.storage == CSR && res.rows == n && res.cols == rhs.cols
    ensures forall i :: 0 <= i < n ==> Slice(res, i) == Compress(RowWorkspace(lhs, rhs, i))
  {
    var ws := RowWorkspace(lhs, rhs, n - 1);
    assert Outer(prev) == n - 1 && |ws| == Inner(prev);
    assert Valid(res) && Outer(res) == n && Slice(res, n - 1) == Compress(ws);
    forall i | 0 <= i < n ensures Slice(res, i) == Compress(RowWorkspace(lhs, rhs, i)) {
      if i < n - 1 {
        assert Slice(res, i) == Slice(prev, i);
      }
    }
  }

  /**
   * Result row `i` stores, in strictly ascending order, exactly the indices `j`
   * that lhs row `i` shares with some rhs row; the value stored is the sum of
   * the products over those rhs rows, which is `L[i][j]` times the sum of
   * column `j` of R.
   */
  lemma ResultRowEntries(lhs: CsMat, rhs: CsMat, i: nat, j: nat)
    requires ProductOperands(lhs, rhs) && i < lhs.rows && j < rhs.cols
    ensures StrictlyAscending(Slice(CsrMulCsrRows(lhs, rhs, lhs.rows), i))
    ensures Find(Slice(CsrMulCsrRows(lhs, rhs, lhs.rows), i), j) ==
      if Matched(Slice(lhs, i), OuterRows(rhs), j, rhs.rows)
      then Some(SliceSum(Slice(lhs, i), j) * ColumnSum(OuterRows(rhs), j, rhs.rows))
      else None
  {
    var lrow, rrows := Slice(lhs, i), OuterRows(rhs);
    CompressFind(RowWorkspace(lhs, rhs, i), j);
    WsSlotClosedForm(lrow, rrows, j, rhs.rows);
    MatchSumIsScaledColumnSum(lrow, rrows, j, rhs.rows);
  }

  /**
   * `csr_mul_csr`, as written. The checks come first and a failed one leaves the
   * workspace untouched. Then, for each lhs row, the workspace is reset to empty,
   * every rhs row is intersected with the lhs row, and the compressed workspace
   * is appended as the next result row. The result has `lhs.rows` rows and
   * `rhs.cols` columns; the workspace is left holding the last row's slots.
   */
  method CsrMulCsr(lhs: CsMat, rhs: CsMat, workspace: array<Option<int>>)
    returns (result: Result<CsMat, ProductError>)
    requires Valid(lhs) && Valid(rhs)
    modifies workspace
    ensures lhs.cols != rhs.rows ==> result == Failure(InnerDims)
    ensures lhs.cols == rhs.rows && rhs.cols != workspace.Length ==> result == Failure(WorkspaceLen)
    ensures lhs.cols == rhs.rows && rhs.cols == workspace.Length && lhs.storage != rhs.storage ==>
      result == Failure(StorageMismatch)
    ensures lhs.cols == rhs.rows && rhs.cols == workspace.Length && lhs.storage == rhs.storage && rhs.storage != CSR ==>
      result == Failure(RhsNotCsr)
    ensures lhs.cols == rhs.rows && rhs.cols == workspace.Length && lhs.storage == rhs.storage && rhs.storage == CSR ==>
      result.Success?
    ensures result.Failure? ==> workspace[..] == old(workspace[..])
    ensures result.Success? ==>
      && ProductOperands(lhs, rhs) && lhs.cols == rhs.rows && workspace.Length == rhs.cols
      && result.value == CsrMulCsrRows(lhs, rhs, lhs.rows)
      && result.value.rows == lhs.rows && result.value.cols == rhs.cols
      && (lhs.rows == 0 ==> workspace[..] == old(workspace[..]))
      && (lhs.rows > 0 ==> workspace[..] == RowWorkspace(lhs, rhs, lhs.rows - 1))
  {
    var resRows, resCols := lhs.rows, rhs.cols;
    if lhs.cols != rhs.rows { return Failure(InnerDims); }
    if resCols != workspace.Length { return Failure(WorkspaceLen); }
    if lhs.storage != rhs.storage { return Failure(StorageMismatch); }
    if rhs.storage != CSR { return Failure(RhsNotCsr); }

    var res := AccumulateRows(lhs, rhs, workspace);
    assert resRows == res.rows;
    return Success(res);
  }

  /** The lhs-row loop of `csr_mul_csr`, once every check has passed. */
  method AccumulateRows(lhs: CsMat, rhs: CsMat, workspace: array<Option<int>>) returns (res: CsMat)
    requires ProductOperands(lhs, rhs) && lhs.cols == rhs.rows && workspace.Length == rhs.cols
    modifies workspace
    ensures res == CsrMulCsrRows(lhs, rhs, lhs.rows)
    ensures lhs.rows == 0 ==> workspace[..] == old(workspace[..])
    ensures lhs.rows > 0 ==> workspace[..] == RowWorkspace(lhs, rhs, lhs.rows - 1)
  {
    res := Empty(lhs.storage, rhs.cols);
    for i := 0 to lhs.rows
      invariant res == CsrMulCsrRows(lhs, rhs, i)
      invariant i == 0 ==> workspace[..] == old(workspace[..])
      invariant i > 0 ==> workspace[..] == RowWorkspace(lhs, rhs, i - 1)
    {
      res := AppendRow(lhs, rhs, i, res, workspace);
    }
  }

  /** One pass of the lhs-row loop: fill the workspace for row `i`, then compress it into the result. */
  method AppendRow(lhs: CsMat, rhs: CsMat, i: nat, res: CsMat, workspace: array<Option<int>>)
    returns (res': CsMat)
    requires ProductOperands(lhs, rhs) && lhs.cols == rhs.rows && i < lhs.rows
    requires workspace.Length == rhs.cols && res == CsrMulCsrRows(lhs, rhs, i)
    modifies workspace
    ensures res' == CsrMulCsrRows(lhs, rhs, i + 1)
    ensures workspace[..] == RowWorkspace(lhs, rhs, i)
  {
    FillRowWorkspace(lhs, rhs, i, workspace);
    res' := AppendOuter(res, workspace[..]);
  }

  /**
   * A consequence of intersecting on the result's column index: where lhs row `i`
   * stores nothing at index `j`, the result row stores nothing at `j` either,
   * whatever the rhs holds in column `j`.
   */
  lemma UnstoredLhsIndexGivesZero(lhs: CsMat, rhs: CsMat, i: nat, j: nat)
    requires ProductOperands(lhs, rhs) && i < lhs.rows && j < rhs.cols
    requires Find(Slice(lhs, i), j) == None
    ensures Find(Slice(CsrMulCsrRows(lhs, rhs, lhs.rows), i), j) == None
    ensures Entry(CsrMulCsrRows(lhs, rhs, lhs.rows), i, j) == 0
  {
    var lrow, rrows := Slice(lhs, i), OuterRows(rhs);
    assert !Matched(lrow, rrows, j, rhs.rows);
    ResultRowEntries(lhs, rhs, i, j);
    var res := CsrMulCsrRows(lhs, rhs, lhs.rows);
    SliceSumIsStoredValue(Slice(res, i), j);
  }

  /** The body of the outer loop for lhs row `i`: reset the workspace, then intersect with every rhs row. */
  method FillRowWorkspace(lhs: CsMat, rhs: CsMat, i: nat, workspace: array<Option<int>>)
    requires ProductOperands(lhs, rhs) && lhs.cols == rhs.rows && i < lhs.rows
    requires workspace.Length == rhs.cols
    modifies workspace
    ensures workspace[..] == RowWorkspace(lhs, rhs, i)
  {
    ghost var rrows := OuterRows(rhs);
    var lvec := Slice(lhs, i);
    ResetWorkspace(workspace);
    for k := 0 to rhs.rows
      invariant forall j :: 0 <= j < workspace.Length ==> workspace[j] == WsSlot(lvec, rrows, j, k)
    {
      var rvec := Slice(rhs, k);
      var zip := NnzZip(lvec, rvec);
      AccumulateRhsRow(lvec, rrows, k, workspace[..]);
      AccumulateZip(workspace, zip);
    }
  }

  /** The reset loop: every slot of the workspace becomes empty. */
  method ResetWorkspace(workspace: array<Option<int>>)
    modifies workspace
    ensures forall j :: 0 <= j < workspace.Length ==> workspace[j] == None
  {
    for w := 0 to workspace.Length
      invariant forall j :: 0 <= j < w ==> workspace[j] == None
    {
      workspace[w] := None;
    }
  }

  /** The loop over one `nnz_zip` sequence: each triple accumulates `lval * rval` into its slot. */
  method AccumulateZip(workspace: array<Option<int>>, zip: seq<(nat, int, int)>)
    requires forall t :: 0 <= t < |zip| ==> zip[t].0 < workspace.Length
    modifies workspace
    ensures workspace[..] == Scatter(old(workspace[..]), zip)
  {
    ghost var before := workspace[..];
    for t := 0 to |zip|
      invariant workspace[..] == Scatter(before, zip[..t])
    {
      var colInd, lval, rval := zip[t].0, zip[t].1, zip[t].2;
      var prod := lval * rval;
      assert zip[..t + 1][..t] == zip[..t];
      match workspace[colInd] {
        case None => workspace[colInd] := Some(prod);
        case Some(acc) => workspace[colInd] := Some(acc + prod);
      }
    }
    assert zip[..|zip|] == zip;
  }
}
