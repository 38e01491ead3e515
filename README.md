# Sparse products of sprs, modelled in Dafny

This project models the sparse product kernels of the Rust crate sprs
(`src/sparse/prod.rs`) over integers:

- `mul_acc_mat_vec_csc` scatters the columns of a column-major (CSC) matrix
  into a dense result buffer: `res_vec[row] += in_vec[col] * value`.
- `mul_acc_mat_vec_csr` does a gather-dot per row of a row-major (CSR) matrix
  and accumulates into the result buffer.
- `csr_mul_csr` builds a row-major result one lhs row at a time. It uses a
  caller-owned workspace of optional accumulators: it resets the workspace,
  accumulates products into it, then compresses it into the result with
  `append_outer`.

The compressed matrix `CsMat` is a datatype (`CsMatrix.CsMat`) with storage
order, dimensions and the `indptr`/`indices`/`data` arrays. `CsMatrix.Valid`
is its well-formedness invariant:

- `indptr` has one more entry than the outer dimension;
- `indptr` is non-decreasing, and its last entry is the number of stored entries;
- every inner index is below the inner dimension;
- inner indices strictly ascend within each outer slice.

The container operations the kernels call are specified functions with
contracts:

- `outer_iterator` is `CsMatrix.Slice` / `CsMatrix.OuterRows`;
- `CsMat::empty` is `CsMatrix.Empty`;
- `append_outer` is `CsMatrix.AppendOuter`, built on `CsMatrix.Compress`;
- the sorted intersection `nnz_zip` is `SparseVec.NnzZip`.

Each entry check (`assert!`/`assert_eq!` at src/sparse/prod.rs:10-12, 26-28
and 56-59) becomes an error value: `Outcome` for the
mat-vec kernels and `Result` for the product. The checks are kept in source
order, so the first failing one decides the error. Every entry check comes
before any write, so on failure the caller's buffers are unchanged. The final
row-count check of `csr_mul_csr` (src/sparse/prod.rs:81) runs after the
workspace has been written; the model proves it always holds, so it has no
error value.

Both mat-vec kernels are imperative methods over an `array<int>`. They are
proved against one dense reference, `DenseRef.DenseMatVec`, where entry `r`
is `out[r] + sum_c M[r][c] * v[c]`.

The product kernel is an imperative method over an `array<Option<int>>`. It is
proved to return `Prod.CsrMulCsrRows`, a specification of the rows it appends.
Lemmas then state what those rows contain, in the terms of the logical matrices.

As written, `csr_mul_csr` does not compute the matrix product its doc comment
announces. For every lhs row it visits **every** rhs row and intersects the
two on their inner index. Result entry `(i, j)` is therefore stored exactly
when some rhs row shares index `j` with lhs row `i`. Its value is
`L[i][j] * sum_k R[k][j]`.

The module `CorrectedProd` holds the kernel the comment describes: for each
stored lhs entry `(k, lval)`, rhs row `k` is scaled and accumulated. It keeps
the same checks and the same workspace protocol, and it is proved to compute
`sum_k L[i][k] * R[k][j]`. See "Findings".

Files:

- `outcomes.dfy`: Option, Outcome and Result.
- `sparse_vec.dfy`: inner sparse vectors, `Find`, and `nnz_zip`.
- `cs_mat.dfy`: `CsMat`, `Valid`, slices, `empty`, and `append_outer`.
- `dense.dfy`: the dense meaning of a matrix and the reference mat-vec product.
- `prod.dfy`: the three kernels as written.
- `prod_corrected.dfy`: the corrected product and the counterexample.

## Model

| member | source | states |
|---|---|---|
| Prod.MulAccMatVecCsc | src/sparse/prod.rs:8-22 | The three checks in order: `cols == |in_vec|`, then `rows == |res_vec|`, then CSC storage. It succeeds exactly when all three hold. On a failed check the buffer is unchanged. On success the buffer becomes `old + M * in_vec`, the dense reference. |
| Prod.ScatterColumn | src/sparse/prod.rs:15-20 | Scattering one column adds `multiplier * value` to the buffer slot of each stored row index and changes no other slot. |
| Prod.MulAccMatVecCsr | src/sparse/prod.rs:24-37 | The same checks with CSR storage, the same success condition, an unchanged buffer on failure, and the same result `old + M * in_vec` on success. |
| Prod.GatherRow | src/sparse/prod.rs:31-35 | The gather over one row's stored entries adds that row's sparse dot product with `in_vec` to its buffer slot, and changes no other slot. |
| Prod.CsrMulCsr | src/sparse/prod.rs:49-83 | The four checks in order, each with its own error, and the workspace unchanged on failure. It succeeds exactly when all four hold. On success the result has `lhs.rows` rows and `rhs.cols` columns. It equals `CsrMulCsrRows` (rows appended in lhs order), and the workspace is left holding the last row's accumulators. |
| Prod.AppendRow | src/sparse/prod.rs:62-79 | One pass over lhs row `i` takes the result from its first `i` rows to its first `i + 1` rows and leaves row `i`'s accumulators in the workspace. |
| Prod.AccumulateRows | src/sparse/prod.rs:61-80 | Once the checks have passed, the lhs-row loop returns `CsrMulCsrRows` over all lhs rows. The workspace then holds the last row's accumulators, or is untouched when lhs has no rows. |
| Prod.FillRowWorkspace | src/sparse/prod.rs:62-77 | After processing lhs row `i`, the workspace is `RowWorkspace(lhs, rhs, i)`. |
| Prod.ResetWorkspace | src/sparse/prod.rs:64-66 | Every workspace slot is `None` before a row is accumulated. |
| Prod.AccumulateZip | src/sparse/prod.rs:69-76 | The zip loop applies each triple's update to its slot: `None` becomes `Some(lval * rval)`, and `Some(acc)` becomes `Some(acc + lval * rval)`. |
| Prod.Acc | src/sparse/prod.rs:72-75 | One workspace update always leaves the slot occupied, holding its previous value (0 when it was empty) plus the product. |
| Prod.ScatterAt | src/sparse/prod.rs:69-76 | With distinct zip indices, a slot no triple names is unchanged. A slot named by a triple receives exactly that triple's update. |
| Prod.AccumulateRhsRow | src/sparse/prod.rs:68-76 | Every zip index is in bounds for the workspace. One pass of the zip takes each slot from its state after `k` rhs rows to its state after `k + 1`. |
| Prod.WsSlotClosedForm | src/sparse/prod.rs:68-76 | Slot `j` is `None` exactly when no rhs row shares index `j` with the lhs row. Otherwise it holds the sum of `lval * rval` over those rhs rows: the first match sets the slot and later matches add to it. |
| Prod.MatchSumIsScaledColumnSum | src/sparse/prod.rs:68-76 | That sum equals the lhs entry at `j` times the sum of column `j` over all rhs rows. |
| Prod.CsrMulCsrRows | src/sparse/prod.rs:61-80 | The result after `n` lhs rows is well formed and CSR, with `n` rows and `rhs.cols` columns. Its row `i` is the compressed workspace of lhs row `i`. |
| Prod.ResultRowEntries | src/sparse/prod.rs:62-80 | Result row `i` strictly ascends. It stores index `j` iff lhs row `i` and some rhs row both store `j`, and the stored value is `L[i][j] * sum_k R[k][j]`. |
| Prod.UnstoredLhsIndexGivesZero | src/sparse/prod.rs:69 | Where lhs row `i` stores nothing at index `j`, result entry `(i, j)` is unstored and zero, whatever column `j` of the rhs holds. |
| SparseVec.NnzZip | src/sparse/prod.rs:69 | The intersection yields no more triples than either vector has entries. |
| SparseVec.NnzZipPairs | src/sparse/prod.rs:69 | Every triple the intersection yields pairs an lhs entry and an rhs entry at the same index. |
| SparseVec.NnzZipAscending | src/sparse/prod.rs:69 | On strictly ascending vectors the intersection yields strictly ascending indices. |
| SparseVec.NnzZipComplete | src/sparse/prod.rs:69 | On strictly ascending vectors every index stored in both vectors is yielded, with both of its values. |
| CsMatrix.ValidSliceBounds | src/sparse/prod.rs:14 | For a well-formed matrix (`CsMatrix.Valid`: `indptr` has one entry per outer index plus one, is non-decreasing and ends at the entry count; inner indices are in range and ascend within each slice), every outer slice's `indptr` range lies within the stored entries. |
| CsMatrix.Slice | src/sparse/prod.rs:14 | The outer iterator yields each slice's (index, value) pairs from its `indptr` range. The indices are below the inner dimension and strictly ascend. |
| CsMatrix.OuterRows | src/sparse/prod.rs:14 | The whole of `outer_iterator`: one inner vector per outer index, in outer order, each equal to that outer slice. |
| CsMatrix.Empty | src/sparse/prod.rs:61 | `CsMat::empty` is well formed, with no outer slice and the given inner dimension. |
| CsMatrix.Compress | src/sparse/prod.rs:79 | The compressed workspace lists indices in strictly ascending order, each below the workspace length. |
| CsMatrix.CompressFind | src/sparse/prod.rs:79 | Looking up any index in the compressed workspace gives exactly that workspace slot: occupied slots keep their values and empty ones are absent. |
| CsMatrix.AppendOuter | src/sparse/prod.rs:79 | `append_outer` keeps the matrix well formed and adds one outer slice equal to the compressed workspace. Earlier slices are untouched. |
| DenseRef.CscScatterIsDenseDot | src/sparse/prod.rs:14-21 | Scattering all the columns adds, to each row, that row's dense dot product with `in_vec`. |
| DenseRef.CsrRowDot | src/sparse/prod.rs:30-36 | The gather over a CSR row's stored entries equals that row's dense dot product with `in_vec`. |
| DenseRef.SliceDotIsDenseDot | src/sparse/prod.rs:31-34 | A sparse gather over stored entries equals the dense dot product of the densified vector. |
| DenseRef.NoEntriesNoChange | src/sparse/prod.rs:18-34 | An accumulating product with a matrix that stores nothing leaves the buffer unchanged. |
| DenseRef.AccumulateTwice | src/sparse/prod.rs:18-34 | Accumulating twice adds the product twice, because the kernels add to the buffer rather than overwrite it. |
| DenseRef.SameMatrixSameProduct | src/sparse/prod.rs:8-37 | Two encodings of the same logical matrix, for example a CSC and a CSR one, give the same result from the same buffers. |
| CorrectedProd.CsrMulCsr | src/sparse/prod.rs:39-43 | The corrected kernel has the same checks, errors and success condition as `csr_mul_csr`. On success it returns `ProductRows`, the product the doc comment announces. |
| CorrectedProd.AccumulateProductRows | src/sparse/prod.rs:61-80 | The corrected lhs-row loop returns `ProductRows` over all lhs rows. The workspace then holds the last row's accumulators, or is untouched when lhs has no rows. |
| CorrectedProd.AppendProductRow | src/sparse/prod.rs:62-79 | One corrected pass over lhs row `i` extends the result from `i` rows to `i + 1` and leaves row `i`'s accumulators in the workspace. |
| CorrectedProd.FillProductWorkspace | src/sparse/prod.rs:62-77 | After the corrected accumulation for lhs row `i`, the workspace is `ProductWorkspace(lhs, rhs, i)`. |
| CorrectedProd.AccumulateScaledRow | src/sparse/prod.rs:69-76 | Scattering rhs row `k` scaled by `lval` applies the same slot update as the as-written zip loop to each of its triples. |
| CorrectedProd.AccumulateRhsRowOf | src/sparse/prod.rs:68-76 | One pass of the corrected per-entry loop: lhs entry `t` scales its rhs row into the workspace, taking every slot from its state after `t` lhs entries to its state after `t + 1`. |
| CorrectedProd.AccumulateLhsEntry | src/sparse/prod.rs:68-76 | Processing one more lhs entry takes every workspace slot from its state after `t` entries to its state after `t + 1`. |
| CorrectedProd.ProductSlotClosedForm | src/sparse/prod.rs:70-75 | In the corrected kernel, slot `j` is `None` exactly when no visited lhs entry names an rhs row storing `j`. Otherwise it holds the sparse dot product of the visited lhs entries with column `j`. |
| CorrectedProd.ProductSlotFinal | src/sparse/prod.rs:39-43 | After the whole lhs row, slot `j` is occupied iff some `k` has both `L[i][k]` and `R[k][j]` stored. Its value (0 if empty) is the sparse dot product of the lhs row with column `j`. |
| CorrectedProd.ProductRowEntries | src/sparse/prod.rs:39-43 | The corrected entry `(i, j)` is `sum_k L[i][k] * R[k][j]`. It is stored iff some `k` has both `L[i][k]` and `R[k][j]` stored. |
| CorrectedProd.AsWrittenIsNotProduct | src/sparse/prod.rs:68-69 | For L = [[1]] and R = [[0, 1]], the as-written result differs from `L * R` at entry (0, 1), while the corrected result agrees with it. |

## Left out

- Floating point: the scalar is `int`. The epsilon comparisons of the tests (src/sparse/prod.rs:107-110, 129-132) are not modelled, and their 5x5 scenarios are not restated as concrete lemmas.
- Rust storage genericity (`Deref` storages, borrowed and owned buffers), the `Num + Copy` trait plumbing, and the "unsafe access" TODO comments. These have no behaviour of their own, except for arithmetic overflow.
- Fixed-width overflow: for a fixed-width integer scalar, Rust's `+` and `*` panic on overflow in debug builds and wrap in release builds. The model's `int` is unbounded, so neither behaviour is modelled.
- `from_slices` validation: src/sparse/csmat.rs is not part of this model. Input matrices are required to satisfy `CsMatrix.Valid`, which is what a successfully built `CsMat` guarantees.
- `append_outer`: its source is not part of this model. It is assumed to keep every occupied slot, including one holding `Some(0)`, in ascending index order.
- Panics become error values. A panic unwinds with the caller's buffers as they were, and the model returns the error with the buffers unchanged. Every entry check precedes every write, so these agree. The final row-count check at src/sparse/prod.rs:81 cannot fail: it is proved.
- Out-of-bounds indexing: under `Valid` every index the kernels use is in range, and the verifier checks this on each array and sequence access. No panic path for it is modelled.
- `mat`, `in_vec`, `lhs` and `rhs` are values in the model, so they are unchanged by construction. `res_vec` and `workspace` are arrays, whose length is fixed.
- Parallel execution: the source is purely sequential.
- Prod.CsrMulCsr: does not state that the result is the matrix product, because as written it is not (see Findings). Its contract states what the code computes instead.

## Findings

| source | as written | input that shows it | evidently intended | confidence | as-written member | corrected member |
|---|---|---|---|---|---|---|
| src/sparse/prod.rs:68-69 | Every rhs row is intersected with the lhs row on the shared inner index, so entry `(i, j)` becomes `L[i][j] * sum_k R[k][j]`. | L = [[1]] (1x1), R = [[0, 1]] (1x2): the result row stores nothing, so entry (0, 1) is 0, while `L * R` has 1 there. | For each stored lhs entry `(k, lval)`, accumulate `lval` times rhs row `k`, which gives the matrix product announced at src/sparse/prod.rs:39-43. | not executed | CorrectedProd.AsWrittenIsNotProduct | CorrectedProd.ProductRowEntries |
