# DGL CSR sparse matrix routines, modelled in Dafny

This project models DGL's compressed-sparse-row matrix (`CSRMatrix` in
`include/dgl/aten/csr.h`) and the routines declared next to it. A matrix is
`num_rows` by `num_cols`. It has a row-pointer array `indptr`, a column array
`indices` and an optional entry-id array `data`. When `data` is null, the id of
the entry stored at position k is k. The `sorted` flag promises that the
columns of every row are in ascending order. Duplicate (row, col) entries are
allowed, so a matrix is the adjacency structure of a directed multigraph.

Modules:

- `Seqs`: generic sequence tools (flatten, offsets, cumulative sums, element-wise add).
- `CsrMatrix`: the `CSRMatrix` value, its structural invariant `Valid`, the
  checked constructor, `CopyTo`, and the row view `Rows(m)`. The row view is a
  sequence of rows of `Item(col, eid)`; `Build` turns rows back into a matrix.
- `CsrQuery`: per-row and per-entry queries (`CSRGetRowNNZ`, `CSRIsNonZero`,
  `CSRGetData`, ...).
- `CsrSort`: `CSRSort_`, the in-place sort. It is imperative: a class holding
  the shared `indices`/`data` buffers as `array`s. Also `CSRSort` and
  `CSRHasDuplicate`.
- `CsrSimple`: `CSRToSimple`.
- `CsrTransform`: `CSRToCOO`, `CSRSliceRows`, `CSRTranspose`.
- `CsrCombine`: `UnionCsr`, `DisjointUnionCsr`.
- `CsrPartition`: `DisjointPartitionCsrBySizes` and its round trip with
  `DisjointUnionCsr`.

This model follows `include/dgl/aten/csr.h`. Most routines are only declared
there, so each is defined from its doc comment and worked example. A fatal `CHECK`
becomes a `Failure(error)` value of a `Result`.

## Model

| member | source | states |
|---|---|---|
| CsrMatrix.NewCSR | include/dgl/aten/csr.h:49-58 | The constructor succeeds exactly when `indptr` has `num_rows + 1` elements. It then stores the fields unchanged; otherwise it fails with `IndptrLengthMismatch`. |
| CsrMatrix.ValidPassesCheck | include/dgl/aten/csr.h:102-112 | Every matrix satisfying the structural invariant passes CheckValidity's length check and is reconstructed unchanged. |
| CsrMatrix.CopyToPreserves | include/dgl/aten/csr.h:115-122 | CopyTo returns the same matrix, with every field preserved (a null data array stays null), whether or not the device differs. |
| CsrMatrix.BuildRows | include/dgl/aten/csr.h:37-45 | Rows whose columns lie in range assemble into a valid matrix whose row view gives back exactly those rows. |
| CsrMatrix.RowsFlatten | include/dgl/aten/csr.h:40-43 | Concatenating the rows gives the stored entries in storage order, and the row lengths' offsets are `indptr`. |
| CsrMatrix.TripleAt | include/dgl/aten/csr.h:40-43 | Stored position k is the entry (row owning k, `indices[k]`, data id or k). |
| CsrQuery.GetRowNNZ | include/dgl/aten/csr.h:135-136 | Succeeds exactly for rows in range, with the length of that row's column list. |
| CsrQuery.RowNNZSum | include/dgl/aten/csr.h:135-136 | The row counts sum to nnz. |
| CsrQuery.GetRowNNZBatch | include/dgl/aten/csr.h:137 | Fails if any row id is out of range; otherwise element i equals the scalar GetRowNNZ of `rows[i]`. |
| CsrQuery.GetRowColumnIndices | include/dgl/aten/csr.h:139-140 | Returns the row's columns. Its length agrees with GetRowNNZ and every column is below num_cols. |
| CsrQuery.GetRowData | include/dgl/aten/csr.h:142-143 | Returns the row's slice of `data`, or the position range when `data` is null. Its length agrees with GetRowNNZ. |
| CsrQuery.AdjacentSortedIsSorted | include/dgl/aten/csr.h:150-151 | The adjacent-pairs check used by IsSorted is equivalent to the row being non-decreasing. |
| CsrQuery.IsSorted | include/dgl/aten/csr.h:150-151 | True exactly when every row's columns are in ascending order. |
| CsrQuery.FindInRow | include/dgl/aten/csr.h:127 | For a matrix whose sorted flag is truthful: -1 exactly when the column is absent from the row, otherwise the first position holding it. |
| CsrQuery.IsNonZero | include/dgl/aten/csr.h:126-127 | Fails for (row, col) out of range; otherwise true exactly when the column occurs in the row. |
| CsrQuery.Broadcast | include/dgl/aten/csr.h:129-131 | Row and column arrays pair up when they have equal lengths or one has length 1; the length-1 array is repeated. |
| CsrQuery.IsNonZeroBatch | include/dgl/aten/csr.h:128-132 | Fails on a broadcast mismatch or an out-of-range pair; otherwise element i is the scalar IsNonZero of pair i. |
| CsrQuery.MatchEidsSpec | include/dgl/aten/csr.h:153-168 | The ids matched in a row are exactly the ids of that row's entries with the column, one per occurrence. |
| CsrQuery.GetDataAndIndicesSpec | include/dgl/aten/csr.h:153-170 | A (row, col, id) triple is returned exactly when some broadcast pair asks for (row, col) and the matrix stores that entry; pairs without an entry contribute nothing. |
| CsrQuery.GetAllDataSpec | include/dgl/aten/csr.h:172-180 | Returns every id stored at (row, col), as many as there are duplicates. It is non-empty exactly when IsNonZero holds. |
| CsrQuery.GetData | include/dgl/aten/csr.h:182-199 | Fails on a broadcast mismatch or an out-of-range pair; otherwise returns one value per broadcast pair. |
| CsrQuery.GetDataSpec | include/dgl/aten/csr.h:182-199 | Each value is -1 exactly when (row, col) has no entry; otherwise it is the id of the first stored entry at that position. |
| CsrSort.SortItems | include/dgl/aten/csr.h:272-277 | The per-row sort keeps the row's length and its multiset of entries. |
| CsrSort.SortItemsSorted | include/dgl/aten/csr.h:272-277 | The per-row sort leaves columns ascending. |
| CsrSort.SortItemsStable | include/dgl/aten/csr.h:272-277 | Entries with the same column keep their relative order. |
| CsrSort.SortItemsFixesSorted | include/dgl/aten/csr.h:272-277 | An already-sorted row is left unchanged. |
| CsrSort.SortAllSpec | include/dgl/aten/csr.h:272-289 | Sorting keeps `indptr` and the shape and permutes each row's entries (column with its id). The result is sorted by column and flagged sorted. |
| CsrSort.SortAllIdempotent | include/dgl/aten/csr.h:272-289 | Sorting a matrix whose rows are already sorted changes nothing but materialising the ids and setting the flag. |
| CsrSort.CSRBuffers.constructor | include/dgl/aten/csr.h:37-45 | Wraps a matrix value around the given `indices`/`data` buffers. |
| CsrSort.CSRBuffers.MaterializeIds | include/dgl/aten/csr.h:42-43 | A null data array is replaced by a fresh array holding 0..nnz-1. The stored entries are unchanged. |
| CsrSort.CSRBuffers.Sort_ | include/dgl/aten/csr.h:272-289 | In place: the same `indices` and `data` buffers now hold the per-row sorted matrix. `indptr` is untouched. |
| CsrSort.SortRows | include/dgl/aten/csr.h:272-289 | The row-by-row loop writes the per-row sorted columns and ids into the two buffers. |
| CsrSort.SortRow | include/dgl/aten/csr.h:272-289 | One row is sorted and written back; all other positions are untouched. |
| CsrSort.WriteRow | include/dgl/aten/csr.h:272-289 | Writing a row's items into the buffers replaces exactly that segment. |
| CsrSort.CSRBuffers.Share | include/dgl/aten/csr.h:291-305 | A shallow copy shares the buffers (NDArray handles are reference-counted). |
| CsrSort.CSRBuffers.SortCopy | include/dgl/aten/csr.h:291-305 | A matrix flagged sorted is returned sharing the buffers. Otherwise the result holds fresh buffers with the sorted matrix. |
| CsrSort.SharedBuffersObserveSort | include/dgl/aten/csr.h:272-289 | After CSRSort_ on a struct, a shallow copy taken before sees the sorted columns through the shared `indices` buffer and keeps the old sorted flag. With a data array, it also sees the permuted ids. With a null data array, the sort installs a fresh ids array the copy does not see: the copy keeps null ids, so its sorted columns are paired with their positions. |
| CsrSort.SortCopyIsolated | include/dgl/aten/csr.h:272-305 | A CSRSort copy taken before CSRSort_ still holds the sorted matrix in its own buffers. When the flag was already set, CSRSort had shared the buffers instead. The copy then sees the in-place sort's `indices` but keeps the old data array, which is null when the struct had none. |
| CsrSort.CSRSortSpec | include/dgl/aten/csr.h:291-305 | CSRSort yields a sorted, valid matrix with the same `indptr` and with each row a permutation of the input row. |
| CsrSort.SortDocExample | include/dgl/aten/csr.h:278-287 | The documented input sorts to indices [0, 1, 2, 1, 3] with ids [1, 0, 2, 4, 3]. |
| CsrSort.SortDocExampleAsDocumented | include/dgl/aten/csr.h:286-287 | The documented result [0, 1, 1, 2, 3] is not what sorting produces: it would move row 1's column 2 to column 1. |
| CsrSort.DupScanSpec | include/dgl/aten/csr.h:269-270 | The hash-set scan finds a repeat exactly when some element was already seen or occurs twice. |
| CsrSort.HasDuplicate | include/dgl/aten/csr.h:269-270 | True exactly when some row stores a column twice. |
| CsrSimple.DedupSpec | include/dgl/aten/csr.h:474-496 | Deduplicating a sorted row gives a strictly increasing row with the same set of columns. |
| CsrSimple.UniqueColsSpec | include/dgl/aten/csr.h:474-496 | A row of the simple graph is strictly increasing and holds exactly the columns of the original row. |
| CsrSimple.CountSum | include/dgl/aten/csr.h:493-495 | The per-column counts of a row sum to the row's length. |
| CsrSimple.CountsSpec | include/dgl/aten/csr.h:493-495 | Every count is at least 1, equals the multiplicity of its column in its row, and the counts sum to the original nnz. |
| CsrSimple.TargetsSpec | include/dgl/aten/csr.h:493-495 | Every original entry maps into its own row of the simple graph, onto an entry with the same column. |
| CsrSimple.ToSimpleIsSimple | include/dgl/aten/csr.h:474-496 | The simplified matrix is valid and sorted, has no duplicates and has the same (row, col) pairs as the input. |
| CsrSimple.ToSimpleRows | include/dgl/aten/csr.h:474-496 | Same shape; each row is the row's distinct columns ascending; no data array; flagged sorted. |
| CsrSimple.ToSimpleCount | include/dgl/aten/csr.h:482-495 | `cnt` has one entry per simple edge: its multiplicity in the original (at least 1). The counts sum to the original nnz. |
| CsrSimple.ToSimpleEdgeMap | include/dgl/aten/csr.h:482-495 | `edge_map` is indexed by original edge id: the entry stored at position k, with id `data[k]` (or k when there is no data array), maps to a simple edge in the same row with the same column. |
| CsrSimple.ToSimpleCountMatchesMap | include/dgl/aten/csr.h:482-495 | `cnt` and `edge_map` agree: exactly `cnt[p]` original edges map to simple edge p, and `cnt[p]` >= 1, so every simple edge is hit. |
| CsrSimple.CountsMatchTargets | include/dgl/aten/csr.h:482-495 | Row by row, the number of positions that target a kept entry equals that entry's count. |
| CsrSimple.ByIdAt | include/dgl/aten/csr.h:493-494 | Re-indexing a per-position map by a permutation of edge ids puts each position's value at its id and keeps the multiset of values. |
| CsrSimple.ToSimpleExample | include/dgl/aten/csr.h:476-489 | The documented A gives the documented B, `cnt` = [3, 2, 1, 1, 4] and `edge_map` = [0, 0, 0, 1, 1, 2, 3, 4, 4, 4, 4]. |
| CsrTransform.ExpandRowsSpec | include/dgl/aten/csr.h:204-222 | The expanded row array gives each position its owning row and is non-decreasing. |
| CsrTransform.ToCOOStorageOrder | include/dgl/aten/csr.h:207-211 | With `data_as_order` false, the COO column and data arrays equal the CSR indices and data. The COO is row sorted, and column sorted exactly when the CSR was flagged sorted. |
| CsrTransform.ToCOOTriples | include/dgl/aten/csr.h:204-222 | The COO holds the same (row, col, id) entries, position by position. |
| CsrTransform.ToCOOColumnsSorted | include/dgl/aten/csr.h:210-211 | When the CSR is sorted, the COO flagged column sorted really is sorted within each row. |
| CsrTransform.ToCOODataOrder | include/dgl/aten/csr.h:214-218 | With `data_as_order` true, entry k is stored at COO position `data[k]`, and the COO data array is null. |
| CsrTransform.SliceRows | include/dgl/aten/csr.h:224-247 | Fails unless 0 <= start <= end <= num_rows; the result has end - start rows and the same columns. |
| CsrTransform.SliceRowsSpec | include/dgl/aten/csr.h:224-247 | The slice is valid, its rows are rows start..end-1 relabelled from 0 (ids kept), and a truthful sorted flag stays truthful. |
| CsrTransform.SliceRowsExample | include/dgl/aten/csr.h:229-240 | Slicing rows 1..3 of the documented matrix gives `indptr` [0, 1, 1] and `indices` [2]. |
| CsrTransform.SliceRowsByIds | include/dgl/aten/csr.h:248 | Fails exactly when some row id is out of range. |
| CsrTransform.SliceRowsByIdsSpec | include/dgl/aten/csr.h:248 | Row i of the result is row `rows[i]` of the input, ids kept; the result is valid. |
| CsrTransform.TransposeValid | include/dgl/aten/csr.h:201-202 | The transpose is a valid num_cols by num_rows matrix. |
| CsrTransform.TransposeTriples | include/dgl/aten/csr.h:201-202 | The transpose holds each entry (r, c, id) as (c, r, id), with the same multiplicity. |
| CsrTransform.TransposeTwice | include/dgl/aten/csr.h:201-202 | Transposing twice gives back the same multiset of entries. |
| CsrCombine.UnionCsr | include/dgl/aten/csr.h:407-437 | Fails on an empty list or on inputs of different shapes; otherwise the result has the common shape. |
| CsrCombine.UnionSpec | include/dgl/aten/csr.h:407-437 | The union is valid. Each row is the concatenation of the inputs' rows, with ids offset by the earlier inputs' nnz, sorted when all inputs were. |
| CsrCombine.UnionColumnCount | include/dgl/aten/csr.h:407-437 | The count of column c in row r of the union is the sum of its counts in the inputs (C = A + B as dense counts). |
| CsrCombine.UnionExample | include/dgl/aten/csr.h:412-433 | The documented A and B give a union whose dense counts are the documented C = [[0,1,2,0],[1,0,1,2],[0,1,1,0]]. B's edges are numbered from 5. |
| CsrCombine.UnionItemCount | include/dgl/aten/csr.h:407-437 | Every entry of every input appears in the union exactly as often, with its id shifted by that input's edge offset. |
| CsrCombine.ShiftCount | include/dgl/aten/csr.h:439-472 | Shifting a row's columns and ids moves each entry's multiplicity with it. |
| CsrCombine.DisjointUnionCsr | include/dgl/aten/csr.h:439-472 | Fails on an empty list; otherwise returns the block-diagonal union, which is valid. |
| CsrCombine.UnionArraysValid | include/dgl/aten/csr.h:439-472 | The concatenated `indptr` starts at 0, never decreases and ends at the total nnz. The shifted columns lie below the total column count. |
| CsrCombine.DisjointUnionBlock | include/dgl/aten/csr.h:439-472 | Input i occupies rows, columns and entry positions from its cumulative offsets. Its ids are shifted by its edge offset. |
| CsrCombine.DisjointUnionRow | include/dgl/aten/csr.h:439-472 | Row r of input i is row RowOffsets[i] + r of the union, with columns shifted by ColOffsets[i] and ids by EdgeOffsets[i]. |
| CsrCombine.DisjointUnionFlags | include/dgl/aten/csr.h:439-472 | The union has a data array exactly when some input does, and is flagged sorted exactly when all inputs are. |
| CsrCombine.DisjointUnionHint | include/dgl/aten/csr.h:439-472 | When every input's sorted flag is truthful, so is the union's. |
| CsrCombine.DisjointUnionShape | include/dgl/aten/csr.h:439-472 | Rows, columns and nnz of the union are the sums over the inputs. |
| CsrPartition.DisjointPartitionCsrBySizes | include/dgl/aten/csr.h:498-547 | Fails unless the edge and source cumsums are non-decreasing boundary arrays of batch_size + 1 elements within the matrix and the destination cumsum has batch_size + 1 elements. Otherwise returns batch_size blocks. |
| CsrPartition.PartitionAt | include/dgl/aten/csr.h:498-547 | Block g is rows src[g]..src[g+1]-1 and entries edge[g]..edge[g+1]-1, renumbered from the block's first row, column and entry. |
| CsrPartition.PartValid | include/dgl/aten/csr.h:498-547 | A block whose boundaries agree with the matrix is valid. Its row r holds row q0 + r's columns shifted back by the block's first column. |
| CsrPartition.PartitionValid | include/dgl/aten/csr.h:498-547 | When every block's boundaries agree with the matrix, every returned block is valid. |
| CsrPartition.PartitionOfUnion | include/dgl/aten/csr.h:439-547 | Partitioning a disjoint union by its own cumulative sizes gives back each input, with the union's data presence and sorted flag. |
| CsrPartition.PartitionOfUnionExact | include/dgl/aten/csr.h:439-547 | Inputs that agree on data presence and sorted flag come back exactly: partition inverts the disjoint union. |
| CsrPartition.DisjointUnionExample | include/dgl/aten/csr.h:441-465 | The documented A and B give the documented 5x5 C. |
| CsrPartition.PartitionExample | include/dgl/aten/csr.h:500-533 | The documented C with cumsums [0, 4, 6], [0, 3, 6], [0, 3, 5] gives the documented A (3x3) and B (3x2). |

## Left out

- Load and Save (csr.h:77-100): stream serialisation is I/O.
- Dtype, device-context and overflow checks of CheckValidity and CopyTo (csr.h:103-110, 115-117): there are no dtypes or devices here. CopyTo takes "same device" as a boolean, and a copy is the same value.
- 32/64-bit integer width: ids, offsets and sizes are unbounded integers. Overflow cannot happen in the model.
- The constructor from a SparseMatrix (csr.h:61-75): SparseMatrix is not part of this model.
- CSRRowWiseSampling (csr.h:322-361) and CSRRowWiseTopk (csr.h:363-405): randomness, floating-point weights and a COO result of a separate subsystem.
- CSRSliceMatrix (csr.h:250-267) and CSRReorder (csr.h:307-313): not part of this model.
- CSRRemove (csr.h:315-320): not part of this model. Its doc promises a mapping from new entries to old ones, but the declared signature returns only a matrix. The behaviour cannot be pinned down from the header.
- CsrSort.CSRBuffers.Sort_: a null data array is first replaced by the identity ids 0..nnz-1, so the permutation stays observable. The header says only "data (if available)". The model therefore always leaves a data array behind.
- CsrSimple.ToSimpleEdgeMap: the map by edge id is specified only when the data array lists each id 0..nnz-1 exactly once (or is absent). For other data arrays the model leaves -1 in slots of ids that do not occur, and nothing is promised.
- CsrSimple.ToSimpleCountMatchesMap: carries the same condition on the data array.
- CsrSort.SortItems: the per-row sort is a stable insertion sort. The header does not say which order equal columns end up in; stability is a property of this model only.
- CsrCombine.UnionCsr: the header gives only the dense counts (C = A + B). The order of entries within a row (input order, re-sorted when all inputs are sorted) and the ids (offset by earlier inputs' nnz, always materialised) are choices of this model.
- CsrCombine.DisjointUnionCsr: the header does not say what an empty list gives; the model fails with `EmptyInput`.
- CsrPartition.DisjointPartitionCsrBySizes: the header states no checks. The model requires the two cumsums it slices by to be in range and the destination cumsum to have batch_size + 1 elements. Blocks keep the input's sorted flag. Ids are shifted down by the block's first entry position. The agreement between boundaries and matrix (`BlockAligned`) is assumed by the validity lemma, not checked.
- CsrQuery.GetDataAndIndicesSpec: membership is stated, not the order in which matched triples are returned.
- CsrQuery.FindInRow: a row is searched by binary search when the matrix is flagged sorted, and by a linear scan otherwise. The answer is stated only for matrices whose sorted flag is truthful. On a row flagged sorted that is not, the contract promises only that the answer is -1 or a position in the row. CsrQuery.IsNonZero, CsrQuery.GetAllDataSpec and CsrQuery.GetDataSpec inherit this condition.
- CsrQuery.GetDataSpec: also assumes all ids are non-negative, so that -1 cannot be mistaken for a stored id.
- CsrTransform.Transpose: the order of entries within a row of the transpose (by original row, then storage order) is stated only as a multiset of triples.

## Findings

| source | as written | input that shows it | evidently intended | confidence | as-written member | corrected member |
|---|---|---|---|---|---|---|
| include/dgl/aten/csr.h:278-287 | after CSRSort_ the example shows `indices = [0, 1, 1, 2, 3]` | `indptr = [0, 2, 3, 3, 5]`, `indices = [1, 0, 2, 3, 1]` | each row sorted on its own: `[0, 1, 2, 1, 3]`; the documented array is the whole `indices` array sorted, which moves entries between rows | not executed | CsrSort.SortDocExampleAsDocumented | CsrSort.SortDocExample |
