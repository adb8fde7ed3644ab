/** The CSR matrix value (include/dgl/aten/csr.h, struct CSRMatrix) and the
    COO value it converts to, their structural invariant, the checked
    constructor, CopyTo, and the row view used by every other module.

    A matrix is stored as a row-pointer array `indptr`, a flat column array
    `indices` and an optional entry-id array `data`; when `data` is absent the
    entry id of stored position k is k itself.  Duplicate (row, col) entries are
    allowed (a multigraph). */
module CsrMatrix {
  import opened Seqs

  datatype Option<T> = None | Some(value: T)

  /** The fatal CHECK failures of the source, as values. */
  datatype Error =
    | IndptrLengthMismatch   // |indptr| != num_rows + 1
    | IndexOutOfRange        // a row or column id outside the matrix
    | BroadcastMismatch      // two query arrays of different lengths, neither of length 1
    | ShapeMismatch          // matrices that must share a shape do not
    | EmptyInput             // an operation over a list got an empty list
    | BoundaryMismatch       // cumulative boundary arrays of the wrong length or order

  datatype Result<T> = Success(value: T) | Failure(error: Error)

  datatype CSRMatrix = CSRMatrix(
    numRows: int,
    numCols: int,
    indptr: seq<int>,
    indices: seq<int>,
    data: Option<seq<int>>,   // None models the null data array
    sorted: bool)

  datatype COOMatrix = COOMatrix(
    numRows: int,
    numCols: int,
    row: seq<int>,
    col: seq<int>,
    data: Option<seq<int>>,
    rowSorted: bool,
    colSorted: bool)

  /** One stored entry of a row: its column and its entry id. */
  datatype Item = Item(col: int, eid: int)

  /** One stored entry of the matrix: row, column and entry id. */
  datatype Triple = Triple(row: int, col: int, eid: int)

  /** The structural invariant every routine relies on: `indptr` has
      num_rows + 1 elements, starts at 0, never decreases and ends at nnz;
      columns lie in [0, num_cols); the data array, when present, is aligned
      with `indices`. */
  predicate Valid(m: CSRMatrix)
  {
    && 0 <= m.numRows && 0 <= m.numCols
    && |m.indptr| == m.numRows + 1
    && m.indptr[0] == 0
    && NonDecreasing(m.indptr)
    && m.indptr[m.numRows] == |m.indices|
    && (forall k :: 0 <= k < |m.indices| ==> 0 <= m.indices[k] < m.numCols)
    && (m.data.Some? ==> |m.data.value| == |m.indices|)
  }

  function NNZ(m: CSRMatrix): nat
  {
    |m.indices|
  }

  /** CSRHasData: whether a data array is present. */
  function HasData(m: CSRMatrix): bool
  {
    m.data.Some?
  }

  /** The entry ids of all stored positions; the identity range when the
      data array is null. */
  function EntryIds(m: CSRMatrix): (r: seq<int>)
    requires Valid(m)
    ensures |r| == NNZ(m)
  {
    if m.data.Some? then m.data.value else Range(0, |m.indices|)
  }

  /** All stored entries in storage order. */
  function Items(m: CSRMatrix): (r: seq<Item>)
    requires Valid(m)
    ensures |r| == NNZ(m)
  {
    seq(|m.indices|, k requires 0 <= k < |m.indices| => Item(m.indices[k], EntryIds(m)[k]))
  }

  /** The entries of row r, in storage order. */
  function RowItems(m: CSRMatrix, r: int): (items: seq<Item>)
    requires Valid(m) && 0 <= r < m.numRows
    ensures |items| == m.indptr[r + 1] - m.indptr[r]
  {
    Items(m)[m.indptr[r]..m.indptr[r + 1]]
  }

  /** The matrix as a list of rows. */
  function Rows(m: CSRMatrix): (rows: seq<seq<Item>>)
    requires Valid(m)
    ensures |rows| == m.numRows
  {
    seq(m.numRows, r requires 0 <= r < m.numRows => RowItems(m, r))
  }

  function ColsOf(s: seq<Item>): (r: seq<int>)
    ensures |r| == |s|
  {
    seq(|s|, i requires 0 <= i < |s| => s[i].col)
  }

  function EidsOf(s: seq<Item>): (r: seq<int>)
    ensures |r| == |s|
  {
    seq(|s|, i requires 0 <= i < |s| => s[i].eid)
  }

  /** The column indices of row r. */
  function RowCols(m: CSRMatrix, r: int): (cols: seq<int>)
    requires Valid(m) && 0 <= r < m.numRows
  {
    ColsOf(RowItems(m, r))
  }

  /** Every row's columns are in ascending order. */
  predicate RowsSorted(m: CSRMatrix)
    requires Valid(m)
  {
    forall r :: 0 <= r < m.numRows ==> NonDecreasing(RowCols(m, r))
  }

  /** The `sorted` flag is a cache: it may be false for a sorted matrix, but
      when it is true the rows are sorted. */
  predicate HintHolds(m: CSRMatrix)
    requires Valid(m)
  {
    m.sorted ==> RowsSorted(m)
  }

  predicate ColsBelow(rows: seq<seq<Item>>, numCols: int)
  {
    forall r, i :: 0 <= r < |rows| && 0 <= i < |rows[r]| ==> 0 <= rows[r][i].col < numCols
  }

  /** A fresh matrix holding the given rows, with an explicit data array. */
  function Build(numCols: int, rows: seq<seq<Item>>, sorted: bool): CSRMatrix
  {
    CSRMatrix(|rows|, numCols, Offsets(rows), ColsOf(Flatten(rows)), Some(EidsOf(Flatten(rows))), sorted)
  }

  /** Every column of the flattened rows is one of the rows' columns. */
  lemma FlattenColsBelow(rows: seq<seq<Item>>, numCols: int)
    requires ColsBelow(rows, numCols)
    ensures forall k :: 0 <= k < |Flatten(rows)| ==> 0 <= Flatten(rows)[k].col < numCols
  {
    var f := Flatten(rows);
    FlattenMembers(rows);
    forall k | 0 <= k < |f| ensures 0 <= f[k].col < numCols {
      assert f[k] in f;
      var r :| 0 <= r < |rows| && f[k] in rows[r];
      var i :| 0 <= i < |rows[r]| && rows[r][i] == f[k];
    }
  }

  /** The rows of a built matrix are exactly the rows it was built from. */
  lemma ColsOfAppend(a: seq<Item>, b: seq<Item>)
    ensures ColsOf(a + b) == ColsOf(a) + ColsOf(b)
  {
  }

  lemma {:induction false} ColsOfFlatten(rows: seq<seq<Item>>)
    ensures ColsOf(Flatten(rows)) == Flatten(seq(|rows|, r requires 0 <= r < |rows| => ColsOf(rows[r])))
    decreases |rows|
  {
    if rows != [] {
      var n := |rows| - 1;
      ColsOfFlatten(rows[..n]);
      ColsOfAppend(Flatten(rows[..n]), rows[n]);
      var g := seq(|rows|, r requires 0 <= r < |rows| => ColsOf(rows[r]));
      assert g[..n] == seq(n, r requires 0 <= r < n => ColsOf(rows[..n][r]));
    }
  }

  /** The column lists of all rows. */
  function ColRows(m: CSRMatrix): (cr: seq<seq<int>>)
    requires Valid(m)
    ensures |cr| == m.numRows
  {
    seq(m.numRows, r requires 0 <= r < m.numRows => RowCols(m, r))
  }

  /** The column lists concatenate to `indices` and start at the row pointers. */
  lemma ColRowsFlatten(m: CSRMatrix)
    requires Valid(m)
    ensures Flatten(ColRows(m)) == m.indices
    ensures Offsets(ColRows(m)) == m.indptr
  {
    var rows := Rows(m);
    RowsFlatten(m);
    ColsOfFlatten(rows);
    assert ColRows(m) == seq(|rows|, r requires 0 <= r < |rows| => ColsOf(rows[r]));
    assert ColsOf(Items(m)) == m.indices;
    OffsetsFromLengths(ColRows(m), m.indptr);
  }

  /** A matrix without a data array holding the given column lists as rows. */
  function ColumnsMatrix(rows: seq<seq<int>>, numCols: int, sorted: bool): CSRMatrix
  {
    CSRMatrix(|rows|, numCols, Offsets(rows), Flatten(rows), None, sorted)
  }

  lemma ColumnsBuild(rows: seq<seq<int>>, numCols: int, sorted: bool)
    requires 0 <= numCols
    requires forall k :: 0 <= k < |Flatten(rows)| ==> 0 <= Flatten(rows)[k] < numCols
    ensures Valid(ColumnsMatrix(rows, numCols, sorted))
    ensures forall r :: 0 <= r < |rows| ==> RowCols(ColumnsMatrix(rows, numCols, sorted), r) == rows[r]
  {
    var b := ColumnsMatrix(rows, numCols, sorted);
    OffsetsShape(rows);
    assert Valid(b);
    forall r | 0 <= r < |rows| ensures RowCols(b, r) == rows[r] {
      ColumnsRow(rows, numCols, sorted, r);
    }
  }

  lemma ColumnsRow(rows: seq<seq<int>>, numCols: int, sorted: bool, r: int)
    requires Valid(ColumnsMatrix(rows, numCols, sorted)) && 0 <= r < |rows|
    ensures RowCols(ColumnsMatrix(rows, numCols, sorted), r) == rows[r]
  {
    var b := ColumnsMatrix(rows, numCols, sorted);
    FlattenSlice(rows, r);
    var rc := RowCols(b, r);
    forall i | 0 <= i < |rc| ensures rc[i] == rows[r][i] {
      RowItemAt(b, r, i);
    }
  }

  lemma BuildRows(numCols: int, rows: seq<seq<Item>>, sorted: bool)
    requires 0 <= numCols && ColsBelow(rows, numCols)
    ensures Valid(Build(numCols, rows, sorted))
    ensures Items(Build(numCols, rows, sorted)) == Flatten(rows)
    ensures Rows(Build(numCols, rows, sorted)) == rows
  {
    var m := Build(numCols, rows, sorted);
    var f := Flatten(rows);
    OffsetsShape(rows);
    FlattenColsBelow(rows, numCols);
    assert m.indices == ColsOf(f);
    assert Valid(m);
    assert EntryIds(m) == EidsOf(f);
    assert Items(m) == f;
    forall r | 0 <= r < |rows| ensures Rows(m)[r] == rows[r] {
      FlattenSlice(rows, r);
      assert Rows(m)[r] == f[Offsets(rows)[r]..Offsets(rows)[r + 1]];
    }
  }

  /** Cutting a valid matrix into rows and flattening them back gives its
      entries and its row pointers. */
  lemma RowsFlatten(m: CSRMatrix)
    requires Valid(m)
    ensures Flatten(Rows(m)) == Items(m)
    ensures Offsets(Rows(m)) == m.indptr
  {
    RowLengths(m);
    OffsetsFromLengths(Rows(m), m.indptr);
    RowsPrefix(m, m.numRows);
    assert Rows(m)[..m.numRows] == Rows(m);
    assert Items(m)[..m.indptr[m.numRows]] == Items(m);
  }

  lemma RowLengths(m: CSRMatrix)
    requires Valid(m)
    ensures forall i :: 0 <= i < |Rows(m)| ==> m.indptr[i + 1] - m.indptr[i] == |Rows(m)[i]|
  {
  }

  /** The first i rows, flattened, are the entries before row i. */
  lemma {:induction false} RowsPrefix(m: CSRMatrix, i: int)
    requires Valid(m) && 0 <= i <= m.numRows
    ensures m.indptr[i] <= NNZ(m)
    ensures Flatten(Rows(m)[..i]) == Items(m)[..m.indptr[i]]
  {
    var rows := Rows(m);
    var items := Items(m);
    if i == 0 {
      assert rows[..0] == [];
    } else {
      RowsPrefix(m, i - 1);
      FlattenSnoc(rows, i - 1);
      assert m.indptr[i - 1] <= m.indptr[i] <= |items|;
      assert rows[i - 1] == items[m.indptr[i - 1]..m.indptr[i]];
      assert items[..m.indptr[i]] == items[..m.indptr[i - 1]] + items[m.indptr[i - 1]..m.indptr[i]];
    }
  }

  /** Rebuilding a valid matrix from its rows gives it back, with its entry
      ids made explicit. */
  lemma BuildFromRows(m: CSRMatrix, sorted: bool)
    requires Valid(m)
    ensures Build(m.numCols, Rows(m), sorted) == m.(data := Some(EntryIds(m)), sorted := sorted)
  {
    RowsFlatten(m);
    assert ColsOf(Items(m)) == m.indices;
    assert EidsOf(Items(m)) == EntryIds(m);
  }

  /** Position k of row r: its column and entry id. */
  lemma RowItemAt(m: CSRMatrix, r: int, i: int)
    requires Valid(m) && 0 <= r < m.numRows && 0 <= i < m.indptr[r + 1] - m.indptr[r]
    ensures 0 <= m.indptr[r] + i < NNZ(m)
    ensures RowItems(m, r)[i] == Item(m.indices[m.indptr[r] + i], EntryIds(m)[m.indptr[r] + i])
  {
  }

  lemma RowColAt(m: CSRMatrix, r: int, i: int)
    requires Valid(m) && 0 <= r < m.numRows && 0 <= i < m.indptr[r + 1] - m.indptr[r]
    ensures 0 <= m.indptr[r] + i < NNZ(m) && i < |RowCols(m, r)|
    ensures RowCols(m, r)[i] == m.indices[m.indptr[r] + i]
  {
    RowItemAt(m, r, i);
  }

  /** Every stored position belongs to exactly one row. */
  lemma RowOfPosition(m: CSRMatrix, k: int) returns (r: int)
    requires Valid(m) && 0 <= k < NNZ(m)
    ensures 0 <= r < m.numRows && m.indptr[r] <= k < m.indptr[r + 1]
  {
    r := 0;
    while m.indptr[r + 1] <= k
      invariant 0 <= r < m.numRows && m.indptr[r] <= k
      decreases m.numRows - r
    {
      r := r + 1;
    }
  }

  /** The entries of row r tagged with their row. */
  function Label(r: int, items: seq<Item>): (ts: seq<Triple>)
    ensures |ts| == |items|
  {
    seq(|items|, i requires 0 <= i < |items| => Triple(r, items[i].col, items[i].eid))
  }

  function TriplesOf(rows: seq<seq<Item>>): seq<Triple>
  {
    Flatten(seq(|rows|, r requires 0 <= r < |rows| => Label(r, rows[r])))
  }

  /** All stored entries as (row, col, entry id), in storage order. */
  function Triples(m: CSRMatrix): (ts: seq<Triple>)
    requires Valid(m)
    ensures |ts| == NNZ(m)
  {
    LabelledOffsets(m);
    TriplesOf(Rows(m))
  }

  /** Position k of the triple list is stored position k of the matrix. */
  lemma TripleAt(m: CSRMatrix, k: int) returns (r: int)
    requires Valid(m) && 0 <= k < NNZ(m)
    ensures |Triples(m)| == NNZ(m)
    ensures 0 <= r < m.numRows && m.indptr[r] <= k < m.indptr[r + 1]
    ensures Triples(m)[k] == Triple(r, m.indices[k], EntryIds(m)[k])
  {
    r := RowOfPosition(m, k);
    var i := k - m.indptr[r];
    var rows := Rows(m);
    assert rows[r] == RowItems(m, r);
    assert rows[r][i] == Item(m.indices[k], EntryIds(m)[k]) by {
      RowItemAt(m, r, i);
    }
    assert TriplesOf(rows)[k] == Triple(r, rows[r][i].col, rows[r][i].eid) by {
      LabelledOffsets(m);
      TriplesOfAt(rows, r, i);
    }
  }

  /** Entry i of row r, read off the labelled list of all rows. */
  lemma TriplesOfAt(rows: seq<seq<Item>>, r: int, i: int)
    requires 0 <= r < |rows| && 0 <= i < |rows[r]|
    ensures var labelled := seq(|rows|, q requires 0 <= q < |rows| => Label(q, rows[q]));
            Offsets(labelled)[r] + i < |TriplesOf(rows)|
            && TriplesOf(rows)[Offsets(labelled)[r] + i] == Triple(r, rows[r][i].col, rows[r][i].eid)
  {
    var labelled := seq(|rows|, q requires 0 <= q < |rows| => Label(q, rows[q]));
    FlattenAt(labelled, r, i);
  }

  lemma LabelledOffsets(m: CSRMatrix)
    requires Valid(m)
    ensures var rows := Rows(m);
            var labelled := seq(|rows|, r requires 0 <= r < |rows| => Label(r, rows[r]));
            Offsets(labelled) == m.indptr && |Flatten(labelled)| == NNZ(m)
  {
    var rows := Rows(m);
    var labelled := seq(|rows|, r requires 0 <= r < |rows| => Label(r, rows[r]));
    RowsFlatten(m);
    OffsetsSameLengths(labelled, rows);
  }

  /** CSRMatrix(nrows, ncols, indptr, indices, data, sorted): the constructor
      runs CheckValidity, whose only structural test is that indptr has
      num_rows + 1 elements; a failed CHECK aborts. */
  function NewCSR(numRows: int, numCols: int, indptr: seq<int>, indices: seq<int>,
                  data: Option<seq<int>>, sorted: bool): (r: Result<CSRMatrix>)
    ensures r.Success? <==> |indptr| == numRows + 1
    ensures r.Failure? ==> r.error == IndptrLengthMismatch
    ensures r.Success? ==> r.value == CSRMatrix(numRows, numCols, indptr, indices, data, sorted)
  {
    if |indptr| != numRows + 1 then Failure(IndptrLengthMismatch)
    else Success(CSRMatrix(numRows, numCols, indptr, indices, data, sorted))
  }

  /** Every valid matrix passes the constructor's check, and what it accepts
      always has at least one row pointer. */
  lemma ValidPassesCheck(m: CSRMatrix)
    requires Valid(m)
    ensures NewCSR(m.numRows, m.numCols, m.indptr, m.indices, m.data, m.sorted) == Success(m)
    ensures |m.indptr| >= 1
  {
  }

  /** CopyTo(ctx): the same value when already on `ctx`, otherwise a copy of
      each array rebuilt through the checked constructor.  Devices are not
      modelled; `sameDevice` stands for `ctx == indptr->ctx`. */
  function CopyTo(m: CSRMatrix, sameDevice: bool): (r: Result<CSRMatrix>)
    ensures sameDevice ==> r == Success(m)
  {
    if sameDevice then Success(m)
    else NewCSR(m.numRows, m.numCols, m.indptr, m.indices, m.data, m.sorted)
  }

  /** Copying a matrix that passed the constructor never fails and preserves
      every field, the null data array included. */
  lemma CopyToPreserves(m: CSRMatrix, sameDevice: bool)
    requires NewCSR(m.numRows, m.numCols, m.indptr, m.indices, m.data, m.sorted).Success?
    ensures CopyTo(m, sameDevice) == Success(m)
  {
  }

  /** The COO invariant: parallel arrays of one length, ids in range. */
  predicate ValidCOO(c: COOMatrix)
  {
    && 0 <= c.numRows && 0 <= c.numCols
    && |c.row| == |c.col|
    && (forall k :: 0 <= k < |c.row| ==> 0 <= c.row[k] < c.numRows && 0 <= c.col[k] < c.numCols)
    && (c.data.Some? ==> |c.data.value| == |c.row|)
  }
}
