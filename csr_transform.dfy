/** Value-to-value conversions of include/dgl/aten/csr.h: CSRToCOO, the two
    CSRSliceRows overloads and CSRTranspose. */
module CsrTransform {
  import opened Seqs
  import opened CsrMatrix

  // ---------------------------------------------------------------- CSRToCOO

  /** The row holding stored position k: the last row whose slice of the
      row pointer starts at or before k. */
  function RowOf(indptr: seq<int>, k: int): (r: int)
    requires 2 <= |indptr| && indptr[0] <= k < indptr[|indptr| - 1]
    ensures 0 <= r < |indptr| - 1 && indptr[r] <= k < indptr[r + 1]
    decreases |indptr|
  {
    var last := |indptr| - 2;
    if indptr[last] <= k then last else RowOf(indptr[..last + 1], k)
  }

  /** The row id of every stored position (the COO row array). */
  function ExpandRows(m: CSRMatrix): (rows: seq<int>)
    requires Valid(m)
    ensures |rows| == NNZ(m)
  {
    seq(NNZ(m), k requires 0 <= k < NNZ(m) => RowOf(m.indptr, k))
  }

  /** The expanded row array names, for every stored position, the row
      holding it, so it is non-decreasing. */
  lemma ExpandRowsSpec(m: CSRMatrix)
    requires Valid(m)
    ensures forall k :: 0 <= k < NNZ(m) ==>
      0 <= ExpandRows(m)[k] < m.numRows && m.indptr[ExpandRows(m)[k]] <= k < m.indptr[ExpandRows(m)[k] + 1]
    ensures NonDecreasing(ExpandRows(m))
  {
    var rows := ExpandRows(m);
    forall i, j | 0 <= i <= j < |rows| ensures rows[i] <= rows[j] {
    }
  }

  /** CSRToCOO.  Without data_as_order the COO keeps the storage order: its
      column and data arrays are the CSR's indices and data.  With
      data_as_order the entry at stored position k is placed at COO position
      data[k] and the COO has no data array; the source requires data to be a
      permutation then (a null data array is the identity order). */
  function ToCOO(m: CSRMatrix, dataAsOrder: bool): (c: COOMatrix)
    requires Valid(m)
    requires dataAsOrder && m.data.Some? ==> IsPermutation(m.data.value, NNZ(m))
    ensures c.numRows == m.numRows && c.numCols == m.numCols
  {
    var rows := ExpandRows(m);
    if !dataAsOrder then
      COOMatrix(m.numRows, m.numCols, rows, m.indices, m.data, true, m.sorted)
    else
      var ids := EntryIds(m);
      IdentityIsPermutation(NNZ(m));
      ExpandRowsSpec(m);
      var at := seq(NNZ(m), j requires 0 <= j < NNZ(m) => IndexOf(ids, j));
      COOMatrix(m.numRows, m.numCols,
                seq(NNZ(m), j requires 0 <= j < NNZ(m) => rows[at[j]]),
                seq(NNZ(m), j requires 0 <= j < NNZ(m) => m.indices[at[j]]),
                None, false, false)
  }

  lemma IdentityIsPermutation(n: nat)
    ensures IsPermutation(Range(0, n), n)
  {
    var p := Range(0, n);
    forall j | 0 <= j < n ensures j in p {
      assert p[j] == j;
    }
  }

  /** Within each row the COO columns are in ascending order. */
  predicate ColumnsSortedWithinRows(c: COOMatrix)
    requires |c.row| == |c.col|
  {
    forall i, j :: 0 <= i <= j < |c.row| && c.row[i] == c.row[j] ==> c.col[i] <= c.col[j]
  }

  /** The storage-order conversion: a valid COO with the CSR's columns and
      data, whose row array is non-decreasing, flagged row-sorted, and flagged
      column-sorted exactly when the CSR is flagged sorted. */
  lemma ToCOOStorageOrder(m: CSRMatrix)
    requires Valid(m)
    ensures var c := ToCOO(m, false);
      && ValidCOO(c)
      && c.col == m.indices && c.data == m.data
      && c.rowSorted && NonDecreasing(c.row)
      && c.colSorted == m.sorted
  {
    ExpandRowsSpec(m);
  }

  /** The k-th COO tuple is the k-th stored entry of the CSR. */
  lemma ToCOOTriples(m: CSRMatrix)
    requires Valid(m)
    ensures var c := ToCOO(m, false);
      forall k :: 0 <= k < NNZ(m) ==> Triples(m)[k] == Triple(c.row[k], c.col[k], EntryIds(m)[k])
  {
    var c := ToCOO(m, false);
    forall k | 0 <= k < NNZ(m) ensures Triples(m)[k] == Triple(c.row[k], c.col[k], EntryIds(m)[k]) {
      var r := TripleAt(m, k);
      assert c.row[k] == RowOf(m.indptr, k);
    }
  }

  /** When the CSR's sorted flag is honest, the column-sorted flag of the
      COO is honest too. */
  lemma ToCOOColumnsSorted(m: CSRMatrix)
    requires Valid(m) && HintHolds(m)
    ensures var c := ToCOO(m, false);
      c.colSorted ==> ColumnsSortedWithinRows(c)
  {
    var c := ToCOO(m, false);
    if c.colSorted {
      forall i, j | 0 <= i <= j < |c.row| && c.row[i] == c.row[j] ensures c.col[i] <= c.col[j] {
        SameRowOrdered(m, i, j);
      }
    }
  }

  lemma SameRowOrdered(m: CSRMatrix, i: int, j: int)
    requires Valid(m) && RowsSorted(m)
    requires 0 <= i <= j < NNZ(m) && RowOf(m.indptr, i) == RowOf(m.indptr, j)
    ensures m.indices[i] <= m.indices[j]
  {
    var r := RowOf(m.indptr, i);
    assert NonDecreasing(RowCols(m, r));
    OrderedInRow(m, r, i, j);
  }

  lemma OrderedInRow(m: CSRMatrix, r: int, i: int, j: int)
    requires Valid(m) && 0 <= r < m.numRows && NonDecreasing(RowCols(m, r))
    requires m.indptr[r] <= i <= j < m.indptr[r + 1]
    ensures m.indices[i] <= m.indices[j]
  {
    var lo := m.indptr[r];
    RowColAt(m, r, i - lo);
    RowColAt(m, r, j - lo);
  }

  /** The data-as-order conversion: a valid COO without data whose tuple at
      position data[k] is the k-th stored entry. */
  lemma ToCOODataOrder(m: CSRMatrix)
    requires Valid(m)
    requires m.data.Some? ==> IsPermutation(m.data.value, NNZ(m))
    ensures var c := ToCOO(m, true);
      && ValidCOO(c) && c.data.None?
      && |c.row| == NNZ(m)
      && forall k :: 0 <= k < NNZ(m) ==>
           0 <= EntryIds(m)[k] < NNZ(m)
           && c.row[EntryIds(m)[k]] == ExpandRows(m)[k]
           && c.col[EntryIds(m)[k]] == m.indices[k]
  {
    var c := ToCOO(m, true);
    var ids := EntryIds(m);
    IdentityIsPermutation(NNZ(m));
    assert IsPermutation(ids, NNZ(m));
    ExpandRowsSpec(m);
    forall k | 0 <= k < NNZ(m)
      ensures 0 <= ids[k] < NNZ(m) && c.row[ids[k]] == ExpandRows(m)[k] && c.col[ids[k]] == m.indices[k]
    {
      IndexOfDistinct(ids, k);
    }
  }

  // ----------------------------------------------------------- CSRSliceRows

  /** CSRSliceRows(csr, start, end): rows start..end-1, relabelled from zero.
      The result carries the entry ids of the kept entries. */
  function SliceRows(m: CSRMatrix, start: int, end: int): (r: Result<CSRMatrix>)
    requires Valid(m)
    ensures r.Success? <==> 0 <= start <= end <= m.numRows
    ensures r.Failure? ==> r.error == IndexOutOfRange
    ensures r.Success? ==> r.value.numRows == end - start && r.value.numCols == m.numCols
  {
    if !(0 <= start <= end <= m.numRows) then Failure(IndexOutOfRange)
    else
      var lo := m.indptr[start];
      var hi := m.indptr[end];
      Success(CSRMatrix(end - start, m.numCols, AddAll(m.indptr[start..end + 1], -lo),
                        m.indices[lo..hi], Some(EntryIds(m)[lo..hi]), m.sorted))
  }

  /** The slice is a valid matrix whose rows are exactly rows start..end-1
      of the input, and it is flagged sorted only when those rows are. */
  lemma SliceRowsSpec(m: CSRMatrix, start: int, end: int)
    requires Valid(m) && 0 <= start <= end <= m.numRows
    ensures var s := SliceRows(m, start, end).value;
      && Valid(s)
      && Rows(s) == Rows(m)[start..end]
      && (HintHolds(m) ==> HintHolds(s))
  {
    SliceRowsValid(m, start, end);
    SliceRowsRows(m, start, end);
    if HintHolds(m) {
      SliceRowsHint(m, start, end);
    }
  }

  lemma SliceRowsRows(m: CSRMatrix, start: int, end: int)
    requires Valid(m) && 0 <= start <= end <= m.numRows
    requires Valid(SliceRows(m, start, end).value)
    ensures Rows(SliceRows(m, start, end).value) == Rows(m)[start..end]
  {
    var s := SliceRows(m, start, end).value;
    forall i | 0 <= i < end - start ensures Rows(s)[i] == Rows(m)[start + i] {
      SliceRowAt(m, start, end, i);
    }
    assert |Rows(s)| == |Rows(m)[start..end]|;
  }

  lemma SliceRowsHint(m: CSRMatrix, start: int, end: int)
    requires Valid(m) && 0 <= start <= end <= m.numRows && HintHolds(m)
    requires Valid(SliceRows(m, start, end).value)
    ensures HintHolds(SliceRows(m, start, end).value)
  {
    var s := SliceRows(m, start, end).value;
    if s.sorted {
      forall i | 0 <= i < s.numRows ensures NonDecreasing(RowCols(s, i)) {
        var rc := RowCols(m, start + i);
        assert NonDecreasing(rc);
        SliceRowAt(m, start, end, i);
        assert RowCols(s, i) == rc;
      }
    }
  }

  lemma SliceRowsValid(m: CSRMatrix, start: int, end: int)
    requires Valid(m) && 0 <= start <= end <= m.numRows
    ensures Valid(SliceRows(m, start, end).value)
  {
    var s := SliceRows(m, start, end).value;
    var lo, hi := m.indptr[start], m.indptr[end];
    SliceOffsetsValid(m.indptr, start, end);
    assert s.indptr == AddAll(m.indptr[start..end + 1], -lo);
    assert lo <= hi <= |m.indices|;
    assert s.indices == m.indices[lo..hi];
    assert |s.indices| == hi - lo && |EntryIds(m)[lo..hi]| == hi - lo;
    assert forall k :: 0 <= k < |s.indices| ==> 0 <= s.indices[k] < s.numCols by {
      forall k | 0 <= k < |s.indices| ensures 0 <= s.indices[k] < s.numCols {
        assert s.indices[k] == m.indices[lo + k];
      }
    }
  }

  /** Shifting a window of an offset array down by its first offset keeps it
      non-decreasing, starts it at 0 and ends it at the window's width. */
  lemma SliceOffsetsValid(indptr: seq<int>, start: int, end: int)
    requires 0 <= start <= end < |indptr| && NonDecreasing(indptr)
    ensures var o := AddAll(indptr[start..end + 1], -indptr[start]);
      && |o| == end - start + 1 && o[0] == 0 && o[end - start] == indptr[end] - indptr[start]
      && NonDecreasing(o)
  {
    var o := AddAll(indptr[start..end + 1], -indptr[start]);
    forall i, j | 0 <= i <= j < |o| ensures o[i] <= o[j] {
      assert indptr[start + i] <= indptr[start + j];
    }
  }

  /** Row i of the slice starts where row start + i starts, shifted down by the slice's first offset. */
  lemma SliceRowBounds(m: CSRMatrix, start: int, end: int, i: int)
    requires Valid(m) && 0 <= start <= end <= m.numRows
    requires 0 <= i < end - start
    ensures SliceRows(m, start, end).value.indptr[i] == m.indptr[start + i] - m.indptr[start]
    ensures SliceRows(m, start, end).value.indptr[i + 1] == m.indptr[start + i + 1] - m.indptr[start]
    ensures m.indptr[start] <= m.indptr[start + i]
  {
    assert m.indptr[start..end + 1][i] == m.indptr[start + i];
    assert m.indptr[start..end + 1][i + 1] == m.indptr[start + i + 1];
  }

  lemma SliceRowItem(m: CSRMatrix, start: int, end: int, i: int, p: int)
    requires Valid(m) && 0 <= start <= end <= m.numRows
    requires Valid(SliceRows(m, start, end).value)
    requires 0 <= i < end - start && 0 <= p < |RowItems(SliceRows(m, start, end).value, i)|
    ensures p < |RowItems(m, start + i)|
    ensures RowItems(SliceRows(m, start, end).value, i)[p] == RowItems(m, start + i)[p]
  {
    var s := SliceRows(m, start, end).value;
    SliceRowBounds(m, start, end, i);
    var k := s.indptr[i] + p;
    RowItemAt(s, i, p);
    RowItemAt(m, start + i, p);
    SliceEntryAt(m, start, end, k);
  }

  /** Entry k of the slice is entry k of the input, counted from the slice's first row. */
  lemma SliceEntryAt(m: CSRMatrix, start: int, end: int, k: int)
    requires Valid(m) && 0 <= start <= end <= m.numRows
    requires Valid(SliceRows(m, start, end).value)
    requires 0 <= k < NNZ(SliceRows(m, start, end).value)
    ensures 0 <= m.indptr[start] + k < NNZ(m)
    ensures SliceRows(m, start, end).value.indices[k] == m.indices[m.indptr[start] + k]
    ensures EntryIds(SliceRows(m, start, end).value)[k] == EntryIds(m)[m.indptr[start] + k]
  {
    var s := SliceRows(m, start, end).value;
    var lo, hi := m.indptr[start], m.indptr[end];
    assert lo <= hi;
    assert s.indices == m.indices[lo..hi] && s.data == Some(EntryIds(m)[lo..hi]);
  }

  lemma SliceRowAt(m: CSRMatrix, start: int, end: int, i: int)
    requires Valid(m) && 0 <= start <= end <= m.numRows
    requires Valid(SliceRows(m, start, end).value)
    requires 0 <= i < end - start
    ensures RowItems(SliceRows(m, start, end).value, i) == RowItems(m, start + i)
    ensures Rows(SliceRows(m, start, end).value)[i] == Rows(m)[start + i]
  {
    var s := SliceRows(m, start, end).value;
    var a := RowItems(s, i);
    var b := RowItems(m, start + i);
    assert |a| == |b| by {
      SliceRowBounds(m, start, end, i);
    }
    forall p | 0 <= p < |a| ensures a[p] == b[p] {
      SliceRowItem(m, start, end, i, p);
    }
    assert a == b;
    assert Rows(s)[i] == a && Rows(m)[start + i] == b;
  }

  /** The worked example of the source: rows 1..2 of a 4 x 4 matrix. */
  lemma SliceRowsExample()
    ensures var m := CSRMatrix(4, 4, [0, 2, 3, 3, 5], [1, 0, 2, 3, 1], None, false);
      SliceRows(m, 1, 3) == Success(CSRMatrix(2, 4, [0, 1, 1], [2], Some([2]), false))
  {
    var m := CSRMatrix(4, 4, [0, 2, 3, 3, 5], [1, 0, 2, 3, 1], None, false);
    assert EntryIds(m)[2..3] == [2];
    assert m.indptr[1..4] == [2, 3, 3];
    assert AddAll([2, 3, 3], -2) == [0, 1, 1];
    assert m.indices[2..3] == [2];
  }

  /** CSRSliceRows(csr, rows): the listed rows, in the listed order (a row
      may be listed twice); every id must name a row. */
  function SliceRowsByIds(m: CSRMatrix, rows: seq<int>): (r: Result<CSRMatrix>)
    requires Valid(m)
    ensures r.Success? <==> forall i :: 0 <= i < |rows| ==> 0 <= rows[i] < m.numRows
    ensures r.Failure? ==> r.error == IndexOutOfRange
  {
    if exists i :: 0 <= i < |rows| && !(0 <= rows[i] < m.numRows) then Failure(IndexOutOfRange)
    else Success(Build(m.numCols, Picked(m, rows), m.sorted))
  }

  lemma SliceRowsByIdsSpec(m: CSRMatrix, rows: seq<int>)
    requires Valid(m)
    requires forall i :: 0 <= i < |rows| ==> 0 <= rows[i] < m.numRows
    ensures var s := SliceRowsByIds(m, rows).value;
      && Valid(s) && s.numRows == |rows| && s.numCols == m.numCols
      && (forall i :: 0 <= i < |rows| ==> Rows(s)[i] == Rows(m)[rows[i]])
      && (HintHolds(m) ==> HintHolds(s))
  {
    var picked := Picked(m, rows);
    PickedBelow(m, rows);
    BuildRows(m.numCols, picked, m.sorted);
    var s := SliceRowsByIds(m, rows).value;
    assert s == Build(m.numCols, picked, m.sorted);
    if HintHolds(m) && s.sorted {
      forall i | 0 <= i < s.numRows ensures NonDecreasing(RowCols(s, i)) {
        var rc := RowCols(m, rows[i]);
        assert NonDecreasing(rc);
        assert RowItems(s, i) == Rows(s)[i] == RowItems(m, rows[i]);
        assert RowCols(s, i) == rc;
      }
    }
  }

  function Picked(m: CSRMatrix, rows: seq<int>): (picked: seq<seq<Item>>)
    requires Valid(m)
    requires forall i :: 0 <= i < |rows| ==> 0 <= rows[i] < m.numRows
    ensures |picked| == |rows|
  {
    seq(|rows|, i requires 0 <= i < |rows| => RowItems(m, rows[i]))
  }

  lemma PickedBelow(m: CSRMatrix, rows: seq<int>)
    requires Valid(m)
    requires forall i :: 0 <= i < |rows| ==> 0 <= rows[i] < m.numRows
    ensures ColsBelow(Picked(m, rows), m.numCols)
  {
    var picked: seq<seq<Item>> := Picked(m, rows);
    forall r: int, i: int | 0 <= r < |picked| && 0 <= i < |picked[r]| ensures 0 <= picked[r][i].col < m.numCols {
      RowItemAt(m, rows[r], i);
    }
  }
  // ----------------------------------------------------------- CSRTranspose

  /** The entries of column c, in the order of `ts`, as items of row c of
      the transpose: the original row becomes the column. */
  function Bucket(ts: seq<Triple>, c: int): (b: seq<Item>)
    decreases |ts|
  {
    if ts == [] then []
    else
      var t := ts[|ts| - 1];
      Bucket(ts[..|ts| - 1], c) + (if t.col == c then [Item(t.row, t.eid)] else [])
  }

  function Buckets(m: CSRMatrix): (bs: seq<seq<Item>>)
    requires Valid(m)
    ensures |bs| == m.numCols
  {
    seq(m.numCols, c requires 0 <= c < m.numCols => Bucket(Triples(m), c))
  }

  /** CSRTranspose: row c of the result lists the entries of column c of
      the input in storage order.  The result carries explicit entry ids
      and is not flagged sorted. */
  function Transpose(m: CSRMatrix): (t: CSRMatrix)
    requires Valid(m)
    ensures t.numRows == m.numCols && t.numCols == m.numRows
  {
    Build(m.numRows, Buckets(m), false)
  }

  /** The same entry seen from the other side. */
  function Swap(t: Triple): Triple
  {
    Triple(t.col, t.row, t.eid)
  }

  lemma TriplesInRange(m: CSRMatrix)
    requires Valid(m)
    ensures forall k :: 0 <= k < NNZ(m) ==>
      0 <= Triples(m)[k].row < m.numRows && 0 <= Triples(m)[k].col < m.numCols
  {
    forall k | 0 <= k < NNZ(m)
      ensures 0 <= Triples(m)[k].row < m.numRows && 0 <= Triples(m)[k].col < m.numCols
    {
      var r := TripleAt(m, k);
    }
  }

  lemma {:induction false} BucketBelow(ts: seq<Triple>, c: int, n: int)
    requires forall k :: 0 <= k < |ts| ==> 0 <= ts[k].row < n
    ensures forall i :: 0 <= i < |Bucket(ts, c)| ==> 0 <= Bucket(ts, c)[i].col < n
    decreases |ts|
  {
    if ts != [] {
      BucketBelow(ts[..|ts| - 1], c, n);
    }
  }

  /** The transpose is a valid num_cols x num_rows matrix whose rows are the
      column buckets of the input. */
  lemma TransposeValid(m: CSRMatrix)
    requires Valid(m)
    ensures Valid(Transpose(m))
    ensures Rows(Transpose(m)) == Buckets(m)
  {
    var bs: seq<seq<Item>> := Buckets(m);
    TriplesInRange(m);
    forall c: int, i: int | 0 <= c < |bs| && 0 <= i < |bs[c]| ensures 0 <= bs[c][i].col < m.numRows {
      BucketBelow(Triples(m), c, m.numRows);
    }
    BuildRows(m.numRows, bs, false);
  }

  lemma LabelAppend(r: int, a: seq<Item>, b: seq<Item>)
    ensures Label(r, a + b) == Label(r, a) + Label(r, b)
  {
  }

  /** Labelling the bucket of column c with c turns each entry (r, c, e) of
      `ts` into (c, r, e) and keeps nothing else. */
  lemma {:induction false} BucketCount(ts: seq<Triple>, c: int, t: Triple)
    ensures multiset(Label(c, Bucket(ts, c)))[t] == if t.row == c then multiset(ts)[Swap(t)] else 0
    decreases |ts|
  {
    if ts != [] {
      var init := ts[..|ts| - 1];
      var x := ts[|ts| - 1];
      var extra := if x.col == c then [Item(x.row, x.eid)] else [];
      BucketCount(init, c, t);
      LabelAppend(c, Bucket(init, c), extra);
      assert ts == init + [x];
      assert multiset(ts)[Swap(t)] == multiset(init)[Swap(t)] + (if x == Swap(t) then 1 else 0);
      if x.col == c {
        assert Label(c, extra) == [Triple(c, x.row, x.eid)];
      } else {
        assert Label(c, extra) == [];
      }
    }
  }

  /** Transposition keeps every entry, with row and column exchanged, as
      often as it occurs. */
  lemma TransposeTriples(m: CSRMatrix)
    requires Valid(m)
    ensures Valid(Transpose(m))
    ensures forall t :: multiset(Triples(Transpose(m)))[Swap(t)] == multiset(Triples(m))[t]
  {
    var tr := Transpose(m);
    var ts := Triples(m);
    var bs := Buckets(m);
    TransposeValid(m);
    TriplesInRange(m);
    var labelled := seq(|bs|, c requires 0 <= c < |bs| => Label(c, bs[c]));
    assert Triples(tr) == Flatten(labelled);
    forall t ensures multiset(Triples(tr))[Swap(t)] == multiset(ts)[t] {
      var x := Swap(t);
      FlattenCount(labelled, x);
      var counts := seq(|labelled|, i requires 0 <= i < |labelled| => multiset(labelled[i])[x]);
      forall i | 0 <= i < |counts| ensures counts[i] == if i == t.col then multiset(ts)[t] else 0 {
        BucketCount(ts, i, x);
      }
      SumSingle(counts, t.col, multiset(ts)[t]);
    }
  }

  /** Transposing twice gives back the same entries (up to their order in
      storage). */
  lemma TransposeTwice(m: CSRMatrix)
    requires Valid(m)
    ensures Valid(Transpose(m)) && Valid(Transpose(Transpose(m)))
    ensures multiset(Triples(Transpose(Transpose(m)))) == multiset(Triples(m))
  {
    TransposeTriples(m);
    TransposeTriples(Transpose(m));
    var a := multiset(Triples(Transpose(Transpose(m))));
    var b := multiset(Triples(Transpose(m)));
    forall t ensures a[t] == multiset(Triples(m))[t] {
      assert Swap(Swap(t)) == t;
      assert a[Swap(Swap(t))] == b[Swap(t)];
    }
  }
}
