/** The query routines of include/dgl/aten/csr.h: row degrees, row contents,
    the sortedness test, non-zero tests and the three lookups (all matches,
    the first match or -1, and the single-pair convenience wrapper).  The
    batched forms broadcast a length-1 argument against the other one. */
module CsrQuery {
  import opened Seqs
  import opened CsrMatrix

  /** CSRGetRowNNZ(csr, row): the number of entries stored in `row`. */
  function GetRowNNZ(m: CSRMatrix, row: int): (r: Result<int>)
    requires Valid(m)
    ensures r.Success? <==> 0 <= row < m.numRows
    ensures r.Failure? ==> r.error == IndexOutOfRange
    ensures r.Success? ==> r.value == |RowCols(m, row)| >= 0
  {
    if 0 <= row < m.numRows then Success(m.indptr[row + 1] - m.indptr[row])
    else Failure(IndexOutOfRange)
  }

  /** The degrees of all rows add up to the number of stored entries. */
  lemma RowNNZSum(m: CSRMatrix)
    requires Valid(m)
    ensures Sum(seq(m.numRows, r requires 0 <= r < m.numRows => GetRowNNZ(m, r).value)) == NNZ(m)
  {
    var n := m.numRows;
    var d := seq(m.numRows, r requires 0 <= r < m.numRows => GetRowNNZ(m, r).value);
    var e := seq(n, i requires 0 <= i < n => m.indptr[i + 1] - m.indptr[i]);
    assert d == e;
    SumDifferences(m.indptr, n);
    assert Sum(e) == m.indptr[n] - m.indptr[0];
    assert Sum(d) == NNZ(m);
  }

  /** Batched CSRGetRowNNZ: one degree per requested row. */
  function GetRowNNZBatch(m: CSRMatrix, rows: seq<int>): (r: Result<seq<int>>)
    requires Valid(m)
    ensures r.Success? <==> forall i :: 0 <= i < |rows| ==> 0 <= rows[i] < m.numRows
    ensures r.Success? ==> |r.value| == |rows|
    ensures r.Success? ==> forall i :: 0 <= i < |rows| ==> GetRowNNZ(m, rows[i]) == Success(r.value[i])
  {
    if forall i :: 0 <= i < |rows| ==> 0 <= rows[i] < m.numRows then
      Success(seq(|rows|, i requires 0 <= i < |rows| => GetRowNNZ(m, rows[i]).value))
    else Failure(IndexOutOfRange)
  }

  /** CSRGetRowColumnIndices(csr, row): a copy of the row's column indices. */
  function GetRowColumnIndices(m: CSRMatrix, row: int): (r: Result<seq<int>>)
    requires Valid(m)
    ensures r.Success? <==> 0 <= row < m.numRows
    ensures r.Success? ==> r.value == RowCols(m, row)
    ensures r.Success? ==> Success(|r.value|) == GetRowNNZ(m, row)
    ensures r.Success? ==> forall i :: 0 <= i < |r.value| ==> 0 <= r.value[i] < m.numCols
  {
    if 0 <= row < m.numRows then Success(m.indices[m.indptr[row]..m.indptr[row + 1]])
    else Failure(IndexOutOfRange)
  }

  /** CSRGetRowData(csr, row): the row's entry ids; the identity range over
      the row's positions when the data array is null. */
  function GetRowData(m: CSRMatrix, row: int): (r: Result<seq<int>>)
    requires Valid(m)
    ensures r.Success? <==> 0 <= row < m.numRows
    ensures r.Success? ==> Success(|r.value|) == GetRowNNZ(m, row)
    ensures r.Success? && m.data.None? ==> r.value == Range(m.indptr[row], m.indptr[row + 1])
    ensures r.Success? && m.data.Some? ==> r.value == m.data.value[m.indptr[row]..m.indptr[row + 1]]
    ensures r.Success? ==> r.value == EidsOf(RowItems(m, row))
  {
    if 0 <= row < m.numRows then Success(EntryIds(m)[m.indptr[row]..m.indptr[row + 1]])
    else Failure(IndexOutOfRange)
  }

  /** No two neighbours are out of order. */
  predicate AdjacentSorted(s: seq<int>)
  {
    forall i :: 0 <= i < |s| - 1 ==> s[i] <= s[i + 1]
  }

  /** Checking neighbours is enough: order is transitive. */
  lemma {:induction false} AdjacentSortedIsSorted(s: seq<int>)
    ensures AdjacentSorted(s) <==> NonDecreasing(s)
    decreases |s|
  {
    if |s| > 1 && AdjacentSorted(s) {
      var s' := s[..|s| - 1];
      assert AdjacentSorted(s');
      AdjacentSortedIsSorted(s');
      forall i, j | 0 <= i <= j < |s| ensures s[i] <= s[j] {
        if j == |s| - 1 && i < j {
          assert s'[i] <= s'[|s'| - 1];
        } else if i < j {
          assert s'[i] <= s'[j];
        }
      }
    }
  }

  /** CSRIsSorted(csr): recomputes, independently of the `sorted` flag,
      whether every row's columns are in ascending order, by comparing
      neighbours. */
  function IsSorted(m: CSRMatrix): (r: bool)
    requires Valid(m)
    ensures r <==> RowsSorted(m)
  {
    var answer := forall row :: 0 <= row < m.numRows ==> AdjacentSorted(RowCols(m, row));
    assert answer <==> RowsSorted(m) by {
      forall row | 0 <= row < m.numRows {
        AdjacentSortedIsSorted(RowCols(m, row));
      }
    }
    answer
  }

  /** First index i in [lo, hi) with s[i] >= x, found by halving the range
      (std::lower_bound).  The answer is only meaningful on sorted input. */
  function LowerBound(s: seq<int>, x: int, lo: int, hi: int): (r: int)
    requires 0 <= lo <= hi <= |s|
    ensures lo <= r <= hi
    ensures NonDecreasing(s) && (forall i :: 0 <= i < lo ==> s[i] < x)
            && (forall i :: hi <= i < |s| ==> s[i] >= x)
            ==> (forall i :: 0 <= i < r ==> s[i] < x) && (forall i :: r <= i < |s| ==> s[i] >= x)
    decreases hi - lo
  {
    if lo == hi then lo
    else
      var mid := (lo + hi) / 2;
      if s[mid] < x then LowerBound(s, x, mid + 1, hi) else LowerBound(s, x, lo, mid)
  }

  /** The position, within row `row`, of the first entry with column `col`,
      or -1.  Binary search when the `sorted` flag is set, a linear scan
      otherwise; the two agree whenever the flag tells the truth. */
  function FindInRow(m: CSRMatrix, row: int, col: int): (p: int)
    requires Valid(m) && 0 <= row < m.numRows
    ensures -1 <= p < |RowCols(m, row)|
    ensures HintHolds(m) ==> (p == -1 <==> col !in RowCols(m, row))
    ensures HintHolds(m) && p >= 0 ==> RowCols(m, row)[p] == col && col !in RowCols(m, row)[..p]
  {
    var cols := RowCols(m, row);
    if m.sorted then
      var i := LowerBound(cols, col, 0, |cols|);
      if i < |cols| && cols[i] == col then i else -1
    else
      var i := IndexOf(cols, col);
      if i < |cols| then i else -1
  }

  /** CSRIsNonZero(csr, row, col): whether some entry is stored at (row, col). */
  function IsNonZero(m: CSRMatrix, row: int, col: int): (r: Result<bool>)
    requires Valid(m)
    ensures r.Success? <==> 0 <= row < m.numRows && 0 <= col < m.numCols
    ensures r.Success? && HintHolds(m) ==> (r.value <==> col in RowCols(m, row))
  {
    if 0 <= row < m.numRows && 0 <= col < m.numCols then Success(FindInRow(m, row, col) >= 0)
    else Failure(IndexOutOfRange)
  }

  /** The broadcasting rule of the batched queries: a length-1 argument is
      repeated to the other's length; otherwise the lengths must agree. */
  function Broadcast(rows: seq<int>, cols: seq<int>): (r: Result<seq<(int, int)>>)
    ensures r.Success? <==> |rows| == |cols| || |rows| == 1 || |cols| == 1
    ensures r.Failure? ==> r.error == BroadcastMismatch
    ensures r.Success? ==> |r.value| == (if |rows| == 1 then |cols| else |rows|)
    ensures r.Success? ==> forall i :: 0 <= i < |r.value| ==>
              r.value[i] == (rows[if |rows| == 1 then 0 else i], cols[if |cols| == 1 then 0 else i])
  {
    if |rows| == |cols| then Success(seq(|rows|, i requires 0 <= i < |rows| => (rows[i], cols[i])))
    else if |rows| == 1 then Success(seq(|cols|, i requires 0 <= i < |cols| => (rows[0], cols[i])))
    else if |cols| == 1 then Success(seq(|rows|, i requires 0 <= i < |rows| => (rows[i], cols[0])))
    else Failure(BroadcastMismatch)
  }

  predicate PairsInRange(m: CSRMatrix, pairs: seq<(int, int)>)
  {
    forall i :: 0 <= i < |pairs| ==> 0 <= pairs[i].0 < m.numRows && 0 <= pairs[i].1 < m.numCols
  }

  /** Batched CSRIsNonZero, one answer per broadcast pair. */
  function IsNonZeroBatch(m: CSRMatrix, rows: seq<int>, cols: seq<int>): (r: Result<seq<bool>>)
    requires Valid(m)
    ensures r.Success? <==> Broadcast(rows, cols).Success? && PairsInRange(m, Broadcast(rows, cols).value)
    ensures r.Success? ==> |r.value| == |Broadcast(rows, cols).value|
    ensures r.Success? ==> forall i :: 0 <= i < |r.value| ==>
              Success(r.value[i]) == IsNonZero(m, Broadcast(rows, cols).value[i].0, Broadcast(rows, cols).value[i].1)
  {
    var b := Broadcast(rows, cols);
    if b.Failure? then Failure(b.error)
    else if !PairsInRange(m, b.value) then Failure(IndexOutOfRange)
    else Success(seq(|b.value|, i requires 0 <= i < |b.value| => FindInRow(m, b.value[i].0, b.value[i].1) >= 0))
  }

  /** The entry ids of the entries with column `col`, in storage order. */
  function MatchEids(items: seq<Item>, col: int): (r: seq<int>)
    ensures |r| <= |items|
  {
    if items == [] then []
    else
      var last := items[|items| - 1];
      MatchEids(items[..|items| - 1], col) + (if last.col == col then [last.eid] else [])
  }

  /** The matching entry ids are exactly the ids stored with that column,
      and there are as many as the column occurs in the row. */
  lemma {:induction false} MatchEidsSpec(items: seq<Item>, col: int)
    ensures forall e :: e in MatchEids(items, col) <==> Item(col, e) in items
    ensures |MatchEids(items, col)| == multiset(ColsOf(items))[col]
    decreases |items|
  {
    if items != [] {
      var init := items[..|items| - 1];
      MatchEidsSpec(init, col);
      assert items == init + [items[|items| - 1]];
      assert ColsOf(items) == ColsOf(init) + [items[|items| - 1].col];
    }
  }

  /** The matches of one query pair, as (row, col, entry id) triples. */
  function MatchTriples(m: CSRMatrix, row: int, col: int): (ts: seq<Triple>)
    requires Valid(m) && 0 <= row < m.numRows
  {
    var ids := MatchEids(RowItems(m, row), col);
    seq(|ids|, i requires 0 <= i < |ids| => Triple(row, col, ids[i]))
  }

  /** The three output arrays {rows, cols, data} of CSRGetDataAndIndices. */
  datatype Selection = Selection(rows: seq<int>, cols: seq<int>, data: seq<int>)

  function Unzip(ts: seq<Triple>): (s: Selection)
    ensures |s.rows| == |s.cols| == |s.data| == |ts|
    ensures forall k :: 0 <= k < |ts| ==> ts[k] == Triple(s.rows[k], s.cols[k], s.data[k])
  {
    Selection(seq(|ts|, k requires 0 <= k < |ts| => ts[k].row),
              seq(|ts|, k requires 0 <= k < |ts| => ts[k].col),
              seq(|ts|, k requires 0 <= k < |ts| => ts[k].eid))
  }

  function AllMatches(m: CSRMatrix, pairs: seq<(int, int)>): seq<Triple>
    requires Valid(m) && PairsInRange(m, pairs)
  {
    Flatten(seq(|pairs|, i requires 0 <= i < |pairs| => MatchTriples(m, pairs[i].0, pairs[i].1)))
  }

  /** CSRGetDataAndIndices(csr, rows, cols): every stored entry matching some
      broadcast query pair, grouped by query pair in query order; pairs with
      no match contribute nothing. */
  function GetDataAndIndices(m: CSRMatrix, rows: seq<int>, cols: seq<int>): (r: Result<Selection>)
    requires Valid(m)
    ensures r.Success? <==> Broadcast(rows, cols).Success? && PairsInRange(m, Broadcast(rows, cols).value)
    ensures r.Success? ==> |r.value.rows| == |r.value.cols| == |r.value.data|
  {
    var b := Broadcast(rows, cols);
    if b.Failure? then Failure(b.error)
    else if !PairsInRange(m, b.value) then Failure(IndexOutOfRange)
    else Success(Unzip(AllMatches(m, b.value)))
  }

  /** A triple is returned exactly when its (row, col) is a query pair and an
      entry with that column and id is stored in that row. */
  lemma GetDataAndIndicesSpec(m: CSRMatrix, rows: seq<int>, cols: seq<int>, t: Triple)
    requires Valid(m) && GetDataAndIndices(m, rows, cols).Success?
    ensures var s := GetDataAndIndices(m, rows, cols).value;
            var pairs := Broadcast(rows, cols).value;
            (exists k :: 0 <= k < |s.rows| && t == Triple(s.rows[k], s.cols[k], s.data[k]))
            <==> (exists i :: 0 <= i < |pairs| && pairs[i] == (t.row, t.col))
                 && 0 <= t.row < m.numRows && Item(t.col, t.eid) in RowItems(m, t.row)
  {
    var pairs := Broadcast(rows, cols).value;
    UnzipMember(AllMatches(m, pairs), t);
    AllMatchesMember(m, pairs, t);
  }

  lemma UnzipMember(ts: seq<Triple>, t: Triple)
    ensures var s := Unzip(ts);
            (exists k :: 0 <= k < |s.rows| && t == Triple(s.rows[k], s.cols[k], s.data[k])) <==> t in ts
  {
    var s := Unzip(ts);
    if t in ts {
      var k :| 0 <= k < |ts| && ts[k] == t;
      assert t == Triple(s.rows[k], s.cols[k], s.data[k]);
    }
  }

  /** The matches of all pairs are the matches of some pair. */
  lemma AllMatchesMember(m: CSRMatrix, pairs: seq<(int, int)>, t: Triple)
    requires Valid(m) && PairsInRange(m, pairs)
    ensures t in AllMatches(m, pairs)
        <==> (exists i :: 0 <= i < |pairs| && pairs[i] == (t.row, t.col))
             && 0 <= t.row < m.numRows && Item(t.col, t.eid) in RowItems(m, t.row)
  {
    var blocks := seq(|pairs|, i requires 0 <= i < |pairs| => MatchTriples(m, pairs[i].0, pairs[i].1));
    assert AllMatches(m, pairs) == Flatten(blocks);
    FlattenMembers(blocks);
    if t in AllMatches(m, pairs) {
      var i :| 0 <= i < |blocks| && t in blocks[i];
      MatchTriplesMember(m, pairs[i].0, pairs[i].1, t);
    }
    if (exists i :: 0 <= i < |pairs| && pairs[i] == (t.row, t.col))
       && 0 <= t.row < m.numRows && Item(t.col, t.eid) in RowItems(m, t.row) {
      var i :| 0 <= i < |pairs| && pairs[i] == (t.row, t.col);
      MatchTriplesMember(m, pairs[i].0, pairs[i].1, t);
      assert t in blocks[i];
    }
  }

  /** The matches of one pair are the stored entries of its row with its
      column. */
  lemma MatchTriplesMember(m: CSRMatrix, row: int, col: int, t: Triple)
    requires Valid(m) && 0 <= row < m.numRows
    ensures t in MatchTriples(m, row, col) <==> t.row == row && t.col == col && Item(col, t.eid) in RowItems(m, row)
  {
    var ids := MatchEids(RowItems(m, row), col);
    MatchEidsSpec(RowItems(m, row), col);
    if t.row == row && t.col == col && Item(col, t.eid) in RowItems(m, row) {
      var j :| 0 <= j < |ids| && ids[j] == t.eid;
      assert MatchTriples(m, row, col)[j] == t;
    }
  }

  /** CSRGetAllData(mat, row, col): the `data` output of
      CSRGetDataAndIndices on the one-element query ([row], [col]). */
  function GetAllData(m: CSRMatrix, row: int, col: int): (r: Result<seq<int>>)
    requires Valid(m)
    ensures r.Success? <==> 0 <= row < m.numRows && 0 <= col < m.numCols
    ensures r.Success? ==> r.value == MatchEids(RowItems(m, row), col)
  {
    var rst := GetDataAndIndices(m, [row], [col]);
    if rst.Failure? then Failure(rst.error)
    else
      assert AllMatches(m, [(row, col)]) == MatchTriples(m, row, col) by {
        FlattenOne(MatchTriples(m, row, col));
        assert seq(1, i requires 0 <= i < 1 => MatchTriples(m, [(row, col)][i].0, [(row, col)][i].1))
               == [MatchTriples(m, row, col)];
      }
      Success(rst.value.data)
  }

  /** All the ids at (row, col), duplicates included: as many as the entry's
      multiplicity, and present exactly when the entry is non-zero. */
  lemma GetAllDataSpec(m: CSRMatrix, row: int, col: int)
    requires Valid(m) && 0 <= row < m.numRows && 0 <= col < m.numCols
    ensures forall e :: e in GetAllData(m, row, col).value <==> Item(col, e) in RowItems(m, row)
    ensures |GetAllData(m, row, col).value| == multiset(RowCols(m, row))[col]
    ensures HintHolds(m) ==> (|GetAllData(m, row, col).value| > 0 <==> IsNonZero(m, row, col).value)
  {
    MatchEidsSpec(RowItems(m, row), col);
  }

  /** The entry id found for one query pair, or -1. */
  function DataOf(m: CSRMatrix, row: int, col: int): int
    requires Valid(m) && 0 <= row < m.numRows
  {
    var p := FindInRow(m, row, col);
    if p < 0 then -1 else EidsOf(RowItems(m, row))[p]
  }

  /** CSRGetData(csr, rows, cols): for each broadcast pair, the entry id of
      one matching entry, or -1 when nothing is stored there. */
  function GetData(m: CSRMatrix, rows: seq<int>, cols: seq<int>): (r: Result<seq<int>>)
    requires Valid(m)
    ensures r.Success? <==> Broadcast(rows, cols).Success? && PairsInRange(m, Broadcast(rows, cols).value)
    ensures r.Success? ==> |r.value| == |Broadcast(rows, cols).value|
  {
    var b := Broadcast(rows, cols);
    if b.Failure? then Failure(b.error)
    else if !PairsInRange(m, b.value) then Failure(IndexOutOfRange)
    else Success(seq(|b.value|, i requires 0 <= i < |b.value| => DataOf(m, b.value[i].0, b.value[i].1)))
  }

  /** Entry ids are non-negative (ids index edge features). */
  predicate NonNegativeIds(m: CSRMatrix)
    requires Valid(m)
  {
    forall k :: 0 <= k < NNZ(m) ==> EntryIds(m)[k] >= 0
  }

  /** The i-th answer of CSRGetData is the id of the first entry stored at
      the i-th pair, and -1 exactly when no entry is stored there. */
  lemma GetDataSpec(m: CSRMatrix, rows: seq<int>, cols: seq<int>, i: int)
    requires Valid(m) && HintHolds(m) && NonNegativeIds(m)
    requires GetData(m, rows, cols).Success? && 0 <= i < |GetData(m, rows, cols).value|
    ensures var (row, col) := Broadcast(rows, cols).value[i];
            var v := GetData(m, rows, cols).value[i];
            && (v == -1 <==> col !in RowCols(m, row))
            && (v != -1 ==> exists p :: 0 <= p < |RowItems(m, row)| && RowItems(m, row)[p] == Item(col, v)
                                        && col !in RowCols(m, row)[..p])
  {
    var (row, col) := Broadcast(rows, cols).value[i];
    var p := FindInRow(m, row, col);
    if p >= 0 {
      RowItemAt(m, row, p);
      assert RowItems(m, row)[p] == Item(col, DataOf(m, row, col));
    }
  }
}
