/** Sorting and canonicalisation (include/dgl/aten/csr.h): the per-row sort
    as a value (CSRSort) and in place on the shared buffers (CSRSort_)
    and the duplicate test (CSRHasDuplicate). */
module CsrSort {
  import opened Seqs
  import opened CsrMatrix

  predicate SortedByCol(s: seq<Item>)
  {
    forall i, j :: 0 <= i <= j < |s| ==> s[i].col <= s[j].col
  }

  /** The entries of `s` with column `c`, in their order in `s`. */
  function WithCol(s: seq<Item>, c: int): seq<Item>
  {
    if s == [] then []
    else WithCol(s[..|s| - 1], c) + (if s[|s| - 1].col == c then [s[|s| - 1]] else [])
  }

  /** Places `x` behind the last entry whose column does not exceed its own. */
  function Insert(s: seq<Item>, x: Item): (r: seq<Item>)
    ensures |r| == |s| + 1
    ensures multiset(r) == multiset(s) + multiset{x}
  {
    if s == [] || s[|s| - 1].col <= x.col then s + [x]
    else
      assert s == s[..|s| - 1] + [s[|s| - 1]];
      Insert(s[..|s| - 1], x) + [s[|s| - 1]]
  }

  /** Stable insertion sort of a row by column. */
  function SortItems(s: seq<Item>): (r: seq<Item>)
    ensures |r| == |s|
    ensures multiset(r) == multiset(s)
  {
    if s == [] then []
    else
      assert s == s[..|s| - 1] + [s[|s| - 1]];
      Insert(SortItems(s[..|s| - 1]), s[|s| - 1])
  }

  lemma {:induction false} InsertCols(s: seq<Item>, x: Item)
    ensures multiset(ColsOf(Insert(s, x))) == multiset(ColsOf(s)) + multiset{x.col}
    decreases |s|
  {
    if s == [] || s[|s| - 1].col <= x.col {
      ColsOfAppend(s, [x]);
    } else {
      var init := s[..|s| - 1];
      var last := s[|s| - 1];
      assert s == init + [last];
      InsertCols(init, x);
      ColsOfAppend(init, [last]);
      ColsOfAppend(Insert(init, x), [last]);
    }
  }

  /** Sorting a row keeps its columns as a multiset. */
  lemma {:induction false} SortItemsCols(s: seq<Item>)
    ensures multiset(ColsOf(SortItems(s))) == multiset(ColsOf(s))
    decreases |s|
  {
    if s != [] {
      var init := s[..|s| - 1];
      var last := s[|s| - 1];
      assert s == init + [last];
      SortItemsCols(init);
      InsertCols(SortItems(init), last);
      ColsOfAppend(init, [last]);
    }
  }

  /** Appending an entry no smaller than every entry keeps a row sorted. */
  lemma SortedSnoc(t: seq<Item>, x: Item)
    requires SortedByCol(t)
    requires forall y | y in t :: y.col <= x.col
    ensures SortedByCol(t + [x])
  {
    var u := t + [x];
    forall i, j | 0 <= i <= j < |u| ensures u[i].col <= u[j].col {
      if j == |t| && i < |t| {
        assert u[i] == t[i] && t[i] in t;
      }
    }
  }

  /** The last entry of a sorted row bounds every entry of the row. */
  lemma SortedInit(s: seq<Item>)
    requires SortedByCol(s) && s != []
    ensures s == s[..|s| - 1] + [s[|s| - 1]]
    ensures SortedByCol(s[..|s| - 1])
    ensures forall y | y in s :: y.col <= s[|s| - 1].col
  {
    assert s == s[..|s| - 1] + [s[|s| - 1]];
    forall y | y in s ensures y.col <= s[|s| - 1].col {
      var i :| 0 <= i < |s| && s[i] == y;
    }
  }

  /** Inserting keeps every entry under a bound both the row and the new entry respect. */
  lemma InsertBound(s: seq<Item>, x: Item, b: int)
    requires forall y | y in s :: y.col <= b
    requires x.col <= b
    ensures forall y | y in Insert(s, x) :: y.col <= b
  {
    var t := Insert(s, x);
    forall y | y in t ensures y.col <= b {
      assert y in multiset(t);
      if y != x {
        assert y in multiset(s);
      }
    }
  }

  lemma {:induction false} InsertKeepsSorted(s: seq<Item>, x: Item)
    requires SortedByCol(s)
    ensures SortedByCol(Insert(s, x))
    decreases |s|
  {
    if s == [] || s[|s| - 1].col <= x.col {
      if s != [] {
        SortedInit(s);
      }
      SortedSnoc(s, x);
    } else {
      var init := s[..|s| - 1];
      var last := s[|s| - 1];
      SortedInit(s);
      InsertKeepsSorted(init, x);
      forall y | y in init ensures y.col <= last.col {
        assert y in s;
      }
      InsertBound(init, x, last.col);
      SortedSnoc(Insert(init, x), last);
    }
  }

  /** The sorted row is in ascending column order. */
  lemma {:induction false} SortItemsSorted(s: seq<Item>)
    ensures SortedByCol(SortItems(s))
    decreases |s|
  {
    if s != [] {
      SortItemsSorted(s[..|s| - 1]);
      InsertKeepsSorted(SortItems(s[..|s| - 1]), s[|s| - 1]);
    }
  }

  lemma WithColSnoc(s: seq<Item>, y: Item, c: int)
    ensures WithCol(s + [y], c) == WithCol(s, c) + (if y.col == c then [y] else [])
  {
    assert (s + [y])[..|s|] == s;
  }

  lemma {:induction false} InsertWithCol(s: seq<Item>, x: Item, c: int)
    ensures WithCol(Insert(s, x), c) == WithCol(s, c) + (if x.col == c then [x] else [])
    decreases |s|
  {
    if s == [] || s[|s| - 1].col <= x.col {
      WithColSnoc(s, x, c);
    } else {
      var init := s[..|s| - 1];
      var last := s[|s| - 1];
      var xs: seq<Item> := if x.col == c then [x] else [];
      var ls: seq<Item> := if last.col == c then [last] else [];
      assert xs == [] || ls == [];
      calc {
        WithCol(Insert(s, x), c);
        == { assert Insert(s, x) == Insert(init, x) + [last]; }
        WithCol(Insert(init, x) + [last], c);
        == { WithColSnoc(Insert(init, x), last, c); }
        WithCol(Insert(init, x), c) + ls;
        == { InsertWithCol(init, x, c); }
        WithCol(init, c) + xs + ls;
        WithCol(init, c) + ls + xs;
        == { WithColSnoc(init, last, c); assert init + [last] == s; }
        WithCol(s, c) + xs;
      }
    }
  }

  /** The sort is stable: entries with equal columns keep their relative order. */
  lemma {:induction false} SortItemsStable(s: seq<Item>, c: int)
    ensures WithCol(SortItems(s), c) == WithCol(s, c)
    decreases |s|
  {
    if s != [] {
      var init := s[..|s| - 1];
      SortItemsStable(init, c);
      InsertWithCol(SortItems(init), s[|s| - 1], c);
    }
  }

  /** An already sorted row is left as it is. */
  lemma {:induction false} SortItemsFixesSorted(s: seq<Item>)
    requires SortedByCol(s)
    ensures SortItems(s) == s
    decreases |s|
  {
    if s != [] {
      var init := s[..|s| - 1];
      var last := s[|s| - 1];
      SortedInit(s);
      SortItemsFixesSorted(init);
      assert SortItems(s) == Insert(init, last);
    }
  }

  lemma SortedByColCols(s: seq<Item>)
    ensures SortedByCol(s) <==> NonDecreasing(ColsOf(s))
  {
    var cs := ColsOf(s);
    assert forall i :: 0 <= i < |s| ==> cs[i] == s[i].col;
    if SortedByCol(s) {
      forall i, j | 0 <= i <= j < |cs| ensures cs[i] <= cs[j] {
        assert s[i].col <= s[j].col;
      }
    }
    if NonDecreasing(cs) {
      forall i, j | 0 <= i <= j < |s| ensures s[i].col <= s[j].col {
        assert cs[i] <= cs[j];
      }
    }
  }

  /** The sorted rows of a matrix. */
  function SortedRows(m: CSRMatrix): (rows: seq<seq<Item>>)
    requires Valid(m)
    ensures |rows| == m.numRows
  {
    seq(m.numRows, r requires 0 <= r < m.numRows => SortItems(RowItems(m, r)))
  }

  /** What CSRSort_ leaves behind: every row stably sorted by column, the
      entry ids carried along (made explicit when the data array was null),
      and the `sorted` flag set. */
  function SortAll(m: CSRMatrix): CSRMatrix
    requires Valid(m)
  {
    Build(m.numCols, SortedRows(m), true)
  }

  lemma SortedRowsCols(m: CSRMatrix)
    requires Valid(m)
    ensures ColsBelow(SortedRows(m), m.numCols)
  {
    var rows: seq<seq<Item>> := SortedRows(m);
    forall r: int, i: int | 0 <= r < |rows| && 0 <= i < |rows[r]| ensures 0 <= rows[r][i].col < m.numCols {
      assert rows[r][i] in multiset(RowItems(m, r));
      var j :| 0 <= j < |RowItems(m, r)| && RowItems(m, r)[j] == rows[r][i];
      RowItemAt(m, r, j);
    }
  }

  /** The sorted matrix has the input's shape and row pointers, and its row r
      is the sorted row r of the input. */
  lemma SortAllShape(m: CSRMatrix)
    requires Valid(m)
    ensures Valid(SortAll(m)) && SortAll(m).sorted
    ensures SortAll(m).numRows == m.numRows && SortAll(m).numCols == m.numCols
    ensures SortAll(m).indptr == m.indptr
    ensures forall r :: 0 <= r < m.numRows ==> RowItems(SortAll(m), r) == SortItems(RowItems(m, r))
  {
    var rows := SortedRows(m);
    SortedRowsCols(m);
    BuildRows(m.numCols, rows, true);
    RowsFlatten(m);
    OffsetsSameLengths(rows, Rows(m));
    forall r | 0 <= r < m.numRows ensures RowItems(SortAll(m), r) == SortItems(RowItems(m, r)) {
      assert Rows(SortAll(m))[r] == rows[r];
    }
  }

  /** The sort keeps the row pointers, sorts every row, keeps each row's
      entries (with their ids) as a multiset and keeps the relative order of
      entries sharing a column. */
  lemma SortAllSpec(m: CSRMatrix)
    requires Valid(m)
    ensures Valid(SortAll(m)) && RowsSorted(SortAll(m)) && SortAll(m).sorted
    ensures SortAll(m).numRows == m.numRows && SortAll(m).numCols == m.numCols
    ensures SortAll(m).indptr == m.indptr
    ensures forall r :: 0 <= r < m.numRows ==> multiset(RowItems(SortAll(m), r)) == multiset(RowItems(m, r))
    ensures forall r, c :: 0 <= r < m.numRows ==> WithCol(RowItems(SortAll(m), r), c) == WithCol(RowItems(m, r), c)
  {
    SortAllShape(m);
    var t := SortAll(m);
    forall r | 0 <= r < m.numRows ensures NonDecreasing(RowCols(t, r)) {
      SortItemsSorted(RowItems(m, r));
      SortedByColCols(RowItems(t, r));
    }
    forall r, c | 0 <= r < m.numRows
      ensures WithCol(RowItems(t, r), c) == WithCol(RowItems(m, r), c)
    {
      SortItemsStable(RowItems(m, r), c);
    }
  }

  /** Sorting a matrix whose rows are already sorted changes neither its
      columns nor its entry ids. */
  lemma SortAllIdempotent(m: CSRMatrix)
    requires Valid(m) && RowsSorted(m)
    ensures SortAll(m) == m.(data := Some(EntryIds(m)), sorted := true)
  {
    forall r | 0 <= r < m.numRows ensures SortedRows(m)[r] == Rows(m)[r] {
      assert NonDecreasing(RowCols(m, r));
      SortedByColCols(RowItems(m, r));
      SortItemsFixesSorted(RowItems(m, r));
    }
    assert SortedRows(m) == Rows(m);
    BuildFromRows(m, true);
  }

  /** CSRSort(csr): the input itself when its flag says it is sorted, and
      otherwise a sorted copy (the input's buffers are cloned first). */
  function CSRSort(m: CSRMatrix): (r: CSRMatrix)
    requires Valid(m)
    ensures m.sorted ==> r == m
  {
    if m.sorted then m else SortAll(m)
  }

  /** Whichever branch is taken, the result has sorted rows, the input's row
      pointers, the input's entries per row, and the flag set. */
  lemma CSRSortSpec(m: CSRMatrix)
    requires Valid(m) && HintHolds(m)
    ensures Valid(CSRSort(m)) && RowsSorted(CSRSort(m)) && CSRSort(m).sorted
    ensures CSRSort(m).indptr == m.indptr && CSRSort(m).numCols == m.numCols
    ensures forall r :: 0 <= r < m.numRows ==> multiset(RowItems(CSRSort(m), r)) == multiset(RowItems(m, r))
  {
    if !m.sorted {
      SortAllSpec(m);
    }
  }

  /** The 4 x 4 matrix of the CSRSort_ documentation. */
  function DocExample(): (m: CSRMatrix)
    ensures Valid(m)
  {
    CSRMatrix(4, 4, [0, 2, 3, 3, 5], [1, 0, 2, 3, 1], None, false)
  }

  /** DocExample's rows as (column, id) entries; without a data array an
      entry's id is its position. */
  lemma DocExampleRows()
    ensures RowItems(DocExample(), 0) == [Item(1, 0), Item(0, 1)]
    ensures RowItems(DocExample(), 1) == [Item(2, 2)]
    ensures RowItems(DocExample(), 2) == []
    ensures RowItems(DocExample(), 3) == [Item(3, 3), Item(1, 4)]
  {
    var m := DocExample();
    assert EntryIds(m) == [0, 1, 2, 3, 4];
    assert Items(m) == [Item(1, 0), Item(0, 1), Item(2, 2), Item(3, 3), Item(1, 4)];
  }

  /** The documented result of sorting DocExample, [0, 1, 1, 2, 3], is the
      whole column array sorted.  It is not what a per-row sort gives, and
      with the unchanged row pointers it moves the entry of row 1 from
      column 2 to column 1. */
  lemma SortDocExampleAsDocumented()
    ensures SortAll(DocExample()).indices != [0, 1, 1, 2, 3]
    ensures var doc := DocExample().(indices := [0, 1, 1, 2, 3]);
            Valid(doc) && RowCols(doc, 1) == [1] && RowCols(DocExample(), 1) == [2]
  {
    var m := DocExample();
    SortDocExample();
    DocExampleRows();
    var doc := m.(indices := [0, 1, 1, 2, 3]);
    assert Valid(doc);
    RowItemAt(doc, 1, 0);
    assert RowItems(doc, 1) == [RowItems(doc, 1)[0]];
  }

  /** Sorting DocExample row by row: rows [1, 0], [2], [] and [3, 1] become
      [0, 1], [2], [] and [1, 3], each entry keeping its id. */
  lemma SortDocExample()
    ensures SortAll(DocExample()).indptr == [0, 2, 3, 3, 5]
    ensures SortAll(DocExample()).indices == [0, 1, 2, 1, 3]
    ensures SortAll(DocExample()).data == Some([1, 0, 2, 4, 3])
  {
    SortedDocRows();
    FlattenFour([Item(0, 1), Item(1, 0)], [Item(2, 2)], [], [Item(1, 4), Item(3, 3)]);
    SortAllShape(DocExample());
    var f := [Item(0, 1), Item(1, 0), Item(2, 2), Item(1, 4), Item(3, 3)];
    assert [Item(0, 1), Item(1, 0)] + [Item(2, 2)] + [] + [Item(1, 4), Item(3, 3)] == f;
    assert SortAll(DocExample()).indices == ColsOf(f) && SortAll(DocExample()).data == Some(EidsOf(f));
    assert ColsOf(f) == [0, 1, 2, 1, 3] && EidsOf(f) == [1, 0, 2, 4, 3];
  }

  lemma DocRowsSorted()
    ensures SortItems([Item(1, 0), Item(0, 1)]) == [Item(0, 1), Item(1, 0)]
    ensures SortItems([Item(2, 2)]) == [Item(2, 2)]
    ensures SortItems([Item(3, 3), Item(1, 4)]) == [Item(1, 4), Item(3, 3)]
  {
    assert [Item(1, 0), Item(0, 1)][..1] == [Item(1, 0)];
    assert [Item(3, 3), Item(1, 4)][..1] == [Item(3, 3)];
    assert [Item(2, 2)][..0] == [];
  }

  lemma SortedDocRows()
    ensures SortedRows(DocExample())
         == [[Item(0, 1), Item(1, 0)], [Item(2, 2)], [], [Item(1, 4), Item(3, 3)]]
  {
    DocExampleRows();
    DocRowsSorted();
    var sr := SortedRows(DocExample());
    assert sr[0] == [Item(0, 1), Item(1, 0)] && sr[1] == [Item(2, 2)];
    assert sr[2] == [] && sr[3] == [Item(1, 4), Item(3, 3)];
  }

  /** The row-major (col, eid) entries of two parallel buffers. */
  function Zip(cols: seq<int>, eids: seq<int>): (s: seq<Item>)
    requires |cols| == |eids|
    ensures |s| == |cols|
  {
    seq(|cols|, k requires 0 <= k < |cols| => Item(cols[k], eids[k]))
  }

  /** The buffers' contents after the first `r` rows have been sorted. */
  ghost function PartlySorted(m: CSRMatrix, r: int): (s: seq<Item>)
    requires Valid(m) && 0 <= r <= m.numRows
  {
    Flatten(SortedRows(m)[..r]) + Items(m)[m.indptr[r]..]
  }

  lemma SortedPrefixLength(m: CSRMatrix, r: int)
    requires Valid(m) && 0 <= r <= m.numRows
    ensures |Flatten(SortedRows(m)[..r])| == m.indptr[r]
  {
    var rows := SortedRows(m);
    RowsFlatten(m);
    OffsetsSameLengths(rows, Rows(m));
    assert Offsets(rows)[r] == |Flatten(rows[..r])|;
  }

  /** Slices of a prefix glued to a suffix of `items` that starts at `lo`. */
  lemma SpliceSlices<T>(f: seq<T>, items: seq<T>, lo: int, hi: int)
    requires |f| == lo <= hi <= |items|
    ensures |f + items[lo..]| == |items|
    ensures (f + items[lo..])[..lo] == f
    ensures (f + items[lo..])[lo..hi] == items[lo..hi]
    ensures (f + items[lo..])[hi..] == items[hi..]
  {
    var p := f + items[lo..];
    assert p[..lo] == f;
    assert p[lo..hi] == items[lo..hi] by {
      forall k | 0 <= k < hi - lo ensures p[lo..hi][k] == items[lo..hi][k] {
        assert p[lo + k] == items[lo..][k];
      }
    }
    assert p[hi..] == items[hi..] by {
      forall k | 0 <= k < |items| - hi ensures p[hi..][k] == items[hi..][k] {
        assert p[hi + k] == items[lo..][hi - lo + k];
      }
    }
  }

  /** Sorting row r replaces exactly that row's run of the buffers. */
  lemma PartlySortedStep(m: CSRMatrix, r: int)
    requires Valid(m) && 0 <= r < m.numRows
    ensures |PartlySorted(m, r)| == NNZ(m)
    ensures PartlySorted(m, r)[m.indptr[r]..m.indptr[r + 1]] == RowItems(m, r)
    ensures PartlySorted(m, r + 1)
         == PartlySorted(m, r)[..m.indptr[r]] + SortedRows(m)[r] + PartlySorted(m, r)[m.indptr[r + 1]..]
  {
    var rows := SortedRows(m);
    SortedPrefixLength(m, r);
    FlattenSnoc(rows, r);
    SpliceSlices(Flatten(rows[..r]), Items(m), m.indptr[r], m.indptr[r + 1]);
  }

  lemma PartlySortedStart(m: CSRMatrix)
    requires Valid(m)
    ensures PartlySorted(m, 0) == Items(m)
  {
    assert SortedRows(m)[..0] == [];
    assert m.indptr[0] == 0;
  }

  lemma PartlySortedEnd(m: CSRMatrix)
    requires Valid(m)
    ensures Valid(SortAll(m)) && PartlySorted(m, m.numRows) == Items(SortAll(m))
  {
    var rows := SortedRows(m);
    assert rows[..m.numRows] == rows;
    assert Items(m)[m.indptr[m.numRows]..] == [];
    SortedRowsCols(m);
    BuildRows(m.numCols, rows, true);
  }

  /** The in-memory struct behind a `CSRMatrix*`: scalar fields plus shared
      buffers.  Two handles may share buffers, as copies of the C++ struct
      do, so an in-place sort through one is seen through the other. */
  class CSRBuffers {
    var numRows: int
    var numCols: int
    var indptr: seq<int>      // never written by the routines modelled here
    var indices: array<int>
    var data: array?<int>     // null models the null data array
    var sorted: bool

    /** The matrix value these buffers currently hold. */
    function Value(): CSRMatrix
      reads this, indices, data
    {
      CSRMatrix(numRows, numCols, indptr, indices[..], if data == null then None else Some(data[..]), sorted)
    }

    ghost predicate Valid()
      reads this, indices, data
    {
      CsrMatrix.Valid(Value()) && indices != data
    }

    /** A struct over the given buffers (the buffers are shared, not copied). */
    constructor (m: CSRMatrix, indices: array<int>, data: array?<int>)
      requires CsrMatrix.Valid(m) && indices != data
      requires indices[..] == m.indices
      requires if data == null then m.data.None? else m.data == Some(data[..])
      ensures Valid() && Value() == m
      ensures this.indices == indices && this.data == data
    {
      numRows, numCols, indptr, sorted := m.numRows, m.numCols, m.indptr, m.sorted;
      this.indices := indices;
      this.data := data;
    }

    /** Replaces a null data array by the identity ids 0 .. nnz-1, which is
        what the null array stands for. */
    method MaterializeIds()
      requires Valid()
      modifies this
      ensures data != null && data != indices && data.Length == indices.Length
      ensures Zip(indices[..], data[..]) == Items(old(Value()))
      ensures indices == old(indices) && indptr == old(indptr) && sorted == old(sorted)
      ensures numRows == old(numRows) && numCols == old(numCols)
      ensures old(data) != null ==> data == old(data)
      ensures old(data) == null ==> fresh(data)
    {
      ghost var m := Value();
      var n := indices.Length;
      if data == null {
        data := new int[n](k => k);
      }
      forall k | 0 <= k < n ensures data[k] == EntryIds(m)[k] {
      }
    }

    /** CSRSort_(&csr): sorts every row's slice of `indices` in place and
        moves the aligned `data` slice with it; `indptr` is not touched.  A
        null data array is first replaced by the identity ids, so that entry
        ids keep following their entries. */
    method Sort_()
      requires Valid()
      modifies this, indices, data
      ensures Valid()
      ensures Value() == SortAll(old(Value()))
      ensures indices == old(indices) && indptr == old(indptr)
      ensures old(data) != null ==> data == old(data)
      ensures old(data) == null ==> fresh(data)
    {
      ghost var m := Value();
      MaterializeIds();
      SortRows(indices, data, indptr, m);
      SortAllShape(m);
      sorted := true;
    }

    /** A copy of the struct: a new handle over the same buffers. */
    method Share() returns (copy: CSRBuffers)
      requires Valid()
      ensures fresh(copy) && copy.Valid() && copy.Value() == Value()
      ensures copy.indices == indices && copy.data == data
    {
      copy := new CSRBuffers(Value(), indices, data);
    }

    /** CSRSort(csr) on buffers: returns the same struct when its flag is set;
        otherwise clones `indices` (and `data` when present), sorts the clones
        in place and leaves this struct's buffers untouched. */
    method SortCopy() returns (ret: CSRBuffers)
      requires Valid()
      ensures fresh(ret) && ret.Valid() && ret.Value() == CSRSort(Value())
      ensures sorted ==> ret.indices == indices && ret.data == data
      ensures !sorted ==> fresh(ret.indices) && fresh(ret.data)
    {
      if sorted {
        ret := Share();
        return;
      }
      var n := indices.Length;
      var src := indices;
      var newIndices := new int[n](k requires 0 <= k < n reads src => src[k]);
      var newData: array?<int> := null;
      if data != null {
        var d: array<int> := data;
        newData := new int[n](k requires 0 <= k < n reads d => d[k]);
      }
      assert newIndices[..] == indices[..];
      assert newData != null ==> newData[..] == data[..];
      ret := new CSRBuffers(Value(), newIndices, newData);
      ret.Sort_();
    }
  }

  /** A matrix is determined by its shape fields and its entries. */
  lemma ZipItems(cols: seq<int>, eids: seq<int>, t: CSRMatrix)
    requires Valid(t) && t.data.Some? && |cols| == |eids|
    requires Zip(cols, eids) == Items(t)
    ensures cols == t.indices && eids == t.data.value
  {
    assert EntryIds(t) == t.data.value;
    forall k | 0 <= k < |cols| ensures cols[k] == t.indices[k] && eids[k] == t.data.value[k] {
      assert Zip(cols, eids)[k] == Items(t)[k];
    }
  }

  /** Overwrites positions lo .. lo+|row|-1 of the two parallel buffers with `row`. */
  method WriteRow(cols: array<int>, ids: array<int>, lo: int, row: seq<Item>)
    requires cols != ids && cols.Length == ids.Length
    requires 0 <= lo && lo + |row| <= cols.Length
    modifies cols, ids
    ensures Zip(cols[..], ids[..])
         == old(Zip(cols[..], ids[..]))[..lo] + row + old(Zip(cols[..], ids[..]))[lo + |row|..]
  {
    ghost var before := Zip(cols[..], ids[..]);
    var i := 0;
    while i < |row|
      invariant 0 <= i <= |row|
      invariant forall k :: 0 <= k < cols.Length ==>
                  Item(cols[k], ids[k]) == if lo <= k < lo + i then row[k - lo] else before[k]
    {
      cols[lo + i] := row[i].col;
      ids[lo + i] := row[i].eid;
      i := i + 1;
    }
    ghost var after := Zip(cols[..], ids[..]);
    ghost var spliced := before[..lo] + row + before[lo + |row|..];
    forall k | 0 <= k < |after| ensures after[k] == spliced[k] {
      assert after[k] == Item(cols[k], ids[k]);
    }
  }

  lemma ZipSlice(cols: seq<int>, eids: seq<int>, lo: int, hi: int)
    requires |cols| == |eids| && 0 <= lo <= hi <= |cols|
    ensures Zip(cols[lo..hi], eids[lo..hi]) == Zip(cols, eids)[lo..hi]
  {
  }

  /** The loop of CSRSort_: sorts the rows one after the other. */
  method SortRows(cols: array<int>, ids: array<int>, indptr: seq<int>, ghost m: CSRMatrix)
    requires Valid(m) && indptr == m.indptr
    requires cols != ids && cols.Length == ids.Length == NNZ(m)
    requires Zip(cols[..], ids[..]) == Items(m)
    modifies cols, ids
    ensures Valid(SortAll(m)) && SortAll(m).data.Some?
    ensures cols[..] == SortAll(m).indices && ids[..] == SortAll(m).data.value
  {
    PartlySortedStart(m);
    var r := 0;
    while r < |indptr| - 1
      invariant 0 <= r <= m.numRows
      invariant Zip(cols[..], ids[..]) == PartlySorted(m, r)
    {
      SortRow(cols, ids, indptr, m, r);
      r := r + 1;
    }
    PartlySortedEnd(m);
    ZipItems(cols[..], ids[..], SortAll(m));
  }

  /** One step of CSRSort_: copies row r out of the buffers, sorts it and
      writes it back in place. */
  method SortRow(cols: array<int>, ids: array<int>, indptr: seq<int>, ghost m: CSRMatrix, r: int)
    requires Valid(m) && 0 <= r < m.numRows && indptr == m.indptr
    requires cols != ids && cols.Length == ids.Length == NNZ(m)
    requires Zip(cols[..], ids[..]) == PartlySorted(m, r)
    modifies cols, ids
    ensures Zip(cols[..], ids[..]) == PartlySorted(m, r + 1)
  {
    PartlySortedStep(m, r);
    var lo, hi := indptr[r], indptr[r + 1];
    var row := Zip(cols[lo..hi], ids[lo..hi]);
    ZipSlice(cols[..], ids[..], lo, hi);
    assert cols[lo..hi] == cols[..][lo..hi] && ids[lo..hi] == ids[..][lo..hi];
    var sortedRow := SortItems(row);
    WriteRow(cols, ids, lo, sortedRow);
  }

  /** The aliasing hazard of CSRSort_ on a struct whose buffers are shared:
      a plain copy of the struct taken before sees the sorted entries through
      the shared buffers but keeps its stale sorted flag.  When the data array
      was null, the sort installs a fresh one the copy does not see, so the
      copy pairs the sorted columns with their positions as ids. */
  method SharedBuffersObserveSort(a: CSRBuffers) returns (alias: CSRBuffers)
    requires a.Valid()
    modifies a, a.indices, a.data
    ensures a.Valid() && a.Value() == SortAll(old(a.Value()))
    ensures alias.Valid() && alias.indices == a.indices
    ensures old(a.data) != null ==>
              alias.data == a.data && alias.Value() == SortAll(old(a.Value())).(sorted := old(a.sorted))
    ensures old(a.data) == null ==>
              alias.data == null && alias.Value() == SortAll(old(a.Value())).(data := None, sorted := old(a.sorted))
  {
    alias := a.Share();
    a.Sort_();
    assert alias.indices[..] == a.indices[..];
    assert old(a.data) != null ==> alias.Value() == a.Value().(sorted := old(a.sorted));
    assert old(a.data) == null ==> alias.Value() == a.Value().(data := None, sorted := old(a.sorted));
  }

  /** A CSRSort copy taken before CSRSort_ is unaffected by it, unless the
      flag was already set, in which case CSRSort shared the buffers. */
  method SortCopyIsolated(a: CSRBuffers) returns (isolated: CSRBuffers)
    requires a.Valid()
    modifies a, a.indices, a.data
    ensures a.Valid() && a.Value() == SortAll(old(a.Value()))
    ensures !old(a.sorted) ==> isolated.Valid() && isolated.Value() == SortAll(old(a.Value()))
    ensures old(a.sorted) ==> isolated.indices == a.indices && isolated.data == old(a.data)
    ensures old(a.sorted) && old(a.data) != null ==> isolated.data == a.data
  {
    isolated := a.SortCopy();
    ghost var isolatedValue := isolated.Value();
    ghost var copied := !a.sorted;
    assert copied ==> isolated != a && isolated.indices != a.indices && isolated.data != null;
    assert copied && a.data != null ==> isolated.data != a.data;
    a.Sort_();
    assert copied ==> isolated.Value() == isolatedValue;
  }

  /** Scans `s` left to right with a set of the columns seen so far (the
      per-row hash set of CSRHasDuplicate). */
  function DupScan(s: seq<int>, seen: set<int>): bool
    decreases |s|
  {
    if s == [] then false
    else if s[0] in seen then true
    else DupScan(s[1..], seen + {s[0]})
  }

  lemma {:induction false} DupScanSpec(s: seq<int>, seen: set<int>)
    ensures DupScan(s, seen) <==> (exists i :: 0 <= i < |s| && s[i] in seen) || !Distinct(s)
    decreases |s|
  {
    if s != [] && s[0] !in seen {
      var t := s[1..];
      DupScanSpec(t, seen + {s[0]});
      if exists i :: 0 <= i < |t| && t[i] in seen + {s[0]} {
        var i :| 0 <= i < |t| && t[i] in seen + {s[0]};
        if t[i] == s[0] { assert s[0] == s[i + 1]; } else { assert s[i + 1] in seen; }
      }
      if !Distinct(t) {
        var i, j :| 0 <= i < j < |t| && t[i] == t[j];
        assert s[i + 1] == s[j + 1];
      }
      if !Distinct(s) {
        var i, j :| 0 <= i < j < |s| && s[i] == s[j];
        if i == 0 { assert t[j - 1] == s[0]; } else { assert t[i - 1] == t[j - 1]; }
      }
      if exists i :: 0 <= i < |s| && s[i] in seen {
        var i :| 0 <= i < |s| && s[i] in seen;
        assert t[i - 1] in seen;
      }
    }
  }

  /** CSRHasDuplicate(csr): true exactly when some row stores two entries
      with the same column (entry ids are ignored). */
  function HasDuplicate(m: CSRMatrix): (r: bool)
    requires Valid(m)
    ensures r <==> exists row :: 0 <= row < m.numRows && !Distinct(RowCols(m, row))
  {
    var answer := exists row :: 0 <= row < m.numRows && DupScan(RowCols(m, row), {});
    assert answer <==> exists row :: 0 <= row < m.numRows && !Distinct(RowCols(m, row)) by {
      forall row | 0 <= row < m.numRows {
        DupScanSpec(RowCols(m, row), {});
      }
    }
    answer
  }
}
