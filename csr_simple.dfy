/** CSRToSimple (include/dgl/aten/csr.h): collapses parallel entries of a
    multigraph into one entry per (row, col), returning the simple matrix, how
    many entries each kept entry stands for, and where every original entry
    went. */
module CsrSimple {
  import opened Seqs
  import opened CsrMatrix
  import opened CsrSort
  import CsrQuery

  predicate StrictlyIncreasing(s: seq<int>)
  {
    forall i, j :: 0 <= i < j < |s| ==> s[i] < s[j]
  }

  /** Drops every element equal to its predecessor. */
  function Dedup(s: seq<int>): (r: seq<int>)
    ensures |r| <= |s|
  {
    if |s| <= 1 then s
    else if s[|s| - 2] == s[|s| - 1] then Dedup(s[..|s| - 1])
    else Dedup(s[..|s| - 1]) + [s[|s| - 1]]
  }

  /** On a sorted sequence, Dedup keeps each value exactly once, in order. */
  lemma {:induction false} DedupSpec(s: seq<int>)
    requires NonDecreasing(s)
    ensures StrictlyIncreasing(Dedup(s))
    ensures forall x :: x in Dedup(s) <==> x in s
    ensures s != [] ==> Dedup(s) != [] && Dedup(s)[|Dedup(s)| - 1] == s[|s| - 1]
    decreases |s|
  {
    if |s| > 1 {
      var init := s[..|s| - 1];
      var last := s[|s| - 1];
      assert s == init + [last];
      DedupSpec(init);
      var d := Dedup(init);
      if s[|s| - 2] != last {
        assert s[|s| - 2] < last;
        forall x | x in d ensures x < last {
          var i :| 0 <= i < |init| && init[i] == x;
          assert s[i] <= s[|s| - 2];
        }
        var e := d + [last];
        assert Dedup(s) == e;
        forall i, j | 0 <= i < j < |e| ensures e[i] < e[j] {
          if j == |d| { assert e[i] in d; }
        }
      }
    }
  }

  /** The distinct columns of row r, ascending: the row of the simple matrix. */
  function UniqueCols(m: CSRMatrix, r: int): seq<int>
    requires Valid(m) && 0 <= r < m.numRows
  {
    Dedup(ColsOf(SortItems(RowItems(m, r))))
  }

  lemma UniqueColsSpec(m: CSRMatrix, r: int)
    requires Valid(m) && 0 <= r < m.numRows
    ensures StrictlyIncreasing(UniqueCols(m, r))
    ensures forall c :: c in UniqueCols(m, r) <==> c in RowCols(m, r)
  {
    var items := RowItems(m, r);
    SortItemsSorted(items);
    SortedByColCols(SortItems(items));
    DedupSpec(ColsOf(SortItems(items)));
    SortItemsCols(items);
    forall c ensures c in ColsOf(SortItems(items)) <==> c in RowCols(m, r) {
      assert c in ColsOf(SortItems(items)) <==> c in multiset(ColsOf(SortItems(items)));
      assert c in RowCols(m, r) <==> c in multiset(RowCols(m, r));
    }
  }

  /** How often each value of `u` occurs in `s`. */
  function Count(s: seq<int>, u: seq<int>): (r: seq<int>)
    ensures |r| == |u|
  {
    seq(|u|, j requires 0 <= j < |u| => multiset(s)[u[j]])
  }

  /** When `u` lists every value of `s` once, the counts add up to |s|. */
  lemma {:induction false} CountSum(s: seq<int>, u: seq<int>)
    requires Distinct(u)
    requires forall x :: x in s ==> x in u
    ensures Sum(Count(s, u)) == |s|
    decreases |s|
  {
    if s == [] {
      var z := Count(s, u);
      assert forall j :: 0 <= j < |z| ==> z[j] == 0;
      ZeroSum(z);
    } else {
      var n := |s| - 1;
      var x := s[n];
      assert s == s[..n] + [x];
      CountSum(s[..n], u);
      var a := Count(s[..n], u);
      var b := seq(|u|, j requires 0 <= j < |u| => if u[j] == x then 1 else 0);
      assert Count(s, u) == seq(|a|, j requires 0 <= j < |a| => a[j] + b[j]);
      SumPointwise(a, b);
      SumIndicator(u, x);
      DistinctOnce(u, x);
    }
  }

  lemma {:induction false} ZeroSum(z: seq<int>)
    requires forall j :: 0 <= j < |z| ==> z[j] == 0
    ensures Sum(z) == 0
    decreases |z|
  {
    if z != [] {
      ZeroSum(z[..|z| - 1]);
    }
  }

  /** The three results of CSRToSimple. */
  datatype Simplified = Simplified(matrix: CSRMatrix, count: seq<int>, edgeMap: seq<int>)

  function UniqueRows(m: CSRMatrix): (u: seq<seq<int>>)
    requires Valid(m)
    ensures |u| == m.numRows
  {
    seq(m.numRows, r requires 0 <= r < m.numRows => UniqueCols(m, r))
  }

  /** Row r of `u` lists every column of row r of `rows` exactly once. */
  ghost predicate Covers(rows: seq<seq<int>>, u: seq<seq<int>>)
  {
    && |rows| == |u|
    && forall r :: 0 <= r < |u| ==> Distinct(u[r]) && SameValues(u[r], rows[r])
  }

  ghost predicate SameValues(a: seq<int>, b: seq<int>)
  {
    forall c :: c in a <==> c in b
  }

  lemma SameValuesAt(a: seq<int>, b: seq<int>, i: int)
    requires SameValues(a, b) && 0 <= i < |a|
    ensures a[i] in b
  {
    var c := a[i];
    assert c in a;
    assert c in b;
  }

  /** Per row, the multiplicity in `rows` of each value of `u`. */
  function Counts(rows: seq<seq<int>>, u: seq<seq<int>>): (cs: seq<seq<int>>)
    requires |rows| == |u|
    ensures |cs| == |u|
  {
    seq(|u|, r requires 0 <= r < |u| => Count(rows[r], u[r]))
  }

  /** Per row, for each entry of `rows`, the position in Flatten(u) of its value. */
  function Targets(rows: seq<seq<int>>, u: seq<seq<int>>): (ts: seq<seq<int>>)
    requires |rows| == |u|
    ensures |ts| == |rows|
  {
    seq(|rows|, r requires 0 <= r < |rows| =>
      seq(|rows[r]|, i requires 0 <= i < |rows[r]| => Offsets(u)[r] + IndexOf(u[r], rows[r][i])))
  }

  /** Re-indexes a per-position map by entry id: slot e holds the value of
      the position whose id is e, or -1 when no position carries id e. */
  function ById(ids: seq<int>, t: seq<int>, n: nat): (g: seq<int>)
    ensures |g| == n
  {
    seq(n, e requires 0 <= e < n => if e in ids && IndexOf(ids, e) < |t| then t[IndexOf(ids, e)] else -1)
  }

  /** With ids that are a permutation, slot ids[k] holds t[k], and the map
      has the same values as `t`. */
  lemma ByIdAt(ids: seq<int>, t: seq<int>)
    requires |t| == |ids| && IsPermutation(ids, |t|)
    ensures forall k :: 0 <= k < |t| ==> 0 <= ids[k] < |t| && ById(ids, t, |t|)[ids[k]] == t[k]
    ensures multiset(ById(ids, t, |t|)) == multiset(t)
  {
    forall k | 0 <= k < |t| ensures ById(ids, t, |t|)[ids[k]] == t[k] {
      IndexOfDistinct(ids, k);
    }
    ScatterMultiset(ById(ids, t, |t|), t, ids);
  }

  /** CSRToSimple(csr): row r of the simple matrix holds the distinct columns
      of row r in ascending order (no data array, flagged sorted); `count`
      gives, per kept entry, the number of original entries with its (row,
      col); `edgeMap` gives, per original edge id, the position of the kept
      entry that edge was merged into. */
  function ToSimple(m: CSRMatrix): Simplified
    requires Valid(m)
  {
    var u := UniqueRows(m);
    var byPosition := Flatten(Targets(ColRows(m), u));
    Simplified(
      CSRMatrix(m.numRows, m.numCols, Offsets(u), Flatten(u), None, true),
      Flatten(Counts(ColRows(m), u)),
      if m.data.None? then byPosition else ById(m.data.value, byPosition, NNZ(m)))
  }

  /** Slot i of row r of the distinct values counts that value's occurrences in row r. */
  lemma CountSlot(rows: seq<seq<int>>, u: seq<seq<int>>, r: int, i: int)
    requires |rows| == |u| && 0 <= r < |u| && 0 <= i < |u[r]| && SameValues(u[r], rows[r])
    ensures Offsets(u)[r] + i < |Flatten(u)|
    ensures |Flatten(Counts(rows, u))| == |Flatten(u)|
    ensures Flatten(Counts(rows, u))[Offsets(u)[r] + i] == multiset(rows[r])[Flatten(u)[Offsets(u)[r] + i]] >= 1
  {
    var cs := Counts(rows, u);
    OffsetsSameLengths(cs, u);
    FlattenAt(cs, r, i);
    FlattenAt(u, r, i);
    SameValuesAt(u[r], rows[r], i);
  }

  /** The kept slot p of row r counts the occurrences of its value in row r,
      and that value does occur. */
  lemma CountAt(rows: seq<seq<int>>, u: seq<seq<int>>, p: int)
    requires Covers(rows, u) && 0 <= p < |Flatten(u)|
    ensures |Flatten(Counts(rows, u))| == |Flatten(u)|
    ensures Flatten(Counts(rows, u))[p] >= 1
    ensures forall r :: 0 <= r < |u| && Offsets(u)[r] <= p < Offsets(u)[r + 1] ==>
              Flatten(Counts(rows, u))[p] == multiset(rows[r])[Flatten(u)[p]]
  {
    var r := OffsetRow(u, p);
    SlotInRow(u, r, 0);
    assert SameValues(u[r], rows[r]);
    CountSlot(rows, u, r, p - Offsets(u)[r]);
  }

  lemma CountsSum(rows: seq<seq<int>>, u: seq<seq<int>>)
    requires Covers(rows, u)
    ensures Sum(Flatten(Counts(rows, u))) == |Flatten(rows)|
  {
    var cs := Counts(rows, u);
    forall r | 0 <= r < |u| ensures Sum(cs[r]) == |rows[r]| {
      assert SameValues(u[r], rows[r]);
      CountSum(rows[r], u[r]);
    }
    SumFlatten(cs);
    var sums := seq(|cs|, i requires 0 <= i < |cs| => Sum(cs[i]));
    assert sums == Lengths(rows);
    SumLengths(rows);
  }

  lemma CountsSpec(rows: seq<seq<int>>, u: seq<seq<int>>)
    requires Covers(rows, u)
    ensures |Flatten(Counts(rows, u))| == |Flatten(u)|
    ensures Sum(Flatten(Counts(rows, u))) == |Flatten(rows)|
    ensures forall p :: 0 <= p < |Flatten(Counts(rows, u))| ==>
              && p < |Flatten(u)|
              && Flatten(Counts(rows, u))[p] >= 1
              && forall r :: 0 <= r < |u| && Offsets(u)[r] <= p < Offsets(u)[r + 1] ==>
                   Flatten(Counts(rows, u))[p] == multiset(rows[r])[Flatten(u)[p]]
  {
    OffsetsSameLengths(Counts(rows, u), u);
    CountsSum(rows, u);
    forall p | 0 <= p < |Flatten(Counts(rows, u))|
      ensures && p < |Flatten(u)|
              && Flatten(Counts(rows, u))[p] >= 1
              && forall r :: 0 <= r < |u| && Offsets(u)[r] <= p < Offsets(u)[r + 1] ==>
                   Flatten(Counts(rows, u))[p] == multiset(rows[r])[Flatten(u)[p]]
    {
      CountAt(rows, u, p);
    }
  }

  /** The target of entry i of row r is the slot of its value within row r. */
  lemma TargetEntry(rows: seq<seq<int>>, u: seq<seq<int>>, r: int, i: int)
    requires |rows| == |u| && 0 <= r < |rows| && 0 <= i < |rows[r]|
    ensures Offsets(rows)[r] + i < |Flatten(rows)|
    ensures |Flatten(Targets(rows, u))| == |Flatten(rows)|
    ensures Flatten(Targets(rows, u))[Offsets(rows)[r] + i] == Offsets(u)[r] + IndexOf(u[r], rows[r][i])
    ensures Flatten(rows)[Offsets(rows)[r] + i] == rows[r][i]
  {
    var ts := Targets(rows, u);
    OffsetsSameLengths(ts, rows);
    FlattenAt(ts, r, i);
    FlattenAt(rows, r, i);
  }

  /** Entry i of row r is sent into row r of the distinct values, onto its own value. */
  lemma TargetAt(rows: seq<seq<int>>, u: seq<seq<int>>, r: int, i: int)
    requires Covers(rows, u) && 0 <= r < |rows| && 0 <= i < |rows[r]|
    ensures && Offsets(rows)[r] + i < |Flatten(Targets(rows, u))|
            && Offsets(rows)[r] + i < |Flatten(rows)|
            && Offsets(u)[r] <= Flatten(Targets(rows, u))[Offsets(rows)[r] + i] < Offsets(u)[r + 1]
            && 0 <= Flatten(Targets(rows, u))[Offsets(rows)[r] + i] < |Flatten(u)|
            && Flatten(u)[Flatten(Targets(rows, u))[Offsets(rows)[r] + i]] == Flatten(rows)[Offsets(rows)[r] + i]
  {
    var c := rows[r][i];
    assert c in u[r] by {
      assert SameValues(u[r], rows[r]);
    }
    TargetEntry(rows, u, r, i);
    SlotOfValue(u, r, c);
  }

  /** A value of row r of `u` sits at its IndexOf slot within that row. */
  lemma SlotOfValue(u: seq<seq<int>>, r: int, c: int)
    requires 0 <= r < |u| && c in u[r]
    ensures Offsets(u)[r] <= Offsets(u)[r] + IndexOf(u[r], c) < Offsets(u)[r + 1]
    ensures 0 <= Offsets(u)[r] + IndexOf(u[r], c) < |Flatten(u)|
    ensures Flatten(u)[Offsets(u)[r] + IndexOf(u[r], c)] == c
  {
    var j := IndexOf(u[r], c);
    FlattenAt(u, r, j);
    SlotInRow(u, r, j);
  }

  lemma SlotInRow<T>(u: seq<seq<T>>, r: int, j: int)
    requires 0 <= r < |u| && 0 <= j
    ensures Offsets(u)[r + 1] == Offsets(u)[r] + |u[r]|
    ensures j < |u[r]| ==> Offsets(u)[r] <= Offsets(u)[r] + j < Offsets(u)[r + 1]
  {
    FlattenSnoc(u, r);
  }

  /** Every entry, at storage position k of row r, is sent into row r of the
      distinct values, onto a slot holding its own value. */
  lemma TargetOfPosition(rows: seq<seq<int>>, u: seq<seq<int>>, k: int)
    requires Covers(rows, u) && 0 <= k < |Flatten(rows)|
    ensures |Flatten(Targets(rows, u))| == |Flatten(rows)|
    ensures && 0 <= Flatten(Targets(rows, u))[k] < |Flatten(u)|
            && Flatten(u)[Flatten(Targets(rows, u))[k]] == Flatten(rows)[k]
            && forall r :: 0 <= r < |rows| && Offsets(rows)[r] <= k < Offsets(rows)[r + 1] ==>
                 Offsets(u)[r] <= Flatten(Targets(rows, u))[k] < Offsets(u)[r + 1]
  {
    OffsetsSameLengths(Targets(rows, u), rows);
    OffsetsShape(rows);
    var r := OffsetRow(rows, k);
    TargetAt(rows, u, r, k - Offsets(rows)[r]);
  }

  /** Every entry, at storage position k of row r, is sent into row r of the
      distinct values, onto a slot holding its own value. */
  lemma TargetsSpec(rows: seq<seq<int>>, u: seq<seq<int>>)
    requires Covers(rows, u)
    ensures |Flatten(Targets(rows, u))| == |Flatten(rows)|
    ensures forall k :: 0 <= k < |Flatten(rows)| ==>
              && 0 <= Flatten(Targets(rows, u))[k] < |Flatten(u)|
              && Flatten(u)[Flatten(Targets(rows, u))[k]] == Flatten(rows)[k]
              && forall r :: 0 <= r < |rows| && Offsets(rows)[r] <= k < Offsets(rows)[r + 1] ==>
                   Offsets(u)[r] <= Flatten(Targets(rows, u))[k] < Offsets(u)[r + 1]
  {
    OffsetsSameLengths(Targets(rows, u), rows);
    forall k | 0 <= k < |Flatten(rows)|
      ensures && 0 <= Flatten(Targets(rows, u))[k] < |Flatten(u)|
              && Flatten(u)[Flatten(Targets(rows, u))[k]] == Flatten(rows)[k]
              && forall r :: 0 <= r < |rows| && Offsets(rows)[r] <= k < Offsets(rows)[r + 1] ==>
                   Offsets(u)[r] <= Flatten(Targets(rows, u))[k] < Offsets(u)[r + 1]
    {
      TargetOfPosition(rows, u, k);
    }
  }

  /** The column lists and their distinct values satisfy Covers, and the
      column lists sit at the row pointers. */
  lemma UniqueRowsCover(m: CSRMatrix)
    requires Valid(m)
    ensures Covers(ColRows(m), UniqueRows(m))
    ensures Offsets(ColRows(m)) == m.indptr
    ensures forall r :: 0 <= r < m.numRows ==> StrictlyIncreasing(UniqueRows(m)[r])
  {
    var cr := ColRows(m);
    var u := UniqueRows(m);
    forall r | 0 <= r < m.numRows
      ensures StrictlyIncreasing(u[r]) && Distinct(u[r]) && SameValues(u[r], cr[r])
    {
      UniqueColsSpec(m, r);
    }
    OffsetsFromLengths(cr, m.indptr);
  }

  lemma UniqueRowsBelow(m: CSRMatrix)
    requires Valid(m)
    ensures forall k :: 0 <= k < |Flatten(UniqueRows(m))| ==> 0 <= Flatten(UniqueRows(m))[k] < m.numCols
  {
    var u := UniqueRows(m);
    var f := Flatten(u);
    forall k | 0 <= k < |f| ensures 0 <= f[k] < m.numCols {
      var r, j := FlattenedAt(u, k);
      var c := u[r][j];
      assert c in UniqueCols(m, r) by {
        assert u[r] == UniqueCols(m, r);
      }
      UniqueColsSpec(m, r);
      RowColInRange(m, r, c);
    }
  }

  lemma RowColInRange(m: CSRMatrix, r: int, c: int)
    requires Valid(m) && 0 <= r < m.numRows && c in RowCols(m, r)
    ensures 0 <= c < m.numCols
  {
    var i :| 0 <= i < |RowCols(m, r)| && RowCols(m, r)[i] == c;
    RowItemAt(m, r, i);
  }

  /** The simple matrix is valid, has the input's shape, and its row r is
      UniqueCols(m, r). */
  lemma ToSimpleRows(m: CSRMatrix)
    requires Valid(m)
    ensures var b := ToSimple(m).matrix;
            && Valid(b) && b.numRows == m.numRows && b.numCols == m.numCols
            && b.sorted && b.data.None?
            && forall r :: 0 <= r < m.numRows ==> RowCols(b, r) == UniqueCols(m, r)
  {
    var u := UniqueRows(m);
    UniqueRowsBelow(m);
    ColumnsBuild(u, m.numCols, true);
    assert ToSimple(m).matrix == ColumnsMatrix(u, m.numCols, true);
  }

  /** The simple matrix has sorted rows, no (row, col) pair twice, and the
      same set of columns in every row as the input. */
  lemma ToSimpleIsSimple(m: CSRMatrix)
    requires Valid(m)
    ensures var b := ToSimple(m).matrix;
            && Valid(b) && RowsSorted(b) && !HasDuplicate(b)
            && forall r, c :: 0 <= r < m.numRows ==> (c in RowCols(b, r) <==> c in RowCols(m, r))
  {
    var b := ToSimple(m).matrix;
    ToSimpleRows(m);
    forall r | 0 <= r < m.numRows ensures NonDecreasing(RowCols(b, r)) && Distinct(RowCols(b, r)) {
      UniqueColsSpec(m, r);
    }
    forall r, c | 0 <= r < m.numRows ensures c in RowCols(b, r) <==> c in RowCols(m, r) {
      UniqueColsSpec(m, r);
    }
  }

  /** CSRToSimple's count array: one positive count per kept entry, equal
      to the number of original entries of its row with its column; the
      counts add up to the original number of entries. */
  lemma ToSimpleCount(m: CSRMatrix)
    requires Valid(m)
    ensures var s := ToSimple(m);
            && |s.count| == NNZ(s.matrix)
            && Sum(s.count) == NNZ(m)
            && forall p :: 0 <= p < |s.count| ==>
                 && p < |s.matrix.indices|
                 && s.count[p] >= 1
                 && forall r :: 0 <= r < m.numRows && s.matrix.indptr[r] <= p < s.matrix.indptr[r + 1] ==>
                      s.count[p] == multiset(RowCols(m, r))[s.matrix.indices[p]]
  {
    UniqueRowsCover(m);
    ColRowsFlatten(m);
    CountsSpec(ColRows(m), UniqueRows(m));
  }

  /** CSRToSimple's edge map, indexed by edge id: the edge with id
      EntryIds(m)[k], stored at position k of row r, is sent to a kept entry
      of row r holding the same column.  Edge ids must name every edge once. */
  lemma ToSimpleEdgeMap(m: CSRMatrix)
    requires Valid(m)
    requires m.data.Some? ==> IsPermutation(m.data.value, NNZ(m))
    ensures var s := ToSimple(m);
            && |s.edgeMap| == NNZ(m)
            && forall k :: 0 <= k < NNZ(m) ==>
                 && 0 <= EntryIds(m)[k] < NNZ(m)
                 && 0 <= s.edgeMap[EntryIds(m)[k]] < |s.matrix.indices|
                 && s.matrix.indices[s.edgeMap[EntryIds(m)[k]]] == m.indices[k]
                 && forall r :: 0 <= r < m.numRows && m.indptr[r] <= k < m.indptr[r + 1] ==>
                      s.matrix.indptr[r] <= s.edgeMap[EntryIds(m)[k]] < s.matrix.indptr[r + 1]
  {
    EdgeMapById(m);
    forall k | 0 <= k < NNZ(m)
      ensures && 0 <= ToSimple(m).edgeMap[EntryIds(m)[k]] < |ToSimple(m).matrix.indices|
              && ToSimple(m).matrix.indices[ToSimple(m).edgeMap[EntryIds(m)[k]]] == m.indices[k]
              && forall r :: 0 <= r < m.numRows && m.indptr[r] <= k < m.indptr[r + 1] ==>
                   ToSimple(m).matrix.indptr[r] <= ToSimple(m).edgeMap[EntryIds(m)[k]] < ToSimple(m).matrix.indptr[r + 1]
    {
      EdgeMapAt(m, k);
    }
  }

  /** The edge stored at position k lands on a kept entry of its own row with its own column. */
  lemma EdgeMapAt(m: CSRMatrix, k: int)
    requires Valid(m) && 0 <= k < NNZ(m)
    requires m.data.Some? ==> IsPermutation(m.data.value, NNZ(m))
    ensures var s := ToSimple(m);
            && 0 <= EntryIds(m)[k] < |s.edgeMap|
            && 0 <= s.edgeMap[EntryIds(m)[k]] < |s.matrix.indices|
            && s.matrix.indices[s.edgeMap[EntryIds(m)[k]]] == m.indices[k]
            && forall r :: 0 <= r < m.numRows && m.indptr[r] <= k < m.indptr[r + 1] ==>
                 s.matrix.indptr[r] <= s.edgeMap[EntryIds(m)[k]] < s.matrix.indptr[r + 1]
  {
    var u := UniqueRows(m);
    var t := Flatten(Targets(ColRows(m), u));
    assert 0 <= EntryIds(m)[k] < |ToSimple(m).edgeMap| && k < |t| && ToSimple(m).edgeMap[EntryIds(m)[k]] == t[k] by {
      EdgeMapById(m);
    }
    PositionTarget(m, k);
  }

  /** The simplified matrix is the distinct values of each row, without ids. */
  lemma ToSimpleShape(m: CSRMatrix)
    requires Valid(m)
    ensures ToSimple(m).matrix.indices == Flatten(UniqueRows(m))
    ensures ToSimple(m).matrix.indptr == Offsets(UniqueRows(m))
  {
  }

  /** Storage position k is merged into a slot of its own row holding its own column. */
  lemma PositionTarget(m: CSRMatrix, k: int)
    requires Valid(m) && 0 <= k < NNZ(m)
    ensures var u := UniqueRows(m);
            var t := Flatten(Targets(ColRows(m), u));
            && k < |t| && 0 <= t[k] < |ToSimple(m).matrix.indices|
            && ToSimple(m).matrix.indices[t[k]] == m.indices[k]
            && forall r :: 0 <= r < m.numRows && m.indptr[r] <= k < m.indptr[r + 1] ==>
                 ToSimple(m).matrix.indptr[r] <= t[k] < ToSimple(m).matrix.indptr[r + 1]
  {
    var rows, u := ColRows(m), UniqueRows(m);
    var t := Flatten(Targets(rows, u));
    var s := ToSimple(m).matrix;
    ToSimpleShape(m);
    assert Covers(rows, u) && Flatten(rows) == m.indices && Offsets(rows) == m.indptr by {
      UniqueRowsCover(m);
      ColRowsFlatten(m);
    }
    assert |rows| == m.numRows;
    TargetOfPosition(rows, u, k);
    assert k < |t| && 0 <= t[k] < |s.indices| && s.indices[t[k]] == m.indices[k];
    forall r | 0 <= r < m.numRows && m.indptr[r] <= k < m.indptr[r + 1]
      ensures s.indptr[r] <= t[k] < s.indptr[r + 1]
    {
      assert Offsets(rows)[r] <= k < Offsets(rows)[r + 1];
    }
  }

  /** The edge map holds, at each edge's id, the slot its storage position
      was merged into. */
  lemma EdgeMapById(m: CSRMatrix)
    requires Valid(m)
    requires m.data.Some? ==> IsPermutation(m.data.value, NNZ(m))
    ensures |ToSimple(m).edgeMap| == NNZ(m)
    ensures forall k :: 0 <= k < NNZ(m) ==>
              && 0 <= EntryIds(m)[k] < NNZ(m)
              && k < |Flatten(Targets(ColRows(m), UniqueRows(m)))|
              && ToSimple(m).edgeMap[EntryIds(m)[k]] == Flatten(Targets(ColRows(m), UniqueRows(m)))[k]
  {
    var t := Flatten(Targets(ColRows(m), UniqueRows(m)));
    UniqueRowsCover(m);
    ColRowsFlatten(m);
    assert |t| == NNZ(m) by {
      TargetsSpec(ColRows(m), UniqueRows(m));
    }
    if m.data.Some? {
      ByIdAt(m.data.value, t);
    }
  }

  /** The edge map lists every kept slot as often as that slot's count:
      `cnt[p]` original edges were merged into kept entry p. */
  lemma CountsMatchTargets(rows: seq<seq<int>>, u: seq<seq<int>>, p: int)
    requires Covers(rows, u) && 0 <= p < |Flatten(u)|
    ensures |Flatten(Counts(rows, u))| == |Flatten(u)|
    ensures multiset(Flatten(Targets(rows, u)))[p] == Flatten(Counts(rows, u))[p]
  {
    var t, f := Flatten(Targets(rows, u)), Flatten(rows);
    var r := OffsetRow(u, p);
    var lo, hi := Offsets(rows)[r], Offsets(rows)[r + 1];
    var v := Flatten(u)[p];
    TargetsSpec(rows, u);
    FlattenSlice(rows, r);
    forall k | 0 <= k < |t| ensures t[k] == p <==> lo <= k < hi && f[k] == v {
      var q := OffsetRow(rows, k);
      var q' := OffsetRow(u, t[k]);
      assert q' == q;
      if lo <= k < hi && f[k] == v {
        assert q == r;
        var i, j := t[k] - Offsets(u)[r], p - Offsets(u)[r];
        SlotInRow(u, r, 0);
        FlattenAt(u, r, i);
        FlattenAt(u, r, j);
      }
    }
    CountInRange(t, f, p, v, lo, hi);
    CountAt(rows, u, p);
  }

  /** CSRToSimple's two side arrays agree: kept entry p receives exactly
      `count[p]` original edges, so every kept entry is hit (the largest
      edge-map value is the simplified nnz minus one). */
  lemma ToSimpleCountMatchesMap(m: CSRMatrix)
    requires Valid(m)
    requires m.data.Some? ==> IsPermutation(m.data.value, NNZ(m))
    ensures var s := ToSimple(m);
            && |s.count| == NNZ(s.matrix)
            && forall p :: 0 <= p < |s.count| ==> multiset(s.edgeMap)[p] == s.count[p] >= 1
  {
    var u := UniqueRows(m);
    UniqueRowsCover(m);
    ColRowsFlatten(m);
    CountsSpec(ColRows(m), u);
    var t := Flatten(Targets(ColRows(m), u));
    TargetsSpec(ColRows(m), u);
    if m.data.Some? {
      ByIdAt(m.data.value, t);
    }
    forall p | 0 <= p < |Flatten(u)| ensures multiset(t)[p] == Flatten(Counts(ColRows(m), u))[p] {
      CountsMatchTargets(ColRows(m), u, p);
    }
  }

  // ------------------------------------------------------ documented example

  /** The multigraph of the CSRToSimple documentation: row 1 holds column 0
      three times and column 2 twice, row 2 columns 0 and 1, row 3 column 2
      four times; entries are stored in column order. */
  function SimpleDocExample(): (m: CSRMatrix)
    ensures Valid(m)
  {
    CSRMatrix(4, 3, [0, 0, 5, 7, 11], [0, 0, 0, 2, 2, 0, 1, 2, 2, 2, 2], None, false)
  }

  /** The columns of row r are the stored columns between its row pointers. */
  lemma RowColsStored(m: CSRMatrix, r: int)
    requires Valid(m) && 0 <= r < m.numRows
    ensures RowCols(m, r) == m.indices[m.indptr[r]..m.indptr[r + 1]]
  {
    forall j | 0 <= j < |RowCols(m, r)| ensures RowCols(m, r)[j] == m.indices[m.indptr[r] + j] {
      RowItemAt(m, r, j);
    }
  }

  lemma SimpleDocRowCols()
    ensures RowCols(SimpleDocExample(), 0) == []
    ensures RowCols(SimpleDocExample(), 1) == [0, 0, 0, 2, 2]
    ensures RowCols(SimpleDocExample(), 2) == [0, 1]
    ensures RowCols(SimpleDocExample(), 3) == [2, 2, 2, 2]
  {
    var m := SimpleDocExample();
    RowColsStored(m, 0);
    RowColsStored(m, 1);
    RowColsStored(m, 2);
    RowColsStored(m, 3);
  }

  lemma SimpleDocColumns()
    ensures ColRows(SimpleDocExample()) == [[], [0, 0, 0, 2, 2], [0, 1], [2, 2, 2, 2]]
  {
    var m := SimpleDocExample();
    SimpleDocRowCols();
    var cr := ColRows(m);
    assert cr[0] == [] && cr[1] == [0, 0, 0, 2, 2] && cr[2] == [0, 1] && cr[3] == [2, 2, 2, 2];
  }

  /** A row whose columns are already ascending keeps them through the sort. */
  lemma UniqueColsOfSorted(m: CSRMatrix, r: int)
    requires Valid(m) && 0 <= r < m.numRows && NonDecreasing(RowCols(m, r))
    ensures UniqueCols(m, r) == Dedup(RowCols(m, r))
  {
    SortedByColCols(RowItems(m, r));
    SortItemsFixesSorted(RowItems(m, r));
  }

  lemma SimpleDocDedup()
    ensures Dedup([]) == [] && Dedup([0, 1]) == [0, 1] && Dedup([2, 2, 2, 2]) == [2]
    ensures Dedup([0, 0, 0, 2, 2]) == [0, 2]
  {
    assert [0, 1][..1] == [0];
    assert Dedup([0]) == [0];
    assert [0, 0][..1] == [0];
    assert Dedup([0, 0]) == [0];
    assert [0, 0, 0][..2] == [0, 0];
    assert Dedup([0, 0, 0]) == [0];
    assert [0, 0, 0, 2][..3] == [0, 0, 0];
    assert Dedup([0, 0, 0, 2]) == [0, 2];
    assert [0, 0, 0, 2, 2][..4] == [0, 0, 0, 2];
    assert [2, 2][..1] == [2];
    assert Dedup([2]) == [2];
    assert Dedup([2, 2]) == [2];
    assert [2, 2, 2][..2] == [2, 2];
    assert Dedup([2, 2, 2]) == [2];
    assert [2, 2, 2, 2][..3] == [2, 2, 2];
  }

  lemma SimpleDocUniqueRows()
    ensures UniqueCols(SimpleDocExample(), 0) == []
    ensures UniqueCols(SimpleDocExample(), 1) == [0, 2]
    ensures UniqueCols(SimpleDocExample(), 2) == [0, 1]
    ensures UniqueCols(SimpleDocExample(), 3) == [2]
  {
    var m := SimpleDocExample();
    SimpleDocRowCols();
    SimpleDocDedup();
    UniqueColsOf(m, 0, []);
    UniqueColsOf(m, 1, [0, 0, 0, 2, 2]);
    UniqueColsOf(m, 2, [0, 1]);
    UniqueColsOf(m, 3, [2, 2, 2, 2]);
  }

  lemma UniqueColsOf(m: CSRMatrix, r: int, cols: seq<int>)
    requires Valid(m) && 0 <= r < m.numRows && RowCols(m, r) == cols
    requires forall i :: 0 <= i < |cols| - 1 ==> cols[i] <= cols[i + 1]
    ensures UniqueCols(m, r) == Dedup(cols)
  {
    CsrQuery.AdjacentSortedIsSorted(cols);
    UniqueColsOfSorted(m, r);
  }

  /** The distinct columns of a four-row matrix, row by row. */
  lemma UniqueRowsOfFour(m: CSRMatrix, a: seq<int>, b: seq<int>, c: seq<int>, d: seq<int>)
    requires Valid(m) && m.numRows == 4
    requires UniqueCols(m, 0) == a && UniqueCols(m, 1) == b
    requires UniqueCols(m, 2) == c && UniqueCols(m, 3) == d
    ensures UniqueRows(m) == [a, b, c, d]
  {
    var u := UniqueRows(m);
    assert u[0] == a && u[1] == b && u[2] == c && u[3] == d;
  }

  lemma SimpleDocUnique()
    ensures UniqueRows(SimpleDocExample()) == [[], [0, 2], [0, 1], [2]]
  {
    SimpleDocUniqueRows();
    UniqueRowsOfFour(SimpleDocExample(), [], [0, 2], [0, 1], [2]);
  }

  lemma SimpleDocCounts()
    ensures Counts([[], [0, 0, 0, 2, 2], [0, 1], [2, 2, 2, 2]], [[], [0, 2], [0, 1], [2]])
         == [[], [3, 2], [1, 1], [4]]
  {
    var rows: seq<seq<int>> := [[], [0, 0, 0, 2, 2], [0, 1], [2, 2, 2, 2]];
    var u: seq<seq<int>> := [[], [0, 2], [0, 1], [2]];
    var cs := Counts(rows, u);
    assert multiset([0, 0, 0, 2, 2]) == multiset{0, 0, 0, 2, 2};
    assert multiset([2, 2, 2, 2]) == multiset{2, 2, 2, 2};
    assert Count(rows[1], u[1]) == [3, 2];
    assert Count(rows[2], u[2]) == [1, 1];
    assert Count(rows[3], u[3]) == [4];
    assert cs[0] == [] && cs[1] == [3, 2] && cs[2] == [1, 1] && cs[3] == [4];
  }

  lemma SimpleDocTargets()
    ensures Targets([[], [0, 0, 0, 2, 2], [0, 1], [2, 2, 2, 2]], [[], [0, 2], [0, 1], [2]])
         == [[], [0, 0, 0, 1, 1], [2, 3], [4, 4, 4, 4]]
  {
    var rows: seq<seq<int>> := [[], [0, 0, 0, 2, 2], [0, 1], [2, 2, 2, 2]];
    var u: seq<seq<int>> := [[], [0, 2], [0, 1], [2]];
    FlattenFour(u[0], u[1], u[2], u[3]);
    assert Offsets(u) == [0, 0, 2, 4, 5];
    assert IndexOf([0, 2], 0) == 0 && IndexOf([0, 2], 2) == 1;
    assert IndexOf([0, 1], 0) == 0 && IndexOf([0, 1], 1) == 1;
    assert IndexOf([2], 2) == 0;
    var ts := Targets(rows, u);
    assert ts[0] == [] && ts[1] == [0, 0, 0, 1, 1] && ts[2] == [2, 3] && ts[3] == [4, 4, 4, 4];
  }

  /** The documented CSRToSimple example: the simple matrix keeps columns
      [0, 2], [0, 1] and [2] of rows 1..3, cnt = [3, 2, 1, 1, 4] and
      edge_map = [0, 0, 0, 1, 1, 2, 3, 4, 4, 4, 4]. */
  lemma ToSimpleExample()
    ensures ToSimple(SimpleDocExample())
         == Simplified(CSRMatrix(4, 3, [0, 0, 2, 4, 5], [0, 2, 0, 1, 2], None, true),
                       [3, 2, 1, 1, 4], [0, 0, 0, 1, 1, 2, 3, 4, 4, 4, 4])
  {
    SimpleDocColumns();
    SimpleDocUnique();
    SimpleDocCounts();
    SimpleDocTargets();
    SimpleDocFlatten();
  }

  lemma SimpleDocFlatten()
    ensures Flatten<int>([[], [0, 2], [0, 1], [2]]) == [0, 2, 0, 1, 2]
    ensures Offsets<int>([[], [0, 2], [0, 1], [2]]) == [0, 0, 2, 4, 5]
    ensures Flatten<int>([[], [3, 2], [1, 1], [4]]) == [3, 2, 1, 1, 4]
    ensures Flatten<int>([[], [0, 0, 0, 1, 1], [2, 3], [4, 4, 4, 4]]) == [0, 0, 0, 1, 1, 2, 3, 4, 4, 4, 4]
  {
    FlattenFour<int>([], [0, 2], [0, 1], [2]);
    FlattenFour<int>([], [3, 2], [1, 1], [4]);
    FlattenFour<int>([], [0, 0, 0, 1, 1], [2, 3], [4, 4, 4, 4]);
  }
}
