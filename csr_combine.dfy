/** Combining matrices (include/dgl/aten/csr.h): UnionCsr and
    DisjointUnionCsr. */
module CsrCombine {
  import opened Seqs
  import opened CsrMatrix
  import CsrSort
  import CsrQuery

  predicate AllValid(ms: seq<CSRMatrix>)
  {
    forall i :: 0 <= i < |ms| ==> Valid(ms[i])
  }

  function NNZs(ms: seq<CSRMatrix>): (r: seq<int>)
    ensures |r| == |ms|
  {
    seq(|ms|, i requires 0 <= i < |ms| => NNZ(ms[i]))
  }

  function RowCounts(ms: seq<CSRMatrix>): (r: seq<int>)
    ensures |r| == |ms|
  {
    seq(|ms|, i requires 0 <= i < |ms| => ms[i].numRows)
  }

  function ColCounts(ms: seq<CSRMatrix>): (r: seq<int>)
    ensures |r| == |ms|
  {
    seq(|ms|, i requires 0 <= i < |ms| => ms[i].numCols)
  }

  /** Entry-id offset of every input: the entries of earlier inputs come first. */
  function EdgeOffsets(ms: seq<CSRMatrix>): (r: seq<int>)
    ensures |r| == |ms| + 1 && r[0] == 0
  {
    CumsumShape(NNZs(ms));
    Cumsum(NNZs(ms))
  }

  predicate AllSorted(ms: seq<CSRMatrix>)
  {
    forall i :: 0 <= i < |ms| ==> ms[i].sorted
  }

  /** Moves every entry by `dc` columns and renumbers it by `de`. */
  function ShiftItems(s: seq<Item>, dc: int, de: int): (r: seq<Item>)
    ensures |r| == |s|
    ensures forall i :: 0 <= i < |s| ==> r[i] == Item(s[i].col + dc, s[i].eid + de)
  {
    seq(|s|, i requires 0 <= i < |s| => Item(s[i].col + dc, s[i].eid + de))
  }

  lemma {:induction false} ShiftCount(s: seq<Item>, dc: int, de: int, x: Item)
    ensures multiset(ShiftItems(s, dc, de))[x] == multiset(s)[Item(x.col - dc, x.eid - de)]
    decreases |s|
  {
    if s != [] {
      var n := |s| - 1;
      var y := Item(s[n].col + dc, s[n].eid + de);
      var x' := Item(x.col - dc, x.eid - de);
      var a, b := ShiftItems(s[..n], dc, de), s[..n];
      assert multiset(a)[x] == multiset(b)[x'] by {
        ShiftCount(s[..n], dc, de, x);
      }
      assert ShiftItems(s, dc, de) == a + [y] && s == b + [s[n]] by {
        ShiftItemsSnoc(s, dc, de);
      }
      CountSnoc(a, b, y, s[n], x, x');
    }
  }

  /** Appending one entry to each of two runs with matching counts keeps the
      counts matching when the two new entries are counted alike. */
  lemma CountSnoc(a: seq<Item>, b: seq<Item>, y: Item, z: Item, x: Item, x': Item)
    requires multiset(a)[x] == multiset(b)[x'] && (y == x <==> z == x')
    ensures multiset(a + [y])[x] == multiset(b + [z])[x']
  {
    assert multiset(a + [y]) == multiset(a) + multiset{y};
    assert multiset(b + [z]) == multiset(b) + multiset{z};
  }

  lemma ShiftItemsSnoc(s: seq<Item>, dc: int, de: int)
    requires s != []
    ensures s == s[..|s| - 1] + [s[|s| - 1]]
    ensures ShiftItems(s, dc, de)
         == ShiftItems(s[..|s| - 1], dc, de) + [Item(s[|s| - 1].col + dc, s[|s| - 1].eid + de)]
  {
    assert s == s[..|s| - 1] + [s[|s| - 1]];
  }

  lemma ShiftCols(s: seq<Item>, de: int)
    ensures ColsOf(ShiftItems(s, 0, de)) == ColsOf(s)
  {
  }

  // --------------------------------------------------------------- UnionCsr

  /** How often the entry x is stored in row r. */
  function Occurrences(m: CSRMatrix, r: int, x: Item): nat
    requires Valid(m) && 0 <= r < m.numRows
  {
    multiset(RowItems(m, r))[x]
  }

  predicate SameShape(ms: seq<CSRMatrix>)
    requires |ms| > 0
  {
    forall i :: 0 <= i < |ms| ==> ms[i].numRows == ms[0].numRows && ms[i].numCols == ms[0].numCols
  }

  /** Row r of every input, with the entry ids of input i moved past those
      of inputs 0..i-1, one input after the other. */
  function UnionPieces(ms: seq<CSRMatrix>, r: int): (ps: seq<seq<Item>>)
    requires AllValid(ms) && |ms| > 0 && SameShape(ms) && 0 <= r < ms[0].numRows
    ensures |ps| == |ms|
  {
    var off := EdgeOffsets(ms);
    seq(|ms|, i requires 0 <= i < |ms| => ShiftItems(RowItems(ms[i], r), 0, off[i]))
  }

  /** Row r of the union: the rows of all inputs, merged by column when every
      input is flagged sorted and concatenated otherwise. */
  function UnionRow(ms: seq<CSRMatrix>, r: int): seq<Item>
    requires AllValid(ms) && |ms| > 0 && SameShape(ms) && 0 <= r < ms[0].numRows
  {
    var cat := Flatten(UnionPieces(ms, r));
    if AllSorted(ms) then CsrSort.SortItems(cat) else cat
  }

  /** UnionCsr: the matrices added together as multigraphs; every entry of
      every input is kept.  The inputs must be non-empty and share a shape. */
  function UnionCsr(ms: seq<CSRMatrix>): (r: Result<CSRMatrix>)
    requires AllValid(ms)
    ensures r.Success? <==> |ms| > 0 && SameShape(ms)
    ensures |ms| == 0 ==> r == Failure(EmptyInput)
    ensures |ms| > 0 && !SameShape(ms) ==> r == Failure(ShapeMismatch)
    ensures r.Success? ==> r.value.numRows == ms[0].numRows && r.value.numCols == ms[0].numCols
  {
    if |ms| == 0 then Failure(EmptyInput)
    else if !SameShape(ms) then Failure(ShapeMismatch)
    else
      var rows := seq(ms[0].numRows, r requires 0 <= r < ms[0].numRows => UnionRow(ms, r));
      Success(Build(ms[0].numCols, rows, AllSorted(ms)))
  }

  lemma UnionRowBelow(ms: seq<CSRMatrix>, r: int)
    requires AllValid(ms) && |ms| > 0 && SameShape(ms) && 0 <= r < ms[0].numRows
    ensures forall k :: 0 <= k < |UnionRow(ms, r)| ==> 0 <= UnionRow(ms, r)[k].col < ms[0].numCols
  {
    var ps: seq<seq<Item>> := UnionPieces(ms, r);
    forall i: int, j: int | 0 <= i < |ps| && 0 <= j < |ps[i]| ensures 0 <= ps[i][j].col < ms[0].numCols {
      RowItemAt(ms[i], r, j);
    }
    FlattenColsBelow(ps, ms[0].numCols);
    var cat := Flatten(ps);
    var row := UnionRow(ms, r);
    forall k | 0 <= k < |row| ensures 0 <= row[k].col < ms[0].numCols {
      var x := row[k];
      assert x in multiset(row);
      assert x in multiset(cat);
    }
  }

  /** The union is a valid matrix of the common shape whose row r is
      UnionRow(ms, r); it is flagged sorted exactly when every input is, and
      then its rows are sorted. */
  lemma UnionSpec(ms: seq<CSRMatrix>)
    requires AllValid(ms) && |ms| > 0 && SameShape(ms)
    ensures var u := UnionCsr(ms).value;
      && Valid(u)
      && (forall r :: 0 <= r < u.numRows ==> RowItems(u, r) == UnionRow(ms, r))
      && u.sorted == AllSorted(ms)
      && HintHolds(u)
  {
    var u := UnionCsr(ms).value;
    var rows: seq<seq<Item>> := seq(ms[0].numRows, r requires 0 <= r < ms[0].numRows => UnionRow(ms, r));
    forall r: int, k: int | 0 <= r < |rows| && 0 <= k < |rows[r]| ensures 0 <= rows[r][k].col < ms[0].numCols {
      UnionRowBelow(ms, r);
    }
    BuildRows(ms[0].numCols, rows, AllSorted(ms));
    assert u == Build(ms[0].numCols, rows, AllSorted(ms));
    forall r | 0 <= r < u.numRows ensures RowItems(u, r) == UnionRow(ms, r) {
      assert RowItems(u, r) == Rows(u)[r];
    }
    if u.sorted {
      forall r | 0 <= r < u.numRows ensures NonDecreasing(RowCols(u, r)) {
        assert RowItems(u, r) == Rows(u)[r];
        CsrSort.SortItemsSorted(Flatten(UnionPieces(ms, r)));
        CsrSort.SortedByColCols(UnionRow(ms, r));
      }
    }
  }

  /** Every column occurs in row r of the union as often as in row r of all
      inputs together: the union adds the matrices entry by entry. */
  lemma UnionColumnCount(ms: seq<CSRMatrix>, r: int, c: int)
    requires AllValid(ms) && |ms| > 0 && SameShape(ms) && 0 <= r < ms[0].numRows
    ensures var u := UnionCsr(ms).value;
      && Valid(u)
      && multiset(RowCols(u, r))[c] == Sum(seq(|ms|, i requires 0 <= i < |ms| => multiset(RowCols(ms[i], r))[c]))
  {
    UnionSpec(ms);
    UnionRowColumnCount(ms, r, c);
  }

  lemma UnionRowColumnCount(ms: seq<CSRMatrix>, r: int, c: int)
    requires AllValid(ms) && |ms| > 0 && SameShape(ms) && 0 <= r < ms[0].numRows
    ensures multiset(ColsOf(UnionRow(ms, r)))[c] == Sum(seq(|ms|, i requires 0 <= i < |ms| => multiset(RowCols(ms[i], r))[c]))
  {
    var ps := UnionPieces(ms, r);
    var cat := Flatten(ps);
    if AllSorted(ms) {
      CsrSort.SortItemsCols(cat);
    }
    assert multiset(ColsOf(UnionRow(ms, r))) == multiset(ColsOf(cat));
    ColsOfFlatten(ps);
    var cps := seq(|ps|, i requires 0 <= i < |ps| => ColsOf(ps[i]));
    FlattenCount(cps, c);
    var lhs := seq(|cps|, i requires 0 <= i < |cps| => multiset(cps[i])[c]);
    var rhs := seq(|ms|, i requires 0 <= i < |ms| => multiset(RowCols(ms[i], r))[c]);
    forall i | 0 <= i < |ms| ensures lhs[i] == rhs[i] {
      assert ps[i] == ShiftItems(RowItems(ms[i], r), 0, EdgeOffsets(ms)[i]);
      ShiftCols(RowItems(ms[i], r), EdgeOffsets(ms)[i]);
    }
    assert lhs == rhs;
  }

  /** Every entry of row r of the union is an entry of row r of some input
      i, renumbered past the entries of inputs 0..i-1, with multiplicity. */
  lemma UnionItemCount(ms: seq<CSRMatrix>, r: int, x: Item)
    requires AllValid(ms) && |ms| > 0 && SameShape(ms) && 0 <= r < ms[0].numRows
    ensures var u := UnionCsr(ms).value;
      var off := EdgeOffsets(ms);
      && Valid(u)
      && multiset(RowItems(u, r))[x] ==
         Sum(seq(|ms|, i requires 0 <= i < |ms| => Occurrences(ms[i], r, Item(x.col, x.eid - off[i]))))
  {
    UnionSpec(ms);
    UnionRowItemCount(ms, r, x);
  }

  lemma UnionRowItemCount(ms: seq<CSRMatrix>, r: int, x: Item)
    requires AllValid(ms) && |ms| > 0 && SameShape(ms) && 0 <= r < ms[0].numRows
    ensures var off := EdgeOffsets(ms);
      multiset(UnionRow(ms, r))[x] ==
         Sum(seq(|ms|, i requires 0 <= i < |ms| => Occurrences(ms[i], r, Item(x.col, x.eid - off[i]))))
  {
    var ps := UnionPieces(ms, r);
    assert multiset(UnionRow(ms, r)) == multiset(Flatten(ps));
    FlattenCount(ps, x);
    PieceCounts(ms, r, x);
  }

  lemma PieceCounts(ms: seq<CSRMatrix>, r: int, x: Item)
    requires AllValid(ms) && |ms| > 0 && SameShape(ms) && 0 <= r < ms[0].numRows
    ensures var ps := UnionPieces(ms, r);
      var off := EdgeOffsets(ms);
      seq(|ps|, i requires 0 <= i < |ps| => multiset(ps[i])[x])
      == seq(|ms|, i requires 0 <= i < |ms| => Occurrences(ms[i], r, Item(x.col, x.eid - off[i])))
  {
    var ps := UnionPieces(ms, r);
    var off := EdgeOffsets(ms);
    var lhs := seq(|ps|, i requires 0 <= i < |ps| => multiset(ps[i])[x]);
    var rhs := seq(|ms|, i requires 0 <= i < |ms| => Occurrences(ms[i], r, Item(x.col, x.eid - off[i])));
    forall i | 0 <= i < |ms| ensures lhs[i] == rhs[i] {
      PieceCount(ms, r, x, i);
    }
  }

  lemma PieceCount(ms: seq<CSRMatrix>, r: int, x: Item, i: int)
    requires AllValid(ms) && |ms| > 0 && SameShape(ms) && 0 <= r < ms[0].numRows && 0 <= i < |ms|
    ensures multiset(UnionPieces(ms, r)[i])[x] == Occurrences(ms[i], r, Item(x.col, x.eid - EdgeOffsets(ms)[i]))
  {
    var ri := RowItems(ms[i], r);
    var d := EdgeOffsets(ms)[i];
    assert UnionPieces(ms, r)[i] == ShiftItems(ri, 0, d);
    ShiftCount(ri, 0, d, x);
    assert Item(x.col, x.eid - d) == Item(x.col - 0, x.eid - d);
  }

  // -------------------------------------------------------- DisjointUnionCsr

  /** Row offset of every input: the rows of earlier inputs come first. */
  function RowOffsets(ms: seq<CSRMatrix>): (r: seq<int>)
    requires AllValid(ms)
    ensures |r| == |ms| + 1 && r[0] == 0
  {
    CumsumShape(RowCounts(ms));
    Cumsum(RowCounts(ms))
  }

  /** Column offset of every input: the columns of earlier inputs come first. */
  function ColOffsets(ms: seq<CSRMatrix>): (r: seq<int>)
    requires AllValid(ms)
    ensures |r| == |ms| + 1 && r[0] == 0
  {
    CumsumShape(ColCounts(ms));
    Cumsum(ColCounts(ms))
  }

  /** Consecutive offsets differ by the extent of one input, and every
      offset lies between the first and the last. */
  lemma OffsetSteps(ms: seq<CSRMatrix>, i: int)
    requires AllValid(ms) && 0 <= i < |ms|
    ensures RowOffsets(ms)[i + 1] == RowOffsets(ms)[i] + ms[i].numRows
    ensures ColOffsets(ms)[i + 1] == ColOffsets(ms)[i] + ms[i].numCols
    ensures EdgeOffsets(ms)[i + 1] == EdgeOffsets(ms)[i] + NNZ(ms[i])
    ensures 0 <= RowOffsets(ms)[i] && RowOffsets(ms)[i + 1] <= RowOffsets(ms)[|ms|]
    ensures 0 <= ColOffsets(ms)[i] && ColOffsets(ms)[i + 1] <= ColOffsets(ms)[|ms|]
    ensures 0 <= EdgeOffsets(ms)[i] && EdgeOffsets(ms)[i + 1] <= EdgeOffsets(ms)[|ms|]
  {
    OffsetsMonotone(ms);
    CumsumStep(RowCounts(ms), i);
    CumsumStep(ColCounts(ms), i);
    CumsumStep(NNZs(ms), i);
  }

  lemma OffsetsMonotone(ms: seq<CSRMatrix>)
    requires AllValid(ms)
    ensures NonDecreasing(RowOffsets(ms))
    ensures NonDecreasing(ColOffsets(ms))
    ensures NonDecreasing(EdgeOffsets(ms))
  {
    CumsumShape(RowCounts(ms));
    CumsumShape(ColCounts(ms));
    CumsumShape(NNZs(ms));
  }

  predicate AnyData(ms: seq<CSRMatrix>)
  {
    exists i :: 0 <= i < |ms| && ms[i].data.Some?
  }

  /** The row pointers of every input after the first entry, moved past the
      entries of the earlier inputs. */
  function IndptrPieces(ms: seq<CSRMatrix>): (ps: seq<seq<int>>)
    requires AllValid(ms)
    ensures |ps| == |ms|
  {
    var eo := EdgeOffsets(ms);
    seq(|ms|, i requires 0 <= i < |ms| => AddAll(ms[i].indptr[1..], eo[i]))
  }

  /** The columns of every input, moved right past the earlier inputs. */
  function IndicesPieces(ms: seq<CSRMatrix>): (ps: seq<seq<int>>)
    requires AllValid(ms)
    ensures |ps| == |ms|
  {
    var co := ColOffsets(ms);
    seq(|ms|, i requires 0 <= i < |ms| => AddAll(ms[i].indices, co[i]))
  }

  /** The entry ids of every input, moved past the earlier inputs' entries. */
  function IdPieces(ms: seq<CSRMatrix>): (ps: seq<seq<int>>)
    requires AllValid(ms)
    ensures |ps| == |ms|
  {
    var eo := EdgeOffsets(ms);
    seq(|ms|, i requires 0 <= i < |ms| => AddAll(EntryIds(ms[i]), eo[i]))
  }

  lemma IndptrPiecesOffsets(ms: seq<CSRMatrix>)
    requires AllValid(ms)
    ensures Offsets(IndptrPieces(ms)) == RowOffsets(ms)
  {
    OffsetsCumsum(IndptrPieces(ms), RowCounts(ms));
  }

  lemma IndicesPiecesOffsets(ms: seq<CSRMatrix>)
    requires AllValid(ms)
    ensures Offsets(IndicesPieces(ms)) == EdgeOffsets(ms)
  {
    OffsetsCumsum(IndicesPieces(ms), NNZs(ms));
  }

  lemma IdPiecesOffsets(ms: seq<CSRMatrix>)
    requires AllValid(ms)
    ensures Offsets(IdPieces(ms)) == EdgeOffsets(ms)
  {
    OffsetsCumsum(IdPieces(ms), NNZs(ms));
  }

  /** The row pointer of the union: a leading 0, then every input's row
      pointers after their first entry, moved past the earlier entries. */
  function UnionIndptr(ms: seq<CSRMatrix>): (p: seq<int>)
    requires AllValid(ms)
    ensures |p| == RowOffsets(ms)[|ms|] + 1
  {
    IndptrPiecesOffsets(ms);
    OffsetsShape(IndptrPieces(ms));
    [0] + Flatten(IndptrPieces(ms))
  }

  function UnionIndices(ms: seq<CSRMatrix>): (c: seq<int>)
    requires AllValid(ms)
    ensures |c| == EdgeOffsets(ms)[|ms|]
  {
    IndicesPiecesOffsets(ms);
    OffsetsShape(IndicesPieces(ms));
    Flatten(IndicesPieces(ms))
  }

  function UnionIds(ms: seq<CSRMatrix>): (e: seq<int>)
    requires AllValid(ms)
    ensures |e| == EdgeOffsets(ms)[|ms|]
  {
    IdPiecesOffsets(ms);
    OffsetsShape(IdPieces(ms));
    Flatten(IdPieces(ms))
  }

  /** The block-diagonal matrix with the inputs on the diagonal.  Input i
      is moved down past the rows, right past the columns and its entry ids
      past the entries of inputs 0..i-1.  The result has a data array when
      some input has one, and is flagged sorted when every input is. */
  function DisjointUnion(ms: seq<CSRMatrix>): (d: CSRMatrix)
    requires AllValid(ms)
    ensures Valid(d)
  {
    var n := |ms|;
    UnionArraysValid(ms);
    CSRMatrix(RowOffsets(ms)[n], ColOffsets(ms)[n], UnionIndptr(ms), UnionIndices(ms),
              if AnyData(ms) then Some(UnionIds(ms)) else None,
              AllSorted(ms))
  }

  /** DisjointUnionCsr(csrs): an empty list is refused. */
  function DisjointUnionCsr(ms: seq<CSRMatrix>): (r: Result<CSRMatrix>)
    requires AllValid(ms)
    ensures r.Success? <==> |ms| > 0
    ensures r.Failure? ==> r.error == EmptyInput
    ensures r.Success? ==> r.value == DisjointUnion(ms)
  {
    if |ms| == 0 then Failure(EmptyInput) else Success(DisjointUnion(ms))
  }

  lemma IndptrPieceAt(ms: seq<CSRMatrix>, i: int, k: int)
    requires AllValid(ms) && 0 <= i < |ms| && 0 <= k < ms[i].numRows
    ensures |IndptrPieces(ms)[i]| == ms[i].numRows
    ensures IndptrPieces(ms)[i][k] == ms[i].indptr[k + 1] + EdgeOffsets(ms)[i]
  {
    var tail := ms[i].indptr[1..];
    assert IndptrPieces(ms)[i] == AddAll(tail, EdgeOffsets(ms)[i]);
    assert tail[k] == ms[i].indptr[k + 1];
  }

  /** Row pointer of the union at row r > 0 of block i. */
  lemma UnionIndptrInside(ms: seq<CSRMatrix>, i: int, r: int)
    requires AllValid(ms) && 0 <= i < |ms| && 1 <= r <= ms[i].numRows
    ensures 0 <= RowOffsets(ms)[i] + r < |UnionIndptr(ms)|
    ensures UnionIndptr(ms)[RowOffsets(ms)[i] + r] == EdgeOffsets(ms)[i] + ms[i].indptr[r]
  {
    IndptrPieceAt(ms, i, r - 1);
    UnionIndptrPiece(ms, i, r);
  }

  lemma UnionIndptrPiece(ms: seq<CSRMatrix>, i: int, r: int)
    requires AllValid(ms) && 0 <= i < |ms| && 1 <= r <= |IndptrPieces(ms)[i]|
    ensures 0 <= RowOffsets(ms)[i] + r < |UnionIndptr(ms)|
    ensures UnionIndptr(ms)[RowOffsets(ms)[i] + r] == IndptrPieces(ms)[i][r - 1]
  {
    IndptrPiecesOffsets(ms);
    assert UnionIndptr(ms) == [0] + Flatten(IndptrPieces(ms));
    FlattenAtAfter(0, IndptrPieces(ms), RowOffsets(ms), i, r - 1);
  }

  /** The row pointer of the union at the first row of block i (past the
      last row when i == |ms|) counts the entries of the earlier blocks. */
  lemma {:induction false} UnionIndptrStart(ms: seq<CSRMatrix>, i: int)
    requires AllValid(ms) && 0 <= i <= |ms|
    ensures 0 <= RowOffsets(ms)[i] < |UnionIndptr(ms)|
    ensures UnionIndptr(ms)[RowOffsets(ms)[i]] == EdgeOffsets(ms)[i]
    decreases i
  {
    if i > 0 {
      OffsetSteps(ms, i - 1);
      var n := ms[i - 1].numRows;
      if n == 0 {
        UnionIndptrStart(ms, i - 1);
      } else {
        UnionIndptrInside(ms, i - 1, n);
      }
    }
  }

  /** Row pointer r of block i, for every 0 <= r <= num_rows of input i. */
  lemma UnionIndptrAt(ms: seq<CSRMatrix>, i: int, r: int)
    requires AllValid(ms) && 0 <= i < |ms| && 0 <= r <= ms[i].numRows
    ensures 0 <= RowOffsets(ms)[i] + r < |UnionIndptr(ms)|
    ensures UnionIndptr(ms)[RowOffsets(ms)[i] + r] == EdgeOffsets(ms)[i] + ms[i].indptr[r]
  {
    if r == 0 {
      UnionIndptrStart(ms, i);
    } else {
      UnionIndptrInside(ms, i, r);
    }
  }

  /** The columns of block i are those of input i, moved right past the
      earlier inputs' columns. */
  lemma UnionIndicesBlock(ms: seq<CSRMatrix>, i: int)
    requires AllValid(ms) && 0 <= i < |ms|
    ensures 0 <= EdgeOffsets(ms)[i] && EdgeOffsets(ms)[i] + NNZ(ms[i]) <= |UnionIndices(ms)|
    ensures UnionIndices(ms)[EdgeOffsets(ms)[i]..EdgeOffsets(ms)[i] + NNZ(ms[i])]
         == AddAll(ms[i].indices, ColOffsets(ms)[i])
  {
    IndicesPiecesOffsets(ms);
    assert UnionIndices(ms) == Flatten(IndicesPieces(ms));
    FlattenBlock(IndicesPieces(ms), EdgeOffsets(ms), i, EdgeOffsets(ms)[i], AddAll(ms[i].indices, ColOffsets(ms)[i]));
  }

  lemma UnionIndicesAt(ms: seq<CSRMatrix>, i: int, k: int)
    requires AllValid(ms) && 0 <= i < |ms| && 0 <= k < NNZ(ms[i])
    ensures 0 <= EdgeOffsets(ms)[i] + k < |UnionIndices(ms)|
    ensures UnionIndices(ms)[EdgeOffsets(ms)[i] + k] == ms[i].indices[k] + ColOffsets(ms)[i]
  {
    UnionIndicesBlock(ms, i);
    var eo := EdgeOffsets(ms);
    assert UnionIndices(ms)[eo[i]..eo[i] + NNZ(ms[i])][k] == UnionIndices(ms)[eo[i] + k];
  }

  /** The entry ids of block i are those of input i, moved past the earlier
      inputs' entries. */
  lemma UnionIdsBlock(ms: seq<CSRMatrix>, i: int)
    requires AllValid(ms) && 0 <= i < |ms|
    ensures 0 <= EdgeOffsets(ms)[i] && EdgeOffsets(ms)[i] + NNZ(ms[i]) <= |UnionIds(ms)|
    ensures UnionIds(ms)[EdgeOffsets(ms)[i]..EdgeOffsets(ms)[i] + NNZ(ms[i])]
         == AddAll(EntryIds(ms[i]), EdgeOffsets(ms)[i])
  {
    IdPiecesOffsets(ms);
    assert UnionIds(ms) == Flatten(IdPieces(ms));
    FlattenBlock(IdPieces(ms), EdgeOffsets(ms), i, EdgeOffsets(ms)[i], AddAll(EntryIds(ms[i]), EdgeOffsets(ms)[i]));
  }

  /** The row pointers of block i are those of input i, moved past the
      earlier inputs' entries. */
  lemma UnionIndptrBlock(ms: seq<CSRMatrix>, i: int)
    requires AllValid(ms) && 0 <= i < |ms|
    ensures 0 <= RowOffsets(ms)[i] && RowOffsets(ms)[i] + ms[i].numRows < |UnionIndptr(ms)|
    ensures UnionIndptr(ms)[RowOffsets(ms)[i]..RowOffsets(ms)[i] + ms[i].numRows + 1]
         == AddAll(ms[i].indptr, EdgeOffsets(ms)[i])
  {
    var m := ms[i];
    assert Valid(m) && m.indptr[0] == 0;
    UnionIndptrRun(ms, i);
    UnionIndptrStart(ms, i);
    AddAllCons(UnionIndptr(ms), RowOffsets(ms)[i], m.indptr, EdgeOffsets(ms)[i]);
  }

  /** The run of the union's row pointers over block i: its first pointer,
      then input i's pointers after the first, moved past the earlier entries. */
  lemma UnionIndptrRun(ms: seq<CSRMatrix>, i: int)
    requires AllValid(ms) && 0 <= i < |ms|
    ensures 0 <= RowOffsets(ms)[i] && RowOffsets(ms)[i] + ms[i].numRows < |UnionIndptr(ms)|
    ensures UnionIndptr(ms)[RowOffsets(ms)[i]..RowOffsets(ms)[i] + ms[i].numRows + 1]
         == [UnionIndptr(ms)[RowOffsets(ms)[i]]] + AddAll(ms[i].indptr[1..], EdgeOffsets(ms)[i])
  {
    var ps := IndptrPieces(ms);
    IndptrPiecesOffsets(ms);
    assert UnionIndptr(ms) == [0] + Flatten(ps);
    FlattenBlockAfter(0, ps, RowOffsets(ms), i);
    assert ps[i] == AddAll(ms[i].indptr[1..], EdgeOffsets(ms)[i]);
  }

  /** Neighbouring row pointers of the union are ordered. */
  lemma UnionIndptrStep(ms: seq<CSRMatrix>, q: int)
    requires AllValid(ms) && 0 <= q < RowOffsets(ms)[|ms|]
    ensures UnionIndptr(ms)[q] <= UnionIndptr(ms)[q + 1]
  {
    var i := DisjointUnionRowOwner(ms, q);
    UnionIndptrRowStep(ms, i, q - RowOffsets(ms)[i], q);
  }

  /** Row r of block i, at row q of the union, does not end before it starts. */
  lemma UnionIndptrRowStep(ms: seq<CSRMatrix>, i: int, r: int, q: int)
    requires AllValid(ms) && 0 <= i < |ms| && 0 <= r < ms[i].numRows && q == RowOffsets(ms)[i] + r
    ensures 0 <= q && q + 1 < |UnionIndptr(ms)|
    ensures UnionIndptr(ms)[q] <= UnionIndptr(ms)[q + 1]
  {
    var m := ms[i];
    assert Valid(m);
    assert m.indptr[r] <= m.indptr[r + 1];
    UnionIndptrAt(ms, i, r);
    UnionIndptrAt(ms, i, r + 1);
  }

  /** Every column of the union lies inside the union's columns. */
  lemma UnionIndicesBound(ms: seq<CSRMatrix>, q: int)
    requires AllValid(ms) && 0 <= q < EdgeOffsets(ms)[|ms|]
    ensures 0 <= UnionIndices(ms)[q] < ColOffsets(ms)[|ms|]
  {
    OffsetsMonotone(ms);
    var i := SegmentOf(EdgeOffsets(ms), q);
    OffsetSteps(ms, i);
    UnionIndicesAt(ms, i, q - EdgeOffsets(ms)[i]);
    var co := ColOffsets(ms);
    assert co[0] <= co[i] && co[i + 1] <= co[|ms|];
  }

  /** The union's arrays satisfy the CSR invariant for its extents. */
  lemma UnionArraysValid(ms: seq<CSRMatrix>)
    requires AllValid(ms)
    ensures 0 <= RowOffsets(ms)[|ms|] && 0 <= ColOffsets(ms)[|ms|]
    ensures UnionIndptr(ms)[0] == 0 && NonDecreasing(UnionIndptr(ms))
    ensures UnionIndptr(ms)[RowOffsets(ms)[|ms|]] == |UnionIndices(ms)|
    ensures forall q :: 0 <= q < |UnionIndices(ms)| ==> 0 <= UnionIndices(ms)[q] < ColOffsets(ms)[|ms|]
  {
    var p := UnionIndptr(ms);
    OffsetsMonotone(ms);
    UnionIndptrStart(ms, 0);
    UnionIndptrStart(ms, |ms|);
    forall q | 0 <= q < |p| - 1 ensures p[q] <= p[q + 1] {
      UnionIndptrStep(ms, q);
    }
    CsrQuery.AdjacentSortedIsSorted(p);
    forall q | 0 <= q < |UnionIndices(ms)| ensures 0 <= UnionIndices(ms)[q] < ColOffsets(ms)[|ms|] {
      UnionIndicesBound(ms, q);
    }
  }

  /** `d` holds `m` as a block: moved down by q0 rows, right by c0 columns
      and past e0 entries. */
  predicate BlockAt(d: CSRMatrix, q0: int, c0: int, e0: int, m: CSRMatrix)
    requires Valid(d) && Valid(m)
  {
    && 0 <= q0 && q0 + m.numRows <= d.numRows
    && 0 <= c0 && c0 + m.numCols <= d.numCols
    && 0 <= e0 && e0 + NNZ(m) <= NNZ(d)
    && d.indptr[q0..q0 + m.numRows + 1] == AddAll(m.indptr, e0)
    && d.indices[e0..e0 + NNZ(m)] == AddAll(m.indices, c0)
    && (if d.data.Some? then d.data.value[e0..e0 + NNZ(m)] == AddAll(EntryIds(m), e0)
        else m.data.None?)
  }

  /** Any matrix with the union's arrays holds input i as a block. */
  lemma UnionBlockAt(d: CSRMatrix, ms: seq<CSRMatrix>, i: int)
    requires AllValid(ms) && 0 <= i < |ms| && Valid(d)
    requires d.numRows == RowOffsets(ms)[|ms|] && d.numCols == ColOffsets(ms)[|ms|]
    requires d.indptr == UnionIndptr(ms) && d.indices == UnionIndices(ms)
    requires d.data.Some? ==> d.data.value == UnionIds(ms)
    requires d.data.None? ==> !AnyData(ms)
    ensures BlockAt(d, RowOffsets(ms)[i], ColOffsets(ms)[i], EdgeOffsets(ms)[i], ms[i])
  {
    OffsetSteps(ms, i);
    UnionIndptrBlock(ms, i);
    UnionIndicesBlock(ms, i);
    if d.data.Some? {
      UnionIdsBlock(ms, i);
    } else {
      assert ms[i].data.None?;
    }
  }

  /** Input i sits in the union as a block: its row pointers, columns and
      entry ids, moved past the rows, columns and entries of the earlier
      inputs.  Without any data array an entry's id is its position. */
  lemma DisjointUnionBlock(ms: seq<CSRMatrix>, i: int)
    requires AllValid(ms) && 0 <= i < |ms|
    ensures Valid(DisjointUnion(ms))
    ensures BlockAt(DisjointUnion(ms), RowOffsets(ms)[i], ColOffsets(ms)[i], EdgeOffsets(ms)[i], ms[i])
  {
    UnionBlockAt(DisjointUnion(ms), ms, i);
  }

  /** The union has a data array exactly when some input has one, and is
      flagged sorted exactly when every input is. */
  lemma DisjointUnionFlags(ms: seq<CSRMatrix>)
    requires AllValid(ms)
    ensures DisjointUnion(ms).data.Some? <==> AnyData(ms)
    ensures DisjointUnion(ms).sorted <==> AllSorted(ms)
  {
  }

  /** A row pointer of a block, read off `d`. */
  lemma BlockIndptr(d: CSRMatrix, q0: int, c0: int, e0: int, m: CSRMatrix, r: int)
    requires Valid(d) && Valid(m) && BlockAt(d, q0, c0, e0, m) && 0 <= r <= m.numRows
    ensures 0 <= q0 + r <= d.numRows && d.indptr[q0 + r] == m.indptr[r] + e0
  {
    assert d.indptr[q0 + r] == d.indptr[q0..q0 + m.numRows + 1][r];
  }

  /** A stored entry of a block, read off `d`. */
  lemma BlockEntry(d: CSRMatrix, q0: int, c0: int, e0: int, m: CSRMatrix, k: int)
    requires Valid(d) && Valid(m) && BlockAt(d, q0, c0, e0, m) && 0 <= k < NNZ(m)
    ensures 0 <= e0 + k < NNZ(d)
    ensures d.indices[e0 + k] == m.indices[k] + c0
    ensures EntryIds(d)[e0 + k] == EntryIds(m)[k] + e0
  {
    assert d.indices[e0 + k] == d.indices[e0..e0 + NNZ(m)][k];
    if d.data.Some? {
      assert d.data.value[e0 + k] == d.data.value[e0..e0 + NNZ(m)][k];
    }
  }

  /** Entry j of row q of `d` is entry j of row r of `m`, moved, when the
      two rows start at matching positions and the entry there is moved. */
  lemma ShiftedRowItem(d: CSRMatrix, q: int, m: CSRMatrix, r: int, j: int, c0: int, e0: int)
    requires Valid(d) && Valid(m) && 0 <= q < d.numRows && 0 <= r < m.numRows
    requires 0 <= j < m.indptr[r + 1] - m.indptr[r]
    requires d.indptr[q] == m.indptr[r] + e0 && d.indptr[q + 1] == m.indptr[r + 1] + e0
    requires d.indices[m.indptr[r] + j + e0] == m.indices[m.indptr[r] + j] + c0
    requires EntryIds(d)[m.indptr[r] + j + e0] == EntryIds(m)[m.indptr[r] + j] + e0
    ensures j < |RowItems(d, q)|
    ensures RowItems(d, q)[j] == Item(RowItems(m, r)[j].col + c0, RowItems(m, r)[j].eid + e0)
  {
    RowItemAt(m, r, j);
    RowItemAt(d, q, j);
  }

  /** Entry j of row r of a block, read off `d`. */
  lemma BlockRowItem(d: CSRMatrix, q0: int, c0: int, e0: int, m: CSRMatrix, r: int, j: int)
    requires Valid(d) && Valid(m) && BlockAt(d, q0, c0, e0, m) && 0 <= r < m.numRows
    requires 0 <= j < m.indptr[r + 1] - m.indptr[r]
    ensures 0 <= q0 + r < d.numRows && j < |RowItems(d, q0 + r)|
    ensures RowItems(d, q0 + r)[j] == Item(RowItems(m, r)[j].col + c0, RowItems(m, r)[j].eid + e0)
  {
    BlockIndptr(d, q0, c0, e0, m, r);
    BlockIndptr(d, q0, c0, e0, m, r + 1);
    BlockEntry(d, q0, c0, e0, m, m.indptr[r] + j);
    ShiftedRowItem(d, q0 + r, m, r, j, c0, e0);
  }

  /** Row r of a block is row q0 + r of `d`, moved. */
  lemma BlockRow(d: CSRMatrix, q0: int, c0: int, e0: int, m: CSRMatrix, r: int)
    requires Valid(d) && Valid(m) && BlockAt(d, q0, c0, e0, m) && 0 <= r < m.numRows
    ensures 0 <= q0 + r < d.numRows
    ensures RowItems(d, q0 + r) == ShiftItems(RowItems(m, r), c0, e0)
  {
    var q := q0 + r;
    BlockIndptr(d, q0, c0, e0, m, r);
    BlockIndptr(d, q0, c0, e0, m, r + 1);
    assert d.indptr[q] == m.indptr[r] + e0 && d.indptr[q + 1] == m.indptr[r + 1] + e0;
    var a := RowItems(d, q);
    var b := ShiftItems(RowItems(m, r), c0, e0);
    forall j | 0 <= j < |a| ensures a[j] == b[j] {
      BlockRowItem(d, q0, c0, e0, m, r, j);
    }
  }

  /** Row r of input i is row RowOffsets[i] + r of the union, its columns
      and entry ids moved past those of the earlier inputs. */
  lemma DisjointUnionRow(ms: seq<CSRMatrix>, i: int, r: int)
    requires AllValid(ms) && 0 <= i < |ms| && 0 <= r < ms[i].numRows
    ensures Valid(DisjointUnion(ms))
    ensures 0 <= RowOffsets(ms)[i] + r < DisjointUnion(ms).numRows
    ensures RowItems(DisjointUnion(ms), RowOffsets(ms)[i] + r)
         == ShiftItems(RowItems(ms[i], r), ColOffsets(ms)[i], EdgeOffsets(ms)[i])
  {
    DisjointUnionBlock(ms, i);
    BlockRow(DisjointUnion(ms), RowOffsets(ms)[i], ColOffsets(ms)[i], EdgeOffsets(ms)[i], ms[i], r);
  }

  /** Moving columns keeps their order. */
  lemma ShiftSorted(s: seq<Item>, dc: int, de: int)
    requires NonDecreasing(ColsOf(s))
    ensures NonDecreasing(ColsOf(ShiftItems(s, dc, de)))
  {
    var c := ColsOf(s);
    var t := ColsOf(ShiftItems(s, dc, de));
    forall a, b | 0 <= a <= b < |t| ensures t[a] <= t[b] {
      assert t[a] == c[a] + dc && t[b] == c[b] + dc;
    }
  }

  predicate AllHintsHold(ms: seq<CSRMatrix>)
    requires AllValid(ms)
  {
    forall i :: 0 <= i < |ms| ==> HintHolds(ms[i])
  }

  /** Every row of the union belongs to the block of exactly one input. */
  lemma DisjointUnionRowOwner(ms: seq<CSRMatrix>, q: int) returns (i: int)
    requires AllValid(ms) && 0 <= q < RowOffsets(ms)[|ms|]
    ensures 0 <= i < |ms| && RowOffsets(ms)[i] <= q < RowOffsets(ms)[i] + ms[i].numRows
  {
    OffsetsMonotone(ms);
    i := SegmentOf(RowOffsets(ms), q);
    OffsetSteps(ms, i);
  }

  /** The union is flagged sorted only when every input is, and then every
      row of it is sorted. */
  lemma DisjointUnionHint(ms: seq<CSRMatrix>)
    requires AllValid(ms) && AllHintsHold(ms)
    ensures Valid(DisjointUnion(ms))
    ensures HintHolds(DisjointUnion(ms))
  {
    var d := DisjointUnion(ms);
    if d.sorted {
      forall q | 0 <= q < d.numRows ensures NonDecreasing(RowCols(d, q)) {
        DisjointUnionSortedRow(ms, q);
      }
    }
  }

  /** A sorted row r of a block is a sorted row q = q0 + r of `d`. */
  lemma BlockRowSorted(d: CSRMatrix, q0: int, c0: int, e0: int, m: CSRMatrix, r: int, q: int)
    requires Valid(d) && Valid(m) && BlockAt(d, q0, c0, e0, m) && 0 <= r < m.numRows
    requires NonDecreasing(RowCols(m, r)) && q == q0 + r
    ensures 0 <= q < d.numRows
    ensures NonDecreasing(RowCols(d, q))
  {
    BlockRow(d, q0, c0, e0, m, r);
    ShiftSorted(RowItems(m, r), c0, e0);
  }

  lemma DisjointUnionSortedRow(ms: seq<CSRMatrix>, q: int)
    requires AllValid(ms) && AllHintsHold(ms) && AllSorted(ms)
    requires 0 <= q < RowOffsets(ms)[|ms|]
    ensures Valid(DisjointUnion(ms))
    ensures NonDecreasing(RowCols(DisjointUnion(ms), q))
  {
    var i := DisjointUnionRowOwner(ms, q);
    var m := ms[i];
    var q0 := RowOffsets(ms)[i];
    assert m.sorted && HintHolds(m);
    assert NonDecreasing(RowCols(m, q - q0));
    DisjointUnionBlock(ms, i);
    BlockRowSorted(DisjointUnion(ms), q0, ColOffsets(ms)[i], EdgeOffsets(ms)[i], m, q - q0, q);
  }

  /** The union's extents are the sums of the inputs' extents; it has a data
      array exactly when some input has one and is flagged sorted exactly
      when every input is. */
  lemma DisjointUnionShape(ms: seq<CSRMatrix>)
    requires AllValid(ms)
    ensures DisjointUnion(ms).numRows == Sum(RowCounts(ms))
    ensures DisjointUnion(ms).numCols == Sum(ColCounts(ms))
    ensures |DisjointUnion(ms).indices| == Sum(NNZs(ms))
    ensures DisjointUnion(ms).data.Some? <==> AnyData(ms)
    ensures DisjointUnion(ms).sorted <==> AllSorted(ms)
  {
    CumsumSum(RowCounts(ms));
    CumsumSum(ColCounts(ms));
    CumsumSum(NNZs(ms));
  }

  /** The two 3 x 4 inputs of the documented UnionCsr example, without data
      arrays and not flagged sorted. */
  function AddDocInputs(): (ms: seq<CSRMatrix>)
    ensures AllValid(ms) && |ms| == 2 && SameShape(ms) && ms[0].numRows == 3
  {
    [CSRMatrix(3, 4, [0, 1, 4, 5], [2, 0, 2, 3, 1], None, false),
     CSRMatrix(3, 4, [0, 2, 3, 4], [1, 2, 3, 2], None, false)]
  }

  /** The second input's edges are renumbered after the first input's five. */
  lemma AddDocOffsets()
    ensures EdgeOffsets(AddDocInputs()) == [0, 5, 9]
  {
    var ms := AddDocInputs();
    assert NNZs(ms) == [5, 4];
    assert [5, 4][..1] == [5] && [5, 4][..2] == [5, 4] && [5][..0] == [];
    assert Cumsum([5, 4]) == [0, 5, 9];
  }

  /** Without a data array the entries are numbered by position. */
  lemma PositionalItems(m: CSRMatrix)
    requires Valid(m) && m.data.None?
    ensures forall k :: 0 <= k < NNZ(m) ==> Items(m)[k] == Item(m.indices[k], k)
  {
    assert EntryIds(m) == Range(0, |m.indices|) && NNZ(m) == |m.indices|;
    forall k | 0 <= k < NNZ(m) ensures Items(m)[k] == Item(m.indices[k], k) {
      assert EntryIds(m)[k] == k;
    }
  }

  lemma AddDocItems()
    ensures Items(AddDocInputs()[0]) == [Item(2, 0), Item(0, 1), Item(2, 2), Item(3, 3), Item(1, 4)]
    ensures Items(AddDocInputs()[1]) == [Item(1, 0), Item(2, 1), Item(3, 2), Item(2, 3)]
  {
    var ms := AddDocInputs();
    PositionalItems(ms[0]);
    PositionalItems(ms[1]);
  }

  lemma AddDocRows()
    ensures UnionRow(AddDocInputs(), 0) == [Item(2, 0), Item(1, 5), Item(2, 6)]
    ensures UnionRow(AddDocInputs(), 1) == [Item(0, 1), Item(2, 2), Item(3, 3), Item(3, 7)]
    ensures UnionRow(AddDocInputs(), 2) == [Item(1, 4), Item(2, 8)]
  {
    var ms := AddDocInputs();
    AddDocOffsets();
    AddDocItems();
    assert !AllSorted(ms);
    var a0, a1, a2 := [Item(2, 0)], [Item(0, 1), Item(2, 2), Item(3, 3)], [Item(1, 4)];
    var b0, b1, b2 := [Item(1, 0), Item(2, 1)], [Item(3, 2)], [Item(2, 3)];
    assert RowItems(ms[0], 0) == a0 && RowItems(ms[0], 1) == a1 && RowItems(ms[0], 2) == a2;
    assert RowItems(ms[1], 0) == b0 && RowItems(ms[1], 1) == b1 && RowItems(ms[1], 2) == b2;
    assert ShiftItems(a0, 0, 0) == a0 && ShiftItems(a1, 0, 0) == a1 && ShiftItems(a2, 0, 0) == a2;
    assert ShiftItems(b0, 0, 5) == [Item(1, 5), Item(2, 6)];
    assert ShiftItems(b1, 0, 5) == [Item(3, 7)];
    assert ShiftItems(b2, 0, 5) == [Item(2, 8)];
    assert UnionPieces(ms, 0) == [a0, [Item(1, 5), Item(2, 6)]];
    assert UnionPieces(ms, 1) == [a1, [Item(3, 7)]];
    assert UnionPieces(ms, 2) == [a2, [Item(2, 8)]];
    FlattenTwo(a0, [Item(1, 5), Item(2, 6)]);
    FlattenTwo(a1, [Item(3, 7)]);
    FlattenTwo(a2, [Item(2, 8)]);
  }

  lemma AddDocUnion()
    ensures UnionCsr(AddDocInputs())
         == Success(Build(4, [[Item(2, 0), Item(1, 5), Item(2, 6)],
                              [Item(0, 1), Item(2, 2), Item(3, 3), Item(3, 7)],
                              [Item(1, 4), Item(2, 8)]], false))
  {
    var ms := AddDocInputs();
    AddDocRows();
    var rows := seq(ms[0].numRows, r requires 0 <= r < ms[0].numRows => UnionRow(ms, r));
    assert UnionCsr(ms) == Success(Build(ms[0].numCols, rows, AllSorted(ms)));
    assert rows == [UnionRow(ms, 0), UnionRow(ms, 1), UnionRow(ms, 2)];
    assert !AllSorted(ms) && ms[0].numCols == 4;
  }

  lemma AddDocBuild()
    ensures Build(4, [[Item(2, 0), Item(1, 5), Item(2, 6)],
                      [Item(0, 1), Item(2, 2), Item(3, 3), Item(3, 7)],
                      [Item(1, 4), Item(2, 8)]], false)
         == CSRMatrix(3, 4, [0, 3, 7, 9], [2, 1, 2, 0, 2, 3, 3, 1, 2], Some([0, 5, 6, 1, 2, 3, 7, 4, 8]), false)
  {
    var row0 := [Item(2, 0), Item(1, 5), Item(2, 6)];
    var row1 := [Item(0, 1), Item(2, 2), Item(3, 3), Item(3, 7)];
    var row2 := [Item(1, 4), Item(2, 8)];
    var rows := [row0, row1, row2];
    FlattenOne(row0);
    FlattenTwo(row0, row1);
    assert rows[..0] == [] && rows[..1] == [row0] && rows[..2] == [row0, row1] && rows[..3] == rows;
    assert Flatten(rows) == row0 + row1 + row2;
    assert Offsets(rows) == [0, 3, 7, 9];
    assert ColsOf(Flatten(rows)) == [2, 1, 2, 0, 2, 3, 3, 1, 2];
    assert EidsOf(Flatten(rows)) == [0, 5, 6, 1, 2, 3, 7, 4, 8];
  }

  lemma AddDocRowCols(c: CSRMatrix)
    requires c == CSRMatrix(3, 4, [0, 3, 7, 9], [2, 1, 2, 0, 2, 3, 3, 1, 2], Some([0, 5, 6, 1, 2, 3, 7, 4, 8]), false)
    ensures Valid(c)
    ensures RowCols(c, 0) == [2, 1, 2] && RowCols(c, 1) == [0, 2, 3, 3] && RowCols(c, 2) == [1, 2]
  {
    assert Valid(c);
    assert EntryIds(c) == c.data.value;
    forall k | 0 <= k < 9 ensures Items(c)[k] == Item(c.indices[k], c.data.value[k]) {
      assert |Items(c)| == |c.indices|;
    }
    assert Items(c) == [Item(2, 0), Item(1, 5), Item(2, 6), Item(0, 1), Item(2, 2),
                        Item(3, 3), Item(3, 7), Item(1, 4), Item(2, 8)];
    assert Items(c)[0..3] == [Item(2, 0), Item(1, 5), Item(2, 6)];
    assert Items(c)[3..7] == [Item(0, 1), Item(2, 2), Item(3, 3), Item(3, 7)];
    assert Items(c)[7..9] == [Item(1, 4), Item(2, 8)];
  }

  /** Dense counts of the documented C, row by row. */
  lemma AddDocDense(c: CSRMatrix)
    requires c == CSRMatrix(3, 4, [0, 3, 7, 9], [2, 1, 2, 0, 2, 3, 3, 1, 2], Some([0, 5, 6, 1, 2, 3, 7, 4, 8]), false)
    ensures Valid(c)
    ensures forall r, j :: 0 <= r < 3 && 0 <= j < 4 ==>
      multiset(RowCols(c, r))[j] == [[0, 1, 2, 0], [1, 0, 1, 2], [0, 1, 1, 0]][r][j]
  {
    AddDocRowCols(c);
    var dense := [[0, 1, 2, 0], [1, 0, 1, 2], [0, 1, 1, 0]];
    forall r, j | 0 <= r < 3 && 0 <= j < 4 ensures multiset(RowCols(c, r))[j] == dense[r][j] {
      if r == 0 {
        assert multiset([2, 1, 2]) == multiset{1, 2, 2};
      } else if r == 1 {
        assert multiset([0, 2, 3, 3]) == multiset{0, 2, 3, 3};
      } else {
        assert multiset([1, 2]) == multiset{1, 2};
      }
    }
  }

  /** The documented UnionCsr example: the rows of A and B are concatenated,
      B's edges numbered from 5, and every cell of the result counts the
      entries of A and B there (C = A + B). */
  lemma UnionExample()
    ensures UnionCsr(AddDocInputs())
         == Success(CSRMatrix(3, 4, [0, 3, 7, 9], [2, 1, 2, 0, 2, 3, 3, 1, 2],
                              Some([0, 5, 6, 1, 2, 3, 7, 4, 8]), false))
    ensures var c := UnionCsr(AddDocInputs()).value;
      forall r, j :: 0 <= r < 3 && 0 <= j < 4 ==>
        multiset(RowCols(c, r))[j] == [[0, 1, 2, 0], [1, 0, 1, 2], [0, 1, 1, 0]][r][j]
  {
    AddDocUnion();
    AddDocBuild();
    AddDocDense(UnionCsr(AddDocInputs()).value);
  }
}
