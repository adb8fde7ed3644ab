/** DisjointPartitionCsrBySizes (include/dgl/aten/csr.h): cuts a matrix into
    consecutive diagonal blocks given cumulative boundary arrays for the
    entries, the rows and the columns, and renumbers each block from zero.
    It undoes DisjointUnionCsr. */
module CsrPartition {
  import opened Seqs
  import opened CsrMatrix
  import opened CsrCombine

  /** A boundary array for `batch` blocks over 0..total: one more element
      than blocks, never negative, never decreasing, not past the end. */
  predicate Cuts(c: seq<int>, batch: int, total: int)
  {
    0 <= batch && |c| == batch + 1 && 0 <= c[0] && NonDecreasing(c) && c[batch] <= total
  }

  /** The block of `m` made of rows q0..q1-1, with its entries at positions
      e0..e1-1; rows, entry positions and entry ids are renumbered from the
      block's first row and entry, columns from c0. */
  function Part(m: CSRMatrix, q0: int, q1: int, c0: int, c1: int, e0: int, e1: int): (p: CSRMatrix)
    requires Valid(m) && 0 <= q0 <= q1 <= m.numRows && 0 <= e0 <= e1 <= NNZ(m)
  {
    CSRMatrix(q1 - q0, c1 - c0,
              AddAll(m.indptr[q0..q1 + 1], -e0),
              AddAll(m.indices[e0..e1], -c0),
              if m.data.Some? then Some(AddAll(m.data.value[e0..e1], -e0)) else None,
              m.sorted)
  }

  /** DisjointPartitionCsrBySizes(csr, batch_size, edge_cumsum,
      src_vertex_cumsum, dst_vertex_cumsum).  Block g takes rows
      rows[g]..rows[g+1]-1, entries edges[g]..edges[g+1]-1 and is
      cols[g+1]-cols[g] columns wide. */
  function DisjointPartitionCsrBySizes(m: CSRMatrix, batch: int, edges: seq<int>, rows: seq<int>, cols: seq<int>)
    : (r: Result<seq<CSRMatrix>>)
    requires Valid(m)
    ensures r.Success? <==>
              Cuts(edges, batch, NNZ(m)) && Cuts(rows, batch, m.numRows) && |cols| == batch + 1
    ensures r.Failure? ==> r.error == BoundaryMismatch
    ensures r.Success? ==> |r.value| == batch
  {
    if !(Cuts(edges, batch, NNZ(m)) && Cuts(rows, batch, m.numRows) && |cols| == batch + 1) then
      Failure(BoundaryMismatch)
    else
      Success(seq(batch, g requires 0 <= g < batch =>
                Part(m, rows[g], rows[g + 1], cols[g], cols[g + 1], edges[g], edges[g + 1])))
  }

  /** Block g of a successful partition. */
  lemma PartitionAt(m: CSRMatrix, batch: int, edges: seq<int>, rows: seq<int>, cols: seq<int>, g: int)
    requires Valid(m) && DisjointPartitionCsrBySizes(m, batch, edges, rows, cols).Success? && 0 <= g < batch
    ensures 0 <= rows[g] <= rows[g + 1] <= m.numRows && 0 <= edges[g] <= edges[g + 1] <= NNZ(m)
    ensures DisjointPartitionCsrBySizes(m, batch, edges, rows, cols).value[g]
         == Part(m, rows[g], rows[g + 1], cols[g], cols[g + 1], edges[g], edges[g + 1])
  {
    assert rows[0] <= rows[g] <= rows[g + 1] <= rows[batch];
    assert edges[0] <= edges[g] <= edges[g + 1] <= edges[batch];
  }

  // ------------------------------------------------------------- validity

  /** The boundaries agree with the matrix for block g: its rows hold exactly
      its entries, and its entries' columns lie in its column range. */
  predicate BlockAligned(m: CSRMatrix, q0: int, q1: int, c0: int, c1: int, e0: int, e1: int)
    requires Valid(m) && 0 <= q0 <= q1 <= m.numRows
  {
    && m.indptr[q0] == e0 && m.indptr[q1] == e1 && c0 <= c1
    && forall k :: e0 <= k < e1 ==> c0 <= m.indices[k] < c1
  }

  /** A block whose boundaries agree with the matrix is a valid matrix, and
      its row r holds the entries of row q0 + r, moved back to the block's
      columns (and, with a data array, to the block's entry ids). */
  lemma PartValid(m: CSRMatrix, q0: int, q1: int, c0: int, c1: int, e0: int, e1: int)
    requires Valid(m) && 0 <= q0 <= q1 <= m.numRows && 0 <= e0 <= e1 <= NNZ(m)
    requires BlockAligned(m, q0, q1, c0, c1, e0, e1)
    ensures Valid(Part(m, q0, q1, c0, c1, e0, e1))
    ensures forall r :: 0 <= r < q1 - q0 ==>
              RowCols(Part(m, q0, q1, c0, c1, e0, e1), r) == AddAll(RowCols(m, q0 + r), -c0)
  {
    var p := Part(m, q0, q1, c0, c1, e0, e1);
    forall i, j | 0 <= i <= j < |p.indptr| ensures p.indptr[i] <= p.indptr[j] {
      assert m.indptr[q0 + i] <= m.indptr[q0 + j];
    }
    forall k | 0 <= k < |p.indices| ensures 0 <= p.indices[k] < p.numCols {
      assert m.indices[e0 + k] == m.indices[e0..e1][k];
    }
    assert Valid(p);
    forall r | 0 <= r < q1 - q0 ensures RowCols(p, r) == AddAll(RowCols(m, q0 + r), -c0) {
      PartRow(m, q0, q1, c0, c1, e0, e1, r);
    }
  }

  lemma PartRow(m: CSRMatrix, q0: int, q1: int, c0: int, c1: int, e0: int, e1: int, r: int)
    requires Valid(m) && 0 <= q0 <= q1 <= m.numRows && 0 <= e0 <= e1 <= NNZ(m)
    requires BlockAligned(m, q0, q1, c0, c1, e0, e1)
    requires Valid(Part(m, q0, q1, c0, c1, e0, e1)) && 0 <= r < q1 - q0
    ensures RowCols(Part(m, q0, q1, c0, c1, e0, e1), r) == AddAll(RowCols(m, q0 + r), -c0)
  {
    var p := Part(m, q0, q1, c0, c1, e0, e1);
    var q := q0 + r;
    assert p.indptr[r] == m.indptr[q] - e0 && p.indptr[r + 1] == m.indptr[q + 1] - e0;
    assert m.indptr[q0] <= m.indptr[q] && m.indptr[q + 1] <= m.indptr[q1];
    var a := RowCols(p, r);
    var b := AddAll(RowCols(m, q), -c0);
    forall j | 0 <= j < |a| ensures a[j] == b[j] {
      RowItemAt(p, r, j);
      RowItemAt(m, q, j);
      assert p.indptr[r] + j == m.indptr[q] + j - e0;
      assert p.indices[p.indptr[r] + j] == m.indices[e0..e1][m.indptr[q] + j - e0] - c0;
    }
  }

  /** Every block of a partition whose boundaries agree with the matrix is
      valid. */
  lemma PartitionValid(m: CSRMatrix, batch: int, edges: seq<int>, rows: seq<int>, cols: seq<int>)
    requires Valid(m) && DisjointPartitionCsrBySizes(m, batch, edges, rows, cols).Success?
    requires forall g {:trigger BlockAligned(m, rows[g], rows[g + 1], cols[g], cols[g + 1], edges[g], edges[g + 1])} ::
               0 <= g < batch ==>
               0 <= rows[g] <= rows[g + 1] <= m.numRows &&
               BlockAligned(m, rows[g], rows[g + 1], cols[g], cols[g + 1], edges[g], edges[g + 1])
    ensures forall g :: 0 <= g < batch ==> Valid(DisjointPartitionCsrBySizes(m, batch, edges, rows, cols).value[g])
  {
    forall g | 0 <= g < batch ensures Valid(DisjointPartitionCsrBySizes(m, batch, edges, rows, cols).value[g]) {
      PartitionAt(m, batch, edges, rows, cols, g);
      PartValid(m, rows[g], rows[g + 1], cols[g], cols[g + 1], edges[g], edges[g + 1]);
    }
  }

  // ------------------------------------------------------------ round trip

  /** Input i as it comes back from a partition of the union: a data array
      when some input had one (its own ids, or its positions), and the
      union's sorted flag. */
  function Restamp(ms: seq<CSRMatrix>, i: int): (m: CSRMatrix)
    requires AllValid(ms) && 0 <= i < |ms|
  {
    ms[i].(data := if AnyData(ms) then Some(EntryIds(ms[i])) else None, sorted := AllSorted(ms))
  }

  /** Cutting a matrix at a block gives the block back. */
  lemma PartOfBlock(d: CSRMatrix, q0: int, q1: int, c0: int, c1: int, e0: int, e1: int, m: CSRMatrix)
    requires Valid(d) && Valid(m) && BlockAt(d, q0, c0, e0, m)
    requires q1 == q0 + m.numRows && c1 == c0 + m.numCols && e1 == e0 + NNZ(m)
    ensures 0 <= q0 <= q1 <= d.numRows && 0 <= e0 <= e1 <= NNZ(d)
    ensures Part(d, q0, q1, c0, c1, e0, e1)
         == m.(data := if d.data.Some? then Some(EntryIds(m)) else None, sorted := d.sorted)
  {
    AddAllCancel(m.indptr, e0);
    AddAllCancel(m.indices, c0);
    if d.data.Some? {
      AddAllCancel(EntryIds(m), e0);
    }
  }

  /** Cutting the union at the offsets of input i gives input i back. */
  lemma PartitionOfUnionAt(ms: seq<CSRMatrix>, i: int)
    requires AllValid(ms) && 0 <= i < |ms|
    ensures 0 <= RowOffsets(ms)[i] <= RowOffsets(ms)[i + 1] <= DisjointUnion(ms).numRows
    ensures 0 <= EdgeOffsets(ms)[i] <= EdgeOffsets(ms)[i + 1] <= NNZ(DisjointUnion(ms))
    ensures Part(DisjointUnion(ms), RowOffsets(ms)[i], RowOffsets(ms)[i + 1], ColOffsets(ms)[i],
                 ColOffsets(ms)[i + 1], EdgeOffsets(ms)[i], EdgeOffsets(ms)[i + 1])
         == Restamp(ms, i)
  {
    var d := DisjointUnion(ms);
    OffsetSteps(ms, i);
    DisjointUnionBlock(ms, i);
    DisjointUnionFlags(ms);
    PartOfBlock(d, RowOffsets(ms)[i], RowOffsets(ms)[i + 1], ColOffsets(ms)[i],
                ColOffsets(ms)[i + 1], EdgeOffsets(ms)[i], EdgeOffsets(ms)[i + 1], ms[i]);
  }

  /** The offsets DisjointUnionCsr placed the inputs at are valid boundary
      arrays for its result. */
  lemma UnionCuts(ms: seq<CSRMatrix>)
    requires AllValid(ms)
    ensures Cuts(EdgeOffsets(ms), |ms|, NNZ(DisjointUnion(ms)))
    ensures Cuts(RowOffsets(ms), |ms|, DisjointUnion(ms).numRows)
    ensures |ColOffsets(ms)| == |ms| + 1
  {
    OffsetsMonotone(ms);
  }

  /** Partitioning the union at the offsets it placed its inputs at gives the
      inputs back, each renumbered from zero and restamped with the union's
      data presence and sorted flag. */
  lemma PartitionOfUnion(ms: seq<CSRMatrix>)
    requires AllValid(ms)
    ensures DisjointPartitionCsrBySizes(DisjointUnion(ms), |ms|, EdgeOffsets(ms), RowOffsets(ms), ColOffsets(ms))
         == Success(seq(|ms|, i requires 0 <= i < |ms| => Restamp(ms, i)))
  {
    var d := DisjointUnion(ms);
    UnionCuts(ms);
    var r := DisjointPartitionCsrBySizes(d, |ms|, EdgeOffsets(ms), RowOffsets(ms), ColOffsets(ms));
    var want := seq(|ms|, i requires 0 <= i < |ms| => Restamp(ms, i));
    assert r.Success? && |r.value| == |want|;
    forall i | 0 <= i < |ms| ensures r.value[i] == want[i] {
      PartitionAt(d, |ms|, EdgeOffsets(ms), RowOffsets(ms), ColOffsets(ms), i);
      PartitionOfUnionAt(ms, i);
    }
    assert r.value == want;
  }

  /** Inputs that agree on having a data array and on the sorted flag come
      back exactly. */
  predicate Uniform(ms: seq<CSRMatrix>)
  {
    forall i, j :: 0 <= i < |ms| && 0 <= j < |ms| ==>
      ms[i].data.Some? == ms[j].data.Some? && ms[i].sorted == ms[j].sorted
  }

  lemma RestampUniform(ms: seq<CSRMatrix>, i: int)
    requires AllValid(ms) && Uniform(ms) && 0 <= i < |ms|
    ensures Restamp(ms, i) == ms[i]
  {
    assert AnyData(ms) <==> ms[i].data.Some?;
    assert AllSorted(ms) <==> ms[i].sorted;
  }

  lemma PartitionOfUnionExact(ms: seq<CSRMatrix>)
    requires AllValid(ms) && Uniform(ms)
    ensures DisjointPartitionCsrBySizes(DisjointUnion(ms), |ms|, EdgeOffsets(ms), RowOffsets(ms), ColOffsets(ms))
         == Success(ms)
  {
    PartitionOfUnion(ms);
    var want := seq(|ms|, i requires 0 <= i < |ms| => Restamp(ms, i));
    forall i | 0 <= i < |ms| ensures want[i] == ms[i] {
      RestampUniform(ms, i);
    }
    assert want == ms;
  }

  /** The two inputs of the DisjointUnionCsr documentation: a 3 x 3 and a
      2 x 2 matrix. */
  function UnionDocInputs(): (ms: seq<CSRMatrix>)
    ensures AllValid(ms)
  {
    [CSRMatrix(3, 3, [0, 1, 3, 4], [2, 0, 2, 1], None, false),
     CSRMatrix(2, 2, [0, 0, 1], [0], None, false)]
  }

  lemma UnionDocOffsets()
    ensures EdgeOffsets(UnionDocInputs()) == [0, 4, 5]
    ensures RowOffsets(UnionDocInputs()) == [0, 3, 5]
    ensures ColOffsets(UnionDocInputs()) == [0, 3, 5]
  {
    var ms := UnionDocInputs();
    assert NNZs(ms) == [4, 1] && RowCounts(ms) == [3, 2] && ColCounts(ms) == [3, 2];
    assert [4, 1][..1] == [4] && [4, 1][..2] == [4, 1] && [4][..0] == [];
    assert [3, 2][..1] == [3] && [3, 2][..2] == [3, 2] && [3][..0] == [];
    assert Cumsum([4, 1]) == [0, 4, 5];
    assert Cumsum([3, 2]) == [0, 3, 5];
  }

  lemma UnionDocArrays()
    ensures UnionIndptr(UnionDocInputs()) == [0, 1, 3, 4, 4, 5]
    ensures UnionIndices(UnionDocInputs()) == [2, 0, 2, 1, 3]
  {
    var ms := UnionDocInputs();
    UnionDocOffsets();
    var ps := IndptrPieces(ms);
    assert ms[0].indptr[1..] == [1, 3, 4] && ms[1].indptr[1..] == [0, 1];
    assert ps[0] == AddAll([1, 3, 4], 0) && ps[1] == AddAll([0, 1], 4);
    assert AddAll([1, 3, 4], 0) == [1, 3, 4] && AddAll([0, 1], 4) == [4, 5];
    assert ps == [[1, 3, 4], [4, 5]];
    var cs := IndicesPieces(ms);
    assert cs[0] == AddAll([2, 0, 2, 1], 0) && cs[1] == AddAll([0], 3);
    assert AddAll([2, 0, 2, 1], 0) == [2, 0, 2, 1] && AddAll([0], 3) == [3];
    assert cs == [[2, 0, 2, 1], [3]];
    FlattenTwo(ps[0], ps[1]);
    FlattenTwo(cs[0], cs[1]);
  }

  /** The documented DisjointUnionCsr example: the union of the two inputs
      is the 5 x 5 block-diagonal matrix with the second input's entry
      (1, 0) at (4, 3). */
  lemma DisjointUnionExample()
    ensures DisjointUnionCsr(UnionDocInputs())
         == Success(CSRMatrix(5, 5, [0, 1, 3, 4, 4, 5], [2, 0, 2, 1, 3], None, false))
  {
    var ms := UnionDocInputs();
    UnionDocOffsets();
    UnionDocArrays();
    assert !AnyData(ms) && !AllSorted(ms);
  }

  /** The matrix of the documented DisjointPartitionCsrBySizes example. */
  function PartitionDocMatrix(): (c: CSRMatrix)
    ensures Valid(c)
  {
    CSRMatrix(6, 5, [0, 1, 3, 4, 4, 5, 6], [2, 0, 2, 1, 3, 4], None, false)
  }

  lemma PartitionDocBlocks()
    ensures Part(PartitionDocMatrix(), 0, 3, 0, 3, 0, 4) == CSRMatrix(3, 3, [0, 1, 3, 4], [2, 0, 2, 1], None, false)
    ensures Part(PartitionDocMatrix(), 3, 6, 3, 5, 4, 6) == CSRMatrix(3, 2, [0, 0, 1, 2], [0, 1], None, false)
  {
    var c := PartitionDocMatrix();
    assert c.indptr[0..4] == [0, 1, 3, 4] && c.indices[0..4] == [2, 0, 2, 1];
    assert AddAll([0, 1, 3, 4], -0) == [0, 1, 3, 4] && AddAll([2, 0, 2, 1], -0) == [2, 0, 2, 1];
    assert c.indptr[3..7] == [4, 4, 5, 6] && c.indices[4..6] == [3, 4];
    assert AddAll([4, 4, 5, 6], -4) == [0, 0, 1, 2] && AddAll([3, 4], -3) == [0, 1];
  }

  /** The worked example of the source: a 6 x 5 matrix cut into a 3 x 3
      block with 4 entries and a 3 x 2 block with 2 entries. */
  lemma PartitionExample()
    ensures var c := CSRMatrix(6, 5, [0, 1, 3, 4, 4, 5, 6], [2, 0, 2, 1, 3, 4], None, false);
      DisjointPartitionCsrBySizes(c, 2, [0, 4, 6], [0, 3, 6], [0, 3, 5])
        == Success([CSRMatrix(3, 3, [0, 1, 3, 4], [2, 0, 2, 1], None, false),
                    CSRMatrix(3, 2, [0, 0, 1, 2], [0, 1], None, false)])
  {
    var c := PartitionDocMatrix();
    var r := DisjointPartitionCsrBySizes(c, 2, [0, 4, 6], [0, 3, 6], [0, 3, 5]);
    assert r.Success? && |r.value| == 2;
    assert r.value[0] == CSRMatrix(3, 3, [0, 1, 3, 4], [2, 0, 2, 1], None, false) by {
      PartitionAt(c, 2, [0, 4, 6], [0, 3, 6], [0, 3, 5], 0);
      PartitionDocBlocks();
    }
    assert r.value[1] == CSRMatrix(3, 2, [0, 0, 1, 2], [0, 1], None, false) by {
      PartitionAt(c, 2, [0, 4, 6], [0, 3, 6], [0, 3, 5], 1);
      PartitionDocBlocks();
    }
    assert r.value == [r.value[0], r.value[1]];
  }
}
