/** Generic sequence helpers shared by the CSR model: flattening a sequence of
    rows, the start offset of every row in the flattened sequence (the shape of a
    CSR row-pointer array), prefix sums and sums. */
module Seqs {

  /** Concatenation of all rows, in order. */
  function Flatten<T>(ss: seq<seq<T>>): (r: seq<T>)
  {
    if ss == [] then [] else Flatten(ss[..|ss| - 1]) + ss[|ss| - 1]
  }

  /** Offsets(ss)[i] is the position in Flatten(ss) where row i starts. */
  function Offsets<T>(ss: seq<seq<T>>): (r: seq<int>)
    ensures |r| == |ss| + 1
  {
    seq(|ss| + 1, i requires 0 <= i <= |ss| => |Flatten(ss[..i])|)
  }

  /** Prefix sums: Cumsum(xs)[i] is the sum of xs[..i]. */
  function Cumsum(xs: seq<int>): (r: seq<int>)
    ensures |r| == |xs| + 1
  {
    seq(|xs| + 1, i requires 0 <= i <= |xs| => Sum(xs[..i]))
  }

  function Sum(xs: seq<int>): int
  {
    if xs == [] then 0 else Sum(xs[..|xs| - 1]) + xs[|xs| - 1]
  }

  /** The lengths of the rows. */
  function Lengths<T>(ss: seq<seq<T>>): (r: seq<int>)
    ensures |r| == |ss|
  {
    seq(|ss|, i requires 0 <= i < |ss| => |ss[i]|)
  }

  /** `n` copies of `x` (none when n is not positive). */
  function Repeat<T>(x: T, n: int): (r: seq<T>)
    ensures |r| == if n < 0 then 0 else n
    ensures forall i :: 0 <= i < |r| ==> r[i] == x
  {
    if n <= 0 then [] else Repeat(x, n - 1) + [x]
  }

  /** The integers lo, lo+1, ..., hi-1. */
  function Range(lo: int, hi: int): (r: seq<int>)
    ensures |r| == if hi < lo then 0 else hi - lo
    ensures forall i :: 0 <= i < |r| ==> r[i] == lo + i
    decreases hi - lo
  {
    if hi <= lo then [] else Range(lo, hi - 1) + [hi - 1]
  }

  /** Adds `d` to every element. */
  function AddAll(xs: seq<int>, d: int): (r: seq<int>)
    ensures |r| == |xs|
    ensures forall i :: 0 <= i < |xs| ==> r[i] == xs[i] + d
  {
    seq(|xs|, i requires 0 <= i < |xs| => xs[i] + d)
  }

  /** Adding d and then -d gives the sequence back. */
  lemma AddAllCancel(xs: seq<int>, d: int)
    ensures AddAll(AddAll(xs, d), -d) == xs
  {
    assert forall i :: 0 <= i < |xs| ==> AddAll(AddAll(xs, d), -d)[i] == xs[i];
  }

  /** A run of `f` that starts with the shifted head of `xs` and goes on
      with its shifted tail is `xs` shifted. */
  lemma AddAllCons(f: seq<int>, lo: int, xs: seq<int>, d: int)
    requires 0 <= lo && lo + |xs| <= |f| && |xs| > 0
    requires f[lo..lo + |xs|] == [f[lo]] + AddAll(xs[1..], d)
    requires f[lo] == xs[0] + d
    ensures f[lo..lo + |xs|] == AddAll(xs, d)
  {
    var a := f[lo..lo + |xs|];
    forall k | 0 <= k < |xs| ensures a[k] == AddAll(xs, d)[k] {
      if k > 0 {
        assert a[k] == AddAll(xs[1..], d)[k - 1];
      }
    }
  }

  predicate Distinct<T(==)>(s: seq<T>)
  {
    forall i, j :: 0 <= i < j < |s| ==> s[i] != s[j]
  }

  predicate NonDecreasing(s: seq<int>)
  {
    forall i, j :: 0 <= i <= j < |s| ==> s[i] <= s[j]
  }

  /** Index of the first occurrence of `x` in `s`, or |s| when absent. */
  function IndexOf<T(==)>(s: seq<T>, x: T): (r: nat)
    ensures r <= |s|
    ensures r < |s| <==> x in s
    ensures r < |s| ==> s[r] == x
    ensures forall i :: 0 <= i < r ==> s[i] != x
  {
    if s == [] then 0 else if s[0] == x then 0 else 1 + IndexOf(s[1..], x)
  }

  lemma IndexOfDistinct<T>(s: seq<T>, i: int)
    requires Distinct(s) && 0 <= i < |s|
    ensures IndexOf(s, s[i]) == i
  {
  }

  lemma {:induction false} FlattenAppend<T>(a: seq<seq<T>>, b: seq<seq<T>>)
    ensures Flatten(a + b) == Flatten(a) + Flatten(b)
    decreases |b|
  {
    if b == [] {
      assert a + b == a;
    } else {
      var b' := b[..|b| - 1];
      assert (a + b)[..|a + b| - 1] == a + b';
      FlattenAppend(a, b');
    }
  }

  lemma FlattenOne<T>(s: seq<T>)
    ensures Flatten([s]) == s
  {
    assert [s][..0] == [];
  }

  lemma FlattenTwo<T>(a: seq<T>, b: seq<T>)
    ensures Flatten([a, b]) == a + b
  {
    FlattenOne(a);
    assert [a, b][..1] == [a];
  }

  lemma FlattenSnoc<T>(ss: seq<seq<T>>, i: int)
    requires 0 <= i < |ss|
    ensures Flatten(ss[..i + 1]) == Flatten(ss[..i]) + ss[i]
  {
    assert ss[..i + 1][..i] == ss[..i];
  }

  /** Flattening and the row offsets of four rows, written out. */
  lemma FlattenFour<T>(a: seq<T>, b: seq<T>, c: seq<T>, d: seq<T>)
    ensures Flatten([a, b, c, d]) == a + b + c + d
    ensures Offsets([a, b, c, d]) == [0, |a|, |a| + |b|, |a| + |b| + |c|, |a| + |b| + |c| + |d|]
  {
    var ss := [a, b, c, d];
    FlattenOne(a);
    assert ss[..1] == [a];
    FlattenSnoc(ss, 1);
    FlattenSnoc(ss, 2);
    FlattenSnoc(ss, 3);
    assert ss[..4] == ss;
    assert ss[..0] == [];
  }

  /** Offsets start at zero, never decrease, and end at the flattened length. */
  lemma OffsetsShape<T>(ss: seq<seq<T>>)
    ensures Offsets(ss)[0] == 0
    ensures Offsets(ss)[|ss|] == |Flatten(ss)|
    ensures NonDecreasing(Offsets(ss))
    ensures forall i :: 0 <= i < |ss| ==> Offsets(ss)[i + 1] == Offsets(ss)[i] + |ss[i]|
  {
    assert ss[..|ss|] == ss;
    forall i | 0 <= i < |ss|
      ensures Offsets(ss)[i + 1] == Offsets(ss)[i] + |ss[i]|
    {
      FlattenSnoc(ss, i);
    }
    forall i, j | 0 <= i <= j <= |ss|
      ensures Offsets(ss)[i] <= Offsets(ss)[j]
    {
      assert ss[..j] == ss[..i] + ss[i..j];
      FlattenAppend(ss[..i], ss[i..j]);
    }
  }

  /** Row i of `ss` is the slice of Flatten(ss) between its two offsets. */
  lemma FlattenSlice<T>(ss: seq<seq<T>>, i: int)
    requires 0 <= i < |ss|
    ensures 0 <= Offsets(ss)[i] <= Offsets(ss)[i + 1] <= |Flatten(ss)|
    ensures Flatten(ss)[Offsets(ss)[i]..Offsets(ss)[i + 1]] == ss[i]
  {
    FlattenSnoc(ss, i);
    assert ss == ss[..i + 1] + ss[i + 1..];
    FlattenAppend(ss[..i + 1], ss[i + 1..]);
  }

  /** FlattenSlice, for an offset array already at hand. */
  lemma FlattenSliceAt<T>(ss: seq<seq<T>>, o: seq<int>, i: int)
    requires o == Offsets(ss) && 0 <= i < |ss|
    ensures 0 <= o[i] <= o[i + 1] <= |Flatten(ss)|
    ensures Flatten(ss)[o[i]..o[i + 1]] == ss[i]
  {
    FlattenSlice(ss, i);
  }

  /** FlattenSlice, with the block's start and contents already at hand. */
  lemma FlattenBlock<T>(ss: seq<seq<T>>, o: seq<int>, i: int, lo: int, piece: seq<T>)
    requires o == Offsets(ss) && 0 <= i < |ss| && lo == o[i] && ss[i] == piece
    ensures 0 <= lo && lo + |piece| <= |Flatten(ss)|
    ensures Flatten(ss)[lo..lo + |piece|] == piece
  {
    FlattenSlice(ss, i);
  }

  /** FlattenSlice behind a leading entry: the block also takes in the entry before it. */
  lemma FlattenBlockAfter<T>(x: T, ss: seq<seq<T>>, o: seq<int>, i: int)
    requires o == Offsets(ss) && 0 <= i < |ss|
    ensures 0 <= o[i] && o[i] + |ss[i]| + 1 <= |[x] + Flatten(ss)|
    ensures ([x] + Flatten(ss))[o[i]..o[i] + |ss[i]| + 1] == [([x] + Flatten(ss))[o[i]]] + ss[i]
  {
    FlattenSlice(ss, i);
    var f := [x] + Flatten(ss);
    var n := |ss[i]|;
    assert f[o[i] + 1..o[i] + n + 1] == Flatten(ss)[o[i]..o[i] + n];
    assert f[o[i]..o[i] + n + 1] == [f[o[i]]] + f[o[i] + 1..o[i] + n + 1];
  }

  /** Element-wise view of FlattenSlice. */
  lemma FlattenAt<T>(ss: seq<seq<T>>, i: int, j: int)
    requires 0 <= i < |ss| && 0 <= j < |ss[i]|
    ensures Offsets(ss)[i] + j < |Flatten(ss)|
    ensures Flatten(ss)[Offsets(ss)[i] + j] == ss[i][j]
  {
    FlattenSlice(ss, i);
  }

  /** FlattenAt behind a leading entry, as in a row pointer array. */
  lemma FlattenAtAfter<T>(x: T, ss: seq<seq<T>>, o: seq<int>, i: int, j: int)
    requires o == Offsets(ss) && 0 <= i < |ss| && 0 <= j < |ss[i]|
    ensures 0 < o[i] + j + 1 < |[x] + Flatten(ss)|
    ensures ([x] + Flatten(ss))[o[i] + j + 1] == ss[i][j]
  {
    FlattenAt(ss, i, j);
    assert o[i] == |Flatten(ss[..i])|;
  }

  /** Any prefix-sum array of the row lengths is the offset array. */
  lemma OffsetsFromLengths<T>(ss: seq<seq<T>>, p: seq<int>)
    requires |p| == |ss| + 1 && p[0] == 0
    requires forall i :: 0 <= i < |ss| ==> p[i + 1] - p[i] == |ss[i]|
    ensures Offsets(ss) == p
  {
    OffsetsShape(ss);
    var i := 0;
    while i < |ss|
      invariant 0 <= i <= |ss|
      invariant forall k :: 0 <= k <= i ==> Offsets(ss)[k] == p[k]
    {
      i := i + 1;
    }
  }

  /** Rows of equal lengths flatten to equally long sequences, at equal offsets. */
  lemma OffsetsSameLengths<T, U>(a: seq<seq<T>>, b: seq<seq<U>>)
    requires |a| == |b|
    requires forall i :: 0 <= i < |a| ==> |a[i]| == |b[i]|
    ensures Offsets(a) == Offsets(b)
    ensures |Flatten(a)| == |Flatten(b)|
  {
    OffsetsShape(a);
    OffsetsFromLengths(b, Offsets(a));
    OffsetsShape(b);
  }

  /** An element of the flattened sequence comes from one of the rows, and back. */
  lemma {:induction false} FlattenMembers<T>(ss: seq<seq<T>>)
    ensures forall x :: x in Flatten(ss) <==> exists i :: 0 <= i < |ss| && x in ss[i]
    decreases |ss|
  {
    if ss != [] {
      var ss' := ss[..|ss| - 1];
      FlattenMembers(ss');
      forall x ensures x in Flatten(ss) <==> exists i :: 0 <= i < |ss| && x in ss[i] {
        if x in Flatten(ss') {
          var i :| 0 <= i < |ss'| && x in ss'[i];
          assert ss[i] == ss'[i];
        }
        if exists i :: 0 <= i < |ss| && x in ss[i] {
          var i :| 0 <= i < |ss| && x in ss[i];
          if i < |ss| - 1 { assert ss'[i] == ss[i]; }
        }
      }
    }
  }

  lemma {:induction false} FlattenMultiset<T>(a: seq<seq<T>>, b: seq<seq<T>>)
    ensures multiset(Flatten(a + b)) == multiset(Flatten(a)) + multiset(Flatten(b))
  {
    FlattenAppend(a, b);
  }

  /** Offsets of a concatenation of row lists. */
  lemma OffsetsAppend<T>(a: seq<seq<T>>, b: seq<seq<T>>, j: int)
    requires 0 <= j <= |b|
    ensures Offsets(a + b)[|a| + j] == |Flatten(a)| + Offsets(b)[j]
  {
    assert Offsets(a + b)[|a| + j] == |Flatten((a + b)[..|a| + j])|;
    assert Offsets(b)[j] == |Flatten(b[..j])|;
    assert (a + b)[..|a| + j] == a + b[..j];
    FlattenAppend(a, b[..j]);
  }

  /** Flattening a list of row lists: the blocks flatten one after the other. */
  lemma {:induction false} FlattenFlatten<T>(xs: seq<seq<seq<T>>>)
    ensures Flatten(Flatten(xs)) == Flatten(seq(|xs|, i requires 0 <= i < |xs| => Flatten(xs[i])))
    decreases |xs|
  {
    var g := seq(|xs|, i requires 0 <= i < |xs| => Flatten(xs[i]));
    if xs != [] {
      var xs' := xs[..|xs| - 1];
      var g' := seq(|xs'|, i requires 0 <= i < |xs'| => Flatten(xs'[i]));
      FlattenFlatten(xs');
      assert g[..|g| - 1] == g';
      FlattenAppend(Flatten(xs'), xs[|xs| - 1]);
    }
  }

  lemma {:induction false} SumAppend(a: seq<int>, b: seq<int>)
    ensures Sum(a + b) == Sum(a) + Sum(b)
    decreases |b|
  {
    if b == [] {
      assert a + b == a;
    } else {
      assert (a + b)[..|a + b| - 1] == a + b[..|b| - 1];
      SumAppend(a, b[..|b| - 1]);
    }
  }

  /** The prefix sums of the lengths are the row offsets. */
  lemma CumsumLengths<T>(ss: seq<seq<T>>)
    ensures Cumsum(Lengths(ss)) == Offsets(ss)
  {
    var p := Cumsum(Lengths(ss));
    forall i | 0 <= i < |ss| ensures p[i + 1] - p[i] == |ss[i]| {
      assert Lengths(ss)[..i + 1][..i] == Lengths(ss)[..i];
    }
    OffsetsFromLengths(ss, p);
  }

  /** The sum of the consecutive differences of a sequence telescopes. */
  lemma {:induction false} SumDifferences(p: seq<int>, n: int)
    requires 0 <= n && n + 1 <= |p|
    ensures Sum(seq(n, i requires 0 <= i < n => p[i + 1] - p[i])) == p[n] - p[0]
  {
    if n > 0 {
      var d := seq(n, i requires 0 <= i < n => p[i + 1] - p[i]);
      assert d[..n - 1] == seq(n - 1, i requires 0 <= i < n - 1 => p[i + 1] - p[i]);
      SumDifferences(p, n - 1);
    }
  }

  /** Summing the concatenation of rows is summing the row sums. */
  lemma {:induction false} SumFlatten(ss: seq<seq<int>>)
    ensures Sum(Flatten(ss)) == Sum(seq(|ss|, i requires 0 <= i < |ss| => Sum(ss[i])))
    decreases |ss|
  {
    if ss != [] {
      var ss' := ss[..|ss| - 1];
      SumFlatten(ss');
      var g := seq(|ss|, i requires 0 <= i < |ss| => Sum(ss[i]));
      assert g[..|g| - 1] == seq(|ss'|, i requires 0 <= i < |ss'| => Sum(ss'[i]));
      SumAppend(Flatten(ss'), ss[|ss| - 1]);
    }
  }

  /** The sum of an element-wise sum is the sum of the sums. */
  lemma {:induction false} SumPointwise(a: seq<int>, b: seq<int>)
    requires |a| == |b|
    ensures Sum(seq(|a|, j requires 0 <= j < |a| => a[j] + b[j])) == Sum(a) + Sum(b)
    decreases |a|
  {
    if a != [] {
      var n := |a| - 1;
      var c := seq(|a|, j requires 0 <= j < |a| => a[j] + b[j]);
      assert c[..n] == seq(|a[..n]|, j requires 0 <= j < |a[..n]| => a[..n][j] + b[..n][j]);
      SumPointwise(a[..n], b[..n]);
    }
  }

  /** Summing the indicator of `x` over `u` counts the occurrences of `x`. */
  lemma {:induction false} SumIndicator(u: seq<int>, x: int)
    ensures Sum(seq(|u|, j requires 0 <= j < |u| => if u[j] == x then 1 else 0)) == multiset(u)[x]
    decreases |u|
  {
    if u != [] {
      var n := |u| - 1;
      var c := seq(|u|, j requires 0 <= j < |u| => if u[j] == x then 1 else 0);
      assert c[..n] == seq(|u[..n]|, j requires 0 <= j < |u[..n]| => if u[..n][j] == x then 1 else 0);
      SumIndicator(u[..n], x);
      assert u == u[..n] + [u[n]];
    }
  }

  /** A value occurs at most once in a sequence without repetitions. */
  lemma {:induction false} DistinctOnce<T>(u: seq<T>, x: T)
    requires Distinct(u) && x in u
    ensures multiset(u)[x] == 1
    decreases |u|
  {
    var n := |u| - 1;
    assert u == u[..n] + [u[n]];
    if u[n] == x {
      assert x !in u[..n];
    } else {
      DistinctOnce(u[..n], x);
    }
  }

  /** The row lengths add up to the flattened length. */
  lemma {:induction false} SumLengths<T>(ss: seq<seq<T>>)
    ensures Sum(Lengths(ss)) == |Flatten(ss)|
    decreases |ss|
  {
    if ss != [] {
      var ss' := ss[..|ss| - 1];
      assert Lengths(ss)[..|ss| - 1] == Lengths(ss');
      SumLengths(ss');
    }
  }

  /** A position below the last boundary of a non-decreasing boundary
      array lies in exactly one segment. */
  lemma SegmentOf(o: seq<int>, k: int) returns (r: int)
    requires |o| > 0 && NonDecreasing(o) && o[0] <= k < o[|o| - 1]
    ensures 0 <= r < |o| - 1 && o[r] <= k < o[r + 1]
    ensures forall q :: 0 <= q < |o| - 1 && o[q] <= k < o[q + 1] ==> q == r
  {
    r := 0;
    while o[r + 1] <= k
      invariant 0 <= r < |o| - 1 && o[r] <= k
      decreases |o| - r
    {
      r := r + 1;
    }
    forall q | 0 <= q < |o| - 1 && o[q] <= k < o[q + 1] ensures q == r {
    }
  }

  lemma OffsetRow<T>(ss: seq<seq<T>>, k: int) returns (r: int)
    requires 0 <= k < |Flatten(ss)|
    ensures 0 <= r < |ss| && Offsets(ss)[r] <= k < Offsets(ss)[r + 1]
    ensures forall q :: 0 <= q < |ss| && Offsets(ss)[q] <= k < Offsets(ss)[q + 1] ==> q == r
  {
    OffsetsShape(ss);
    r := SegmentOf(Offsets(ss), k);
  }

  /** Every element of the flattened sequence comes from some row. */
  lemma FlattenedAt<T>(ss: seq<seq<T>>, k: int) returns (r: int, j: int)
    requires 0 <= k < |Flatten(ss)|
    ensures 0 <= r < |ss| && 0 <= j < |ss[r]| && Flatten(ss)[k] == ss[r][j]
  {
    r := OffsetRow(ss, k);
    j := k - Offsets(ss)[r];
    OffsetsShape(ss);
    FlattenAt(ss, r, j);
  }

  lemma FlattenAtOffset<T>(ss: seq<seq<T>>, o: seq<int>, i: int, j: int)
    requires o == Offsets(ss) && 0 <= i < |ss| && 0 <= j < |ss[i]|
    ensures 0 <= o[i] + j < |Flatten(ss)|
    ensures Flatten(ss)[o[i] + j] == ss[i][j]
  {
    FlattenAt(ss, i, j);
    assert o[i] == |Flatten(ss[..i])|;
  }

  /** The occurrences of `x` in a flattened sequence are those of all rows. */
  lemma {:induction false} FlattenCount<T>(ss: seq<seq<T>>, x: T)
    ensures multiset(Flatten(ss))[x] == Sum(seq(|ss|, i requires 0 <= i < |ss| => multiset(ss[i])[x]))
    decreases |ss|
  {
    if ss != [] {
      var n := |ss| - 1;
      var c := seq(|ss|, i requires 0 <= i < |ss| => multiset(ss[i])[x]);
      assert c[..n] == seq(|ss[..n]|, i requires 0 <= i < |ss[..n]| => multiset(ss[..n][i])[x]);
      FlattenCount(ss[..n], x);
    }
  }

  /** A sum in which only position j may be non-zero. */
  lemma {:induction false} SumSingle(c: seq<int>, j: int, v: int)
    requires forall i :: 0 <= i < |c| && i != j ==> c[i] == 0
    requires 0 <= j < |c| ==> c[j] == v
    ensures Sum(c) == if 0 <= j < |c| then v else 0
    decreases |c|
  {
    if c != [] {
      SumSingle(c[..|c| - 1], j, v);
    }
  }

  /** Each prefix sum adds one more element. */
  lemma CumsumSum(xs: seq<int>)
    ensures Cumsum(xs)[|xs|] == Sum(xs)
  {
    assert xs[..|xs|] == xs;
  }

  lemma CumsumStep(xs: seq<int>, i: int)
    requires 0 <= i < |xs|
    ensures Cumsum(xs)[i + 1] == Cumsum(xs)[i] + xs[i]
  {
    assert xs[..i + 1][..i] == xs[..i];
  }

  /** Prefix sums of non-negative numbers start at 0 and never decrease. */
  lemma CumsumShape(xs: seq<int>)
    requires forall i :: 0 <= i < |xs| ==> 0 <= xs[i]
    ensures Cumsum(xs)[0] == 0
    ensures NonDecreasing(Cumsum(xs))
  {
    var c := Cumsum(xs);
    assert xs[..0] == [];
    forall i | 0 <= i < |xs| ensures c[i] <= c[i + 1] {
      CumsumStep(xs, i);
    }
    forall i, j | 0 <= i <= j < |c| ensures c[i] <= c[j] {
      var k := i;
      while k < j
        invariant i <= k <= j && c[i] <= c[k]
      {
        k := k + 1;
      }
    }
  }

  /** The prefix sums of the row lengths are the row offsets. */
  lemma OffsetsCumsum<T>(ss: seq<seq<T>>, lengths: seq<int>)
    requires |lengths| == |ss|
    requires forall i :: 0 <= i < |ss| ==> lengths[i] == |ss[i]|
    ensures Offsets(ss) == Cumsum(lengths)
  {
    assert lengths[..0] == [];
    forall i | 0 <= i < |ss| ensures Cumsum(lengths)[i + 1] - Cumsum(lengths)[i] == |ss[i]| {
      CumsumStep(lengths, i);
    }
    OffsetsFromLengths(ss, Cumsum(lengths));
  }

  /** A sequence that lists every value 0..n-1 exactly once. */
  predicate IsPermutation(p: seq<int>, n: int)
  {
    && |p| == n
    && (forall i :: 0 <= i < |p| ==> 0 <= p[i] < n)
    && Distinct(p)
    && (forall j :: 0 <= j < n ==> j in p)
  }

  /** Scattering `t` through a permutation `ids` (slot ids[k] receives t[k])
      keeps its multiset of values. */
  lemma {:induction false} ScatterMultiset(g: seq<int>, t: seq<int>, ids: seq<int>)
    requires |g| == |t| && (forall i :: 0 <= i < |ids| ==> 0 <= ids[i] < |g|)
    requires |ids| == |t| && Distinct(ids)
    requires forall k :: 0 <= k < |ids| ==> g[ids[k]] == t[k]
    ensures multiset(g) == multiset(t)
    decreases |t|
  {
    if t != [] {
      var n := |t| - 1;
      var j := ids[n];
      var g' := g[..j] + g[j + 1..];
      var ids' := seq(n, k requires 0 <= k < n => if ids[k] < j then ids[k] else ids[k] - 1);
      forall k | 0 <= k < n ensures 0 <= ids'[k] < |g'| && g'[ids'[k]] == t[k] {
        assert ids[k] != j;
      }
      forall a, b | 0 <= a < b < n ensures ids'[a] != ids'[b] {
        assert ids[a] != ids[b] && ids[a] != j && ids[b] != j;
      }
      ScatterMultiset(g', t[..n], ids');
      assert g == g[..j] + [g[j]] + g[j + 1..];
      assert t == t[..n] + [t[n]];
    }
  }

  /** When `t` holds p exactly where f[lo..hi] holds v, p occurs in `t` as
      often as v in f[lo..hi]. */
  lemma CountInRange(t: seq<int>, f: seq<int>, p: int, v: int, lo: int, hi: int)
    requires |t| == |f| && 0 <= lo <= hi <= |t|
    requires forall k :: 0 <= k < |t| ==> (t[k] == p <==> lo <= k < hi && f[k] == v)
    ensures multiset(t)[p] == multiset(f[lo..hi])[v]
  {
    assert t == t[..lo] + t[lo..hi] + t[hi..];
    assert p !in t[..lo] && p !in t[hi..];
    SameHits(t[lo..hi], f[lo..hi], p, v);
  }

  /** Two equally long sequences hit p and v at the same positions, so they hold equally many of them. */
  lemma {:induction false} SameHits(a: seq<int>, b: seq<int>, p: int, v: int)
    requires |a| == |b|
    requires forall k :: 0 <= k < |a| ==> (a[k] == p <==> b[k] == v)
    ensures multiset(a)[p] == multiset(b)[v]
    decreases |a|
  {
    if a != [] {
      var n := |a| - 1;
      SameHits(a[..n], b[..n], p, v);
      assert a == a[..n] + [a[n]] && b == b[..n] + [b[n]];
    }
  }
}
