/**
 How many cells of a dither block are lit. When the dither matrix holds each of
 the ranks `0 .. n - 1` exactly once (`n` its number of cells), the block
 `v > dither` of a level `v` in `0 .. n` has exactly `v` ones, so the
 `n + 1` levels of `normalize_image` are rendered as `n + 1` distinct grey
 shades. `DITHER_MATRIX` is such a matrix.
 */
module BlockCounting {
  import opened Matrices
  import opened Normalization
  import opened Blocks
  import opened Dithering

  /** The cells of the rows `rs`, row after row. */
  function Flatten(rs: seq<seq<int>>): (f: seq<int>) {
    if |rs| == 0 then [] else rs[0] + Flatten(rs[1..])
  }

  /** The sequence `0, 1, .., n - 1`. */
  function Range(n: nat): (s: seq<int>)
    ensures |s| == n && forall i :: 0 <= i < n ==> s[i] == i
  {
    seq(n, i => i)
  }

  /** True iff `dither` holds each of the values `0 .. cells - 1` exactly once. */
  predicate IsRankMatrix(dither: Matrix) {
    multiset(Flatten(dither.cells)) == multiset(Range(dither.rows * dither.cols))
  }

  /** The number of elements of `s` below `v`. */
  function CountBelow(s: seq<int>, v: int): (n: nat)
    ensures n <= |s|
  {
    if |s| == 0 then 0 else (if s[0] < v then 1 else 0) + CountBelow(s[1..], v)
  }

  /** The row `v > row`, as 0/1 integers. */
  function BitsAbove(v: int, row: seq<int>): (b: seq<int>)
    ensures |b| == |row|
  {
    seq(|row|, l requires 0 <= l < |row| => Bit(v > row[l]))
  }

  lemma {:induction false} CountBelowConcat(a: seq<int>, b: seq<int>, v: int)
    ensures CountBelow(a + b, v) == CountBelow(a, v) + CountBelow(b, v)
    decreases |a|
  {
    if |a| == 0 {
      assert a + b == b;
    } else {
      assert (a + b)[1..] == a[1..] + b;
      CountBelowConcat(a[1..], b, v);
    }
  }

  /** Removing the element at index `k` lowers the count by one exactly when
      that element is below `v`. */
  lemma CountBelowRemove(t: seq<int>, k: int, v: int)
    requires 0 <= k < |t|
    ensures CountBelow(t, v) == CountBelow(t[..k] + t[k + 1..], v) + (if t[k] < v then 1 else 0)
  {
    assert t == t[..k] + ([t[k]] + t[k + 1..]);
    CountBelowConcat(t[..k], [t[k]] + t[k + 1..], v);
    CountBelowConcat([t[k]], t[k + 1..], v);
    CountBelowConcat(t[..k], t[k + 1..], v);
  }

  /** Removing an element from both sides of a multiset equality keeps it. */
  lemma RemoveFromBoth(s: seq<int>, t: seq<int>, k: int)
    requires |s| > 0 && 0 <= k < |t| && t[k] == s[0] && multiset(s) == multiset(t)
    ensures multiset(s[1..]) == multiset(t[..k] + t[k + 1..])
  {
    assert t == t[..k] + [t[k]] + t[k + 1..];
    assert s == [s[0]] + s[1..];
    assert multiset(s[1..]) == multiset(s) - multiset{s[0]};
    assert multiset(t[..k] + t[k + 1..]) == multiset(t) - multiset{t[k]};
  }

  /** The count depends only on the multiset of elements, not on their order. */
  lemma {:induction false} CountBelowPermutation(s: seq<int>, t: seq<int>, v: int)
    requires multiset(s) == multiset(t)
    ensures CountBelow(s, v) == CountBelow(t, v)
    decreases |s|
  {
    if |s| == 0 {
      assert |multiset(t)| == 0;
      assert t == [];
    } else {
      assert s[0] in multiset(t);
      var k :| 0 <= k < |t| && t[k] == s[0];
      RemoveFromBoth(s, t, k);
      CountBelowPermutation(s[1..], t[..k] + t[k + 1..], v);
      CountBelowRemove(t, k, v);
    }
  }

  /** Below a non-negative `v`, `0 .. n - 1` has `min(v, n)` elements. */
  lemma {:induction false} CountBelowRange(n: nat, v: int)
    requires v >= 0
    ensures CountBelow(Range(n), v) == if v <= n then v else n
  {
    if n > 0 {
      assert Range(n) == Range(n - 1) + [n - 1];
      CountBelowConcat(Range(n - 1), [n - 1], v);
      CountBelowRange(n - 1, v);
    }
  }

  /** A 0/1 row sums to the number of its cells below `v`. */
  lemma {:induction false} SumBitsAbove(v: int, row: seq<int>)
    ensures Sum(BitsAbove(v, row)) == CountBelow(row, v)
    decreases |row|
  {
    if |row| > 0 {
      assert BitsAbove(v, row)[1..] == BitsAbove(v, row[1..]);
      SumBitsAbove(v, row[1..]);
    }
  }

  /** The rows `v > rs[k]` together hold as many ones as `rs` has cells below `v`. */
  lemma {:induction false} SumRowsBitsAbove(v: int, rs: seq<seq<int>>)
    ensures SumRows(seq(|rs|, k requires 0 <= k < |rs| => BitsAbove(v, rs[k]))) == CountBelow(Flatten(rs), v)
    decreases |rs|
  {
    if |rs| > 0 {
      var bits := seq(|rs|, k requires 0 <= k < |rs| => BitsAbove(v, rs[k]));
      assert bits[1..] == seq(|rs[1..]|, k requires 0 <= k < |rs[1..]| => BitsAbove(v, rs[1..][k]));
      SumRowsBitsAbove(v, rs[1..]);
      SumBitsAbove(v, rs[0]);
      CountBelowConcat(rs[0], Flatten(rs[1..]), v);
    }
  }

  /** The block `v > dither` holds one 1 per dither cell below `v`. */
  lemma ThresholdOnes(v: int, dither: Matrix)
    requires dither.Valid()
    ensures Total(Threshold(v, dither)) == CountBelow(Flatten(dither.cells), v)
  {
    var rs := dither.cells;
    forall k | 0 <= k < |rs|
      ensures Threshold(v, dither).cells[k] == BitsAbove(v, rs[k])
    {
    }
    assert Threshold(v, dither).cells == seq(|rs|, k requires 0 <= k < |rs| => BitsAbove(v, rs[k]));
    SumRowsBitsAbove(v, rs);
  }

  /** With a rank matrix, the block of a level `v` in `0 .. n` holds exactly `v` ones. */
  lemma RankBlockOnes(v: int, dither: Matrix)
    requires dither.Valid() && IsRankMatrix(dither)
    requires 0 <= v <= dither.rows * dither.cols
    ensures Total(Threshold(v, dither)) == v
  {
    ThresholdOnes(v, dither);
    CountBelowPermutation(Flatten(dither.cells), Range(dither.rows * dither.cols), v);
    CountBelowRange(dither.rows * dither.cols, v);
  }

  /** In the expanded image, the block of a pixel in `[0, 256)` holds as many
      ones as the pixel's quantised level, when the dither is a rank matrix. */
  lemma PixelBlockOnes(image: Matrix, dither: Matrix, i: int, j: int)
    requires image.Valid() && dither.Valid() && IsRankMatrix(dither)
    requires image.InBounds(i, j) && 0 <= image.cells[i][j] < DefaultMaximum
    ensures 0 <= i * dither.rows && i * dither.rows + dither.rows <= image.rows * dither.rows
    ensures 0 <= j * dither.cols && j * dither.cols + dither.cols <= image.cols * dither.cols
    ensures Total(SubMatrix(DitherExpanded(image, dither), i * dither.rows, j * dither.cols, dither.rows, dither.cols))
            == Quantize(image.cells[i][j], IntensityLevel(dither), DefaultMaximum)
  {
    var norm := Normalized(image, dither);
    var v := Quantize(image.cells[i][j], IntensityLevel(dither), DefaultMaximum);
    QuantizeUnique(image.cells[i][j], IntensityLevel(dither), DefaultMaximum, norm.cells[i][j]);
    QuantizeRange(image.cells[i][j], IntensityLevel(dither), DefaultMaximum);
    ExpandedBlock(norm, dither, i, j);
    RankBlockOnes(v, dither);
  }

  /** `DITHER_MATRIX` holds each of `0, 1, 2, 3` once. */
  lemma DitherMatrixIsRank()
    ensures DitherMatrix.Valid() && IsRankMatrix(DitherMatrix)
  {
    var rows := DitherMatrix.cells;
    assert Flatten(rows[1..]) == [2, 1] + Flatten(rows[2..]);
    assert Flatten(rows) == [0, 3, 2, 1];
    assert Range(4) == [0, 1, 2, 3];
    assert multiset([0, 3, 2, 1]) == multiset([0, 1, 2, 3]);
  }

  /** With `DITHER_MATRIX`, a pixel in `[0, 256)` becomes a 2 by 2 block with
      exactly `floor(5 p / 256)` ones. */
  lemma DefaultPixelBlockOnes(image: Matrix, i: int, j: int)
    requires image.Valid() && image.InBounds(i, j) && 0 <= image.cells[i][j] < 256
    ensures 0 <= 2 * i && 2 * i + 2 <= 2 * image.rows && 0 <= 2 * j && 2 * j + 2 <= 2 * image.cols
    ensures Total(SubMatrix(DitherExpanded(image, DitherMatrix), 2 * i, 2 * j, 2, 2))
            == (5 * image.cells[i][j]) / 256
  {
    var p := image.cells[i][j];
    DitherMatrixIsRank();
    assert IntensityLevel(DitherMatrix) == 5;
    assert i * DitherMatrix.rows == 2 * i && j * DitherMatrix.cols == 2 * j;
    assert Quantize(p, 5, DefaultMaximum) == (5 * p) / 256 by {
      assert p * 5 == 5 * p;
    }
    PixelBlockOnes(image, DitherMatrix, i, j);
  }
}
