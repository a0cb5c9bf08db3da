/**
 This module models the small part of numpy's two-dimensional integer arrays
 that the dithering routines use: a shape, zero-filled allocation, rectangular
 slicing, slice assignment, and the element-wise comparison `x > dither`
 converted to 0/1 integers.
 */
module Matrices {

  /** A two-dimensional integer array together with its shape. The shape is kept
      even when there are no rows, as numpy keeps it. */
  datatype Matrix = Matrix(rows: nat, cols: nat, cells: seq<seq<int>>)
  {
    /** The cells form a `rows` by `cols` rectangle. */
    predicate Valid() {
      |cells| == rows && forall r :: 0 <= r < |cells| ==> |cells[r]| == cols
    }

    /** True iff `(r, c)` is an index of this matrix. */
    predicate InBounds(r: int, c: int) {
      0 <= r < rows && 0 <= c < cols
    }

    /** True iff `other` has the same shape as this matrix. */
    predicate SameShape(other: Matrix) {
      rows == other.rows && cols == other.cols
    }
  }

  /** The conversion of a boolean to an integer performed by `.astype(int)`. */
  function Bit(b: bool): (r: int)
    ensures r == 0 || r == 1
    ensures r == 1 <==> b
  {
    if b then 1 else 0
  }

  /** True iff every cell of `m` is 0 or 1. */
  predicate Binary(m: Matrix)
    requires m.Valid()
  {
    forall r, c :: 0 <= r < m.rows && 0 <= c < m.cols ==> m.cells[r][c] == 0 || m.cells[r][c] == 1
  }

  /** `np.zeros((rows, cols))`. */
  function Zeros(rows: nat, cols: nat): (z: Matrix)
    ensures z.Valid() && z.rows == rows && z.cols == cols
    ensures forall r, c :: z.InBounds(r, c) ==> z.cells[r][c] == 0
  {
    Matrix(rows, cols, seq(rows, _ => seq(cols, _ => 0)))
  }

  /** `v > dither`: a scalar compared with every cell of a matrix. */
  function Threshold(v: int, dither: Matrix): (t: Matrix)
    requires dither.Valid()
    ensures t.Valid() && t.SameShape(dither)
    ensures forall k, l :: t.InBounds(k, l) ==> (t.cells[k][l] == 1 <==> v > dither.cells[k][l])
    ensures Binary(t)
  {
    Matrix(dither.rows, dither.cols,
           seq(dither.rows, k requires 0 <= k < dither.rows =>
             seq(dither.cols, l requires 0 <= l < dither.cols => Bit(v > dither.cells[k][l]))))
  }

  /** `a > b` for two matrices of the same shape, compared cell by cell. */
  function CompareCells(a: Matrix, b: Matrix): (t: Matrix)
    requires a.Valid() && b.Valid() && a.SameShape(b)
    ensures t.Valid() && t.SameShape(a)
    ensures forall k, l :: t.InBounds(k, l) ==> (t.cells[k][l] == 1 <==> a.cells[k][l] > b.cells[k][l])
    ensures Binary(t)
  {
    Matrix(a.rows, a.cols,
           seq(a.rows, k requires 0 <= k < a.rows =>
             seq(a.cols, l requires 0 <= l < a.cols => Bit(a.cells[k][l] > b.cells[k][l]))))
  }

  /** `m[top:top+h, left:left+w]` for a window that lies inside `m`. */
  function SubMatrix(m: Matrix, top: nat, left: nat, h: nat, w: nat): (s: Matrix)
    requires m.Valid() && top + h <= m.rows && left + w <= m.cols
    ensures s.Valid() && s.rows == h && s.cols == w
    ensures forall k, l :: s.InBounds(k, l) ==> s.cells[k][l] == m.cells[top + k][left + l]
  {
    Matrix(h, w, seq(h, k requires 0 <= k < h => m.cells[top + k][left .. left + w]))
  }

  /** True iff `(r, c)` lies in the `h` by `w` window whose corner is `(top, left)`. */
  predicate InWindow(r: int, c: int, top: int, left: int, h: int, w: int) {
    top <= r < top + h && left <= c < left + w
  }

  /** `m[top:top+b.rows, left:left+b.cols] = b`: the window is overwritten with
      `b` and every other cell keeps its value. */
  function PasteBlock(m: Matrix, top: nat, left: nat, b: Matrix): (p: Matrix)
    requires m.Valid() && b.Valid() && top + b.rows <= m.rows && left + b.cols <= m.cols
    ensures p.Valid() && p.SameShape(m)
    ensures SubMatrix(p, top, left, b.rows, b.cols) == b
    ensures forall r, c :: p.InBounds(r, c) && InWindow(r, c, top, left, b.rows, b.cols) ==>
              p.cells[r][c] == b.cells[r - top][c - left]
    ensures forall r, c :: p.InBounds(r, c) && !InWindow(r, c, top, left, b.rows, b.cols) ==>
              p.cells[r][c] == m.cells[r][c]
  {
    var p := Matrix(m.rows, m.cols,
                    seq(m.rows, r requires 0 <= r < m.rows =>
                      seq(m.cols, c requires 0 <= c < m.cols =>
                        if InWindow(r, c, top, left, b.rows, b.cols) then b.cells[r - top][c - left]
                        else m.cells[r][c])));
    CellwiseEqual(SubMatrix(p, top, left, b.rows, b.cols), b);
    p
  }

  /** Two valid matrices of one shape that agree on every cell are equal. */
  lemma CellwiseEqual(a: Matrix, b: Matrix)
    requires a.Valid() && b.Valid() && a.SameShape(b)
    requires forall r, c :: a.InBounds(r, c) ==> a.cells[r][c] == b.cells[r][c]
    ensures a == b
  {
    forall r | 0 <= r < a.rows
      ensures a.cells[r] == b.cells[r]
    {
      assert forall c :: 0 <= c < a.cols ==> a.InBounds(r, c);
    }
  }

  /** The progress of a block-by-block fill of `spec` into a zero image: every
      row above `top`, and the band `top .. bottom - 1` left of column `left`,
      already hold `spec`; every other cell is still 0. */
  ghost predicate FilledUpTo(out: Matrix, spec: Matrix, top: int, bottom: int, left: int)
    requires out.Valid() && spec.Valid() && out.SameShape(spec)
  {
    forall r, c :: out.InBounds(r, c) ==>
      out.cells[r][c] == (if r < top || (r < bottom && c < left) then spec.cells[r][c] else 0)
  }

  /** Pasting the next block of `spec` extends the filled band by its width. */
  lemma PasteExtendsFill(out: Matrix, spec: Matrix, top: nat, left: nat, b: Matrix)
    requires out.Valid() && spec.Valid() && out.SameShape(spec) && b.Valid()
    requires top + b.rows <= spec.rows && left + b.cols <= spec.cols
    requires b == SubMatrix(spec, top, left, b.rows, b.cols)
    requires FilledUpTo(out, spec, top, top + b.rows, left)
    ensures PasteBlock(out, top, left, b).Valid() && PasteBlock(out, top, left, b).SameShape(spec)
    ensures FilledUpTo(PasteBlock(out, top, left, b), spec, top, top + b.rows, left + b.cols)
  {
    var p := PasteBlock(out, top, left, b);
    forall r, c | p.InBounds(r, c)
      ensures p.cells[r][c] == (if r < top || (r < top + b.rows && c < left + b.cols) then spec.cells[r][c] else 0)
    {
      if InWindow(r, c, top, left, b.rows, b.cols) {
        assert p.cells[r][c] == b.cells[r - top][c - left];
      } else {
        assert p.cells[r][c] == out.cells[r][c];
      }
    }
  }

  /** A band filled across its whole width counts as filled rows. */
  lemma FillBandDone(out: Matrix, spec: Matrix, top: int, bottom: int, left: int, bottom': int)
    requires out.Valid() && spec.Valid() && out.SameShape(spec)
    requires FilledUpTo(out, spec, top, bottom, left) && top <= bottom && left >= spec.cols
    ensures FilledUpTo(out, spec, bottom, bottom', 0)
  {
  }

  /** A fill that has passed every row is the whole of `spec`. */
  lemma FillDone(out: Matrix, spec: Matrix, top: int, bottom: int, left: int)
    requires out.Valid() && spec.Valid() && out.SameShape(spec)
    requires FilledUpTo(out, spec, top, bottom, left) && top >= spec.rows
    ensures out == spec
  {
    CellwiseEqual(out, spec);
  }

  /** The sum of the elements of `s`. */
  function Sum(s: seq<int>): (t: int) {
    if |s| == 0 then 0 else s[0] + Sum(s[1..])
  }

  /** The sum of all cells of `m`; for a 0/1 matrix, the number of ones. */
  function Total(m: Matrix): (t: int) {
    SumRows(m.cells)
  }

  /** The sum of all elements of the rows `rs`. */
  function SumRows(rs: seq<seq<int>>): (t: int) {
    if |rs| == 0 then 0 else Sum(rs[0]) + SumRows(rs[1..])
  }
}
