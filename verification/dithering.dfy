/**
 Expanding dithering (`apply_dithering`): every normalised pixel `v` becomes a
 block of the dither matrix's shape whose cell `(k, l)` is 1 when
 `v > dither[k][l]` and 0 otherwise, so the output is `dither.rows` times taller
 and `dither.cols` times wider than the input.
 */
module Dithering {
  import opened Matrices
  import opened Normalization
  import opened Blocks

  /** `DITHER_MATRIX`, the default 2 by 2 dither matrix. */
  const DitherMatrix: Matrix := Matrix(2, 2, [[0, 3], [2, 1]])

  /** The number of quantisation levels used with `dither`: one more than its
      number of cells, which is `n * n + 1` for an `n` by `n` matrix. */
  function IntensityLevel(dither: Matrix): (level: int)
    ensures level >= 1
  {
    dither.rows * dither.cols + 1
  }

  /** The image of normalised levels that both dithering routines compare
      against the dither matrix. */
  function Normalized(image: Matrix, dither: Matrix): (n: Matrix)
    requires image.Valid()
    ensures n.Valid() && n.SameShape(image)
  {
    NormalizeImage(image, IntensityLevel(dither), DefaultMaximum)
  }

  /** Cell `(r, c)` of the expanded image, defined directly from its index:
      it belongs to the block of pixel `(r / dr, c / dc)`, at offset
      `(r % dr, c % dc)` inside that block. */
  function ExpandedCell(norm: Matrix, dither: Matrix, r: int, c: int): (b: int)
    requires norm.Valid() && dither.Valid()
    requires 0 <= r < norm.rows * dither.rows && 0 <= c < norm.cols * dither.cols
  {
    BlockBelow(r, norm.rows, dither.rows);
    BlockBelow(c, norm.cols, dither.cols);
    Bit(norm.cells[r / dither.rows][c / dither.cols] > dither.cells[r % dither.rows][c % dither.cols])
  }

  /** The expanded image of a normalised image, as a per-cell formula. */
  function ExpandedImage(norm: Matrix, dither: Matrix): (e: Matrix)
    requires norm.Valid() && dither.Valid()
    ensures e.Valid()
    ensures e.rows == norm.rows * dither.rows && e.cols == norm.cols * dither.cols
    ensures Binary(e)
  {
    var R, C := norm.rows * dither.rows, norm.cols * dither.cols;
    Matrix(R, C, seq(R, r requires 0 <= r < R => seq(C, c requires 0 <= c < C => ExpandedCell(norm, dither, r, c))))
  }

  /** The result of `apply_dithering(image, dither)`. */
  function DitherExpanded(image: Matrix, dither: Matrix): (e: Matrix)
    requires image.Valid() && dither.Valid()
    ensures e.Valid()
    ensures e.rows == image.rows * dither.rows && e.cols == image.cols * dither.cols
    ensures Binary(e)
  {
    ExpandedImage(Normalized(image, dither), dither)
  }

  /** Cell `(k, l)` of the block of pixel `(i, j)` compares that pixel's
      level with `dither[k][l]`. */
  lemma ExpandedBlockCell(norm: Matrix, dither: Matrix, i: int, j: int, k: int, l: int)
    requires norm.Valid() && dither.Valid() && norm.InBounds(i, j) && dither.InBounds(k, l)
    ensures 0 <= i * dither.rows + k < norm.rows * dither.rows
    ensures 0 <= j * dither.cols + l < norm.cols * dither.cols
    ensures ExpandedImage(norm, dither).cells[i * dither.rows + k][j * dither.cols + l]
            == Bit(norm.cells[i][j] > dither.cells[k][l])
  {
    var dr, dc := dither.rows, dither.cols;
    BlockInside(i, norm.rows, dr);
    BlockInside(j, norm.cols, dc);
    BlockOf(i * dr + k, i, dr);
    BlockOf(j * dc + l, j, dc);
  }

  /** The block of the expanded image that belongs to pixel `(i, j)` is the
      comparison `norm[i][j] > dither`. */
  lemma ExpandedBlock(norm: Matrix, dither: Matrix, i: int, j: int)
    requires norm.Valid() && dither.Valid() && norm.InBounds(i, j)
    ensures 0 <= i * dither.rows && i * dither.rows + dither.rows <= norm.rows * dither.rows
    ensures 0 <= j * dither.cols && j * dither.cols + dither.cols <= norm.cols * dither.cols
    ensures SubMatrix(ExpandedImage(norm, dither), i * dither.rows, j * dither.cols, dither.rows, dither.cols)
            == Threshold(norm.cells[i][j], dither)
  {
    var dr, dc := dither.rows, dither.cols;
    BlockInside(i, norm.rows, dr);
    BlockInside(j, norm.cols, dc);
    var s := SubMatrix(ExpandedImage(norm, dither), i * dr, j * dc, dr, dc);
    var t := Threshold(norm.cells[i][j], dither);
    forall k, l | s.InBounds(k, l)
      ensures s.cells[k][l] == t.cells[k][l]
    {
      ExpandedBlockCell(norm, dither, i, j, k, l);
    }
    CellwiseEqual(s, t);
  }

  /** The blocks cover the expanded image: every cell `(r, c)` is cell
      `(r % dr, c % dc)` of the block of pixel `(r / dr, c / dc)`, and both
      lie in range. */
  lemma ExpandedCellCovered(norm: Matrix, dither: Matrix, r: int, c: int)
    requires norm.Valid() && dither.Valid()
    requires 0 <= r < norm.rows * dither.rows && 0 <= c < norm.cols * dither.cols
    ensures norm.InBounds(r / dither.rows, c / dither.cols)
    ensures dither.InBounds(r % dither.rows, c % dither.cols)
    ensures r == (r / dither.rows) * dither.rows + r % dither.rows
    ensures c == (c / dither.cols) * dither.cols + c % dither.cols
  {
    BlockBelow(r, norm.rows, dither.rows);
    BlockBelow(c, norm.cols, dither.cols);
  }

  /** The blocks are disjoint: a cell of the expanded image written as cell
      `(k, l)` of the block of pixel `(i, j)` has `(i, j) == (r / dr, c / dc)`
      and `(k, l) == (r % dr, c % dc)`, so it lies in no other block. */
  lemma ExpandedCellOwner(norm: Matrix, dither: Matrix, r: int, c: int, i: int, j: int, k: int, l: int)
    requires norm.Valid() && dither.Valid()
    requires 0 <= r < norm.rows * dither.rows && 0 <= c < norm.cols * dither.cols
    requires dither.InBounds(k, l)
    requires r == i * dither.rows + k && c == j * dither.cols + l
    ensures norm.InBounds(i, j)
    ensures i == r / dither.rows && k == r % dither.rows
    ensures j == c / dither.cols && l == c % dither.cols
  {
    BlockBelow(r, norm.rows, dither.rows);
    BlockBelow(c, norm.cols, dither.cols);
    BlockOf(r, i, dither.rows);
    BlockOf(c, j, dither.cols);
  }

  /** `apply_dithering(image, dither)`: allocate a zero image of the expanded
      shape and paste, pixel by pixel, the block `norm[i][j] > dither` at
      `(i * dither.rows, j * dither.cols)`. */
  method ApplyDithering(image: Matrix, dither: Matrix) returns (out: Matrix)
    requires image.Valid() && dither.Valid()
    ensures out == ExpandedImage(Normalized(image, dither), dither)
    ensures out.Valid() && out.rows == image.rows * dither.rows && out.cols == image.cols * dither.cols
  {
    out := ExpandBlocks(Normalized(image, dither), dither);
  }

  /** The loop of `apply_dithering` over an already normalised image. */
  method ExpandBlocks(norm: Matrix, dither: Matrix) returns (out: Matrix)
    requires norm.Valid() && dither.Valid()
    ensures out == ExpandedImage(norm, dither)
  {
    var dr, dc := dither.rows, dither.cols;
    var R, C := norm.rows * dr, norm.cols * dc;
    ghost var spec := ExpandedImage(norm, dither);
    out := Zeros(R, C);
    var i, top := 0, 0;
    while i < norm.rows
      invariant 0 <= i <= norm.rows && top == i * dr
      invariant out.Valid() && out.SameShape(spec)
      invariant FilledUpTo(out, spec, top, top + dr, 0)
    {
      var j, left := 0, 0;
      while j < norm.cols
        invariant 0 <= j <= norm.cols && left == j * dc
        invariant out.Valid() && out.SameShape(spec)
        invariant FilledUpTo(out, spec, top, top + dr, left)
      {
        ExpandedBlock(norm, dither, i, j);
        var block := Threshold(norm.cells[i][j], dither);
        PasteExtendsFill(out, spec, top, left, block);
        out := PasteBlock(out, top, left, block);
        NextProduct(j, dc);
        j, left := j + 1, left + dc;
      }
      FillBandDone(out, spec, top, top + dr, left, top + dr + dr);
      NextProduct(i, dr);
      i, top := i + 1, top + dr;
    }
    FillDone(out, spec, top, top + dr, 0);
  }
}
