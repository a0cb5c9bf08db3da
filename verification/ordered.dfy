/**
 Ordered dithering (`apply_ordered_dithering`): the image keeps its shape, and
 each normalised pixel is compared with the dither cell at the same position
 inside its block, `dither[r % dr][c % dc]`. The image must tile exactly into
 blocks of the dither matrix's shape.
 */
module OrderedDithering {
  import opened Matrices
  import opened Normalization
  import opened Blocks
  import opened Dithering

  /** The ways `apply_ordered_dithering` fails: a `%` by a zero dimension of the
      dither matrix (ZeroDivisionError), or one of its two shape assertions. */
  datatype DitherError = DivisionByZero | RowsNotDivisible | ColsNotDivisible

  datatype Result<T> = Ok(value: T) | Err(error: DitherError)

  /** The failure, if any, of the shape checks, in the order the source
      evaluates them: the row check first, then the column check. */
  function ShapeError(image: Matrix, dither: Matrix): (e: Result<()>)
    ensures e.Ok? <==> dither.rows > 0 && dither.cols > 0
                       && image.rows % dither.rows == 0 && image.cols % dither.cols == 0
    ensures e == Err(RowsNotDivisible) <==> dither.rows > 0 && image.rows % dither.rows != 0
    ensures e == Err(ColsNotDivisible) <==>
              dither.rows > 0 && image.rows % dither.rows == 0 && dither.cols > 0 && image.cols % dither.cols != 0
  {
    if dither.rows == 0 then Err(DivisionByZero)
    else if image.rows % dither.rows != 0 then Err(RowsNotDivisible)
    else if dither.cols == 0 then Err(DivisionByZero)
    else if image.cols % dither.cols != 0 then Err(ColsNotDivisible)
    else Ok(())
  }

  /** True iff the image tiles exactly into blocks of the dither matrix's shape. */
  predicate Tiles(image: Matrix, dither: Matrix) {
    dither.rows > 0 && dither.cols > 0 && image.rows % dither.rows == 0 && image.cols % dither.cols == 0
  }

  /** The ordered-dithered image of a normalised image, as a per-cell formula. */
  function OrderedImage(norm: Matrix, dither: Matrix): (o: Matrix)
    requires norm.Valid() && dither.Valid() && dither.rows > 0 && dither.cols > 0
    ensures o.Valid() && o.SameShape(norm)
    ensures Binary(o)
  {
    Matrix(norm.rows, norm.cols,
           seq(norm.rows, r requires 0 <= r < norm.rows =>
             seq(norm.cols, c requires 0 <= c < norm.cols =>
               Bit(norm.cells[r][c] > dither.cells[r % dither.rows][c % dither.cols]))))
  }

  /** The result of `apply_ordered_dithering(image, dither)`. */
  function DitherOrdered(image: Matrix, dither: Matrix): (res: Result<Matrix>)
    requires image.Valid() && dither.Valid()
    ensures res.Ok? <==> Tiles(image, dither)
    ensures res.Ok? ==> res.value.Valid() && res.value.SameShape(image) && Binary(res.value)
  {
    match ShapeError(image, dither)
    case Err(e) => Err(e)
    case Ok(_) => Ok(OrderedImage(Normalized(image, dither), dither))
  }

  /** Within the block whose corner is `(i, j)`, on a grid of multiples of the
      dither shape, cell `(i + k, j + l)` is compared with `dither[k][l]`. */
  lemma OrderedBlockCell(norm: Matrix, dither: Matrix, i: int, j: int, k: int, l: int)
    requires norm.Valid() && dither.Valid() && dither.rows > 0 && dither.cols > 0
    requires i % dither.rows == 0 && j % dither.cols == 0
    requires dither.InBounds(k, l) && norm.InBounds(i + k, j + l)
    ensures OrderedImage(norm, dither).cells[i + k][j + l] == Bit(norm.cells[i + k][j + l] > dither.cells[k][l])
  {
    OffsetInBlock(i + k, i, dither.rows);
    OffsetInBlock(j + l, j, dither.cols);
  }

  /** The block the source computes at corner `(i, j)`, `norm[i:i+dr, j:j+dc] > dither`,
      is the same block of the per-cell formula. */
  lemma OrderedBlock(norm: Matrix, dither: Matrix, i: nat, j: nat)
    requires norm.Valid() && dither.Valid() && dither.rows > 0 && dither.cols > 0
    requires i % dither.rows == 0 && j % dither.cols == 0
    requires i + dither.rows <= norm.rows && j + dither.cols <= norm.cols
    ensures CompareCells(SubMatrix(norm, i, j, dither.rows, dither.cols), dither)
            == SubMatrix(OrderedImage(norm, dither), i, j, dither.rows, dither.cols)
  {
    var window := SubMatrix(norm, i, j, dither.rows, dither.cols);
    var a := CompareCells(window, dither);
    var b := SubMatrix(OrderedImage(norm, dither), i, j, dither.rows, dither.cols);
    forall k, l | a.InBounds(k, l)
      ensures a.cells[k][l] == b.cells[k][l]
    {
      OrderedBlockCell(norm, dither, i, j, k, l);
      assert window.cells[k][l] == norm.cells[i + k][j + l];
    }
    CellwiseEqual(a, b);
  }

  /** `apply_ordered_dithering(image, dither)`: check the shape, allocate a zero
      image of the same shape, and for every block corner `(i, j)` paste
      `norm[i:i+dr, j:j+dc] > dither` back at `(i, j)`. */
  method ApplyOrderedDithering(image: Matrix, dither: Matrix) returns (res: Result<Matrix>)
    requires image.Valid() && dither.Valid()
    ensures res.Err? <==> !Tiles(image, dither)
    ensures res.Err? ==> ShapeError(image, dither) == Err(res.error)
    ensures res == DitherOrdered(image, dither)
    ensures res.Ok? ==> res.value == OrderedImage(Normalized(image, dither), dither)
  {
    var norm := Normalized(image, dither);
    var check := ShapeError(image, dither);
    if check.Err? {
      return Err(check.error);
    }
    var out := OrderBlocks(norm, dither);
    res := Ok(out);
  }

  /** The block loop of `apply_ordered_dithering` over an already normalised
      image that tiles into dither blocks. */
  method OrderBlocks(norm: Matrix, dither: Matrix) returns (out: Matrix)
    requires norm.Valid() && dither.Valid() && dither.rows > 0 && dither.cols > 0
    requires norm.rows % dither.rows == 0 && norm.cols % dither.cols == 0
    ensures out == OrderedImage(norm, dither)
  {
    var dr, dc := dither.rows, dither.cols;
    ghost var spec := OrderedImage(norm, dither);
    out := Zeros(norm.rows, norm.cols);
    var i := 0;
    while i < norm.rows
      invariant 0 <= i <= norm.rows && i % dr == 0
      invariant out.Valid() && out.SameShape(spec)
      invariant FilledUpTo(out, spec, i, i + dr, 0)
    {
      NextBlockStart(i, norm.rows, dr);
      var j := 0;
      while j < norm.cols
        invariant 0 <= j <= norm.cols && j % dc == 0
        invariant out.Valid() && out.SameShape(spec)
        invariant FilledUpTo(out, spec, i, i + dr, j)
      {
        NextBlockStart(j, norm.cols, dc);
        var block := CompareCells(SubMatrix(norm, i, j, dr, dc), dither);
        OrderedBlock(norm, dither, i, j);
        PasteExtendsFill(out, spec, i, j, block);
        out := PasteBlock(out, i, j, block);
        NextMultiple(j, dc);
        j := j + dc;
      }
      FillBandDone(out, spec, i, i + dr, j, i + dr + dr);
      NextMultiple(i, dr);
      i := i + dr;
    }
    FillDone(out, spec, i, i + dr, 0);
  }

  /** The image `m` with every pixel repeated as an `h` by `w` block. */
  function Upsample(m: Matrix, h: nat, w: nat): (u: Matrix)
    requires m.Valid()
    ensures u.Valid() && u.rows == m.rows * h && u.cols == m.cols * w
  {
    var R, C := m.rows * h, m.cols * w;
    Matrix(R, C, seq(R, r requires 0 <= r < R => seq(C, c requires 0 <= c < C => UpsampleCell(m, h, w, r, c))))
  }

  /** Cell `(r, c)` of `Upsample(m, h, w)`: the pixel of the block it lies in. */
  function UpsampleCell(m: Matrix, h: nat, w: nat, r: int, c: int): (p: int)
    requires m.Valid() && 0 <= r < m.rows * h && 0 <= c < m.cols * w
  {
    BlockBelow(r, m.rows, h);
    BlockBelow(c, m.cols, w);
    m.cells[r / h][c / w]
  }

  /** The two routines agree: ordered dithering of an image whose pixels are
      repeated in blocks of the dither's shape is the expanding dithering of
      the original image. */
  lemma OrderedOfUpsampled(image: Matrix, dither: Matrix)
    requires image.Valid() && dither.Valid() && dither.rows > 0 && dither.cols > 0
    ensures DitherOrdered(Upsample(image, dither.rows, dither.cols), dither) == Ok(DitherExpanded(image, dither))
  {
    var dr, dc := dither.rows, dither.cols;
    var level := IntensityLevel(dither);
    var up := Upsample(image, dr, dc);
    MultipleOf(image.rows, dr);
    MultipleOf(image.cols, dc);
    assert Tiles(up, dither);
    var nu, ni := Normalized(up, dither), Normalized(image, dither);
    var a := OrderedImage(nu, dither);
    var b := DitherExpanded(image, dither);
    forall r, c | a.InBounds(r, c)
      ensures a.cells[r][c] == b.cells[r][c]
    {
      BlockBelow(r, image.rows, dr);
      BlockBelow(c, image.cols, dc);
      var p := image.cells[r / dr][c / dc];
      assert up.cells[r][c] == p;
      QuantizeUnique(p, level, DefaultMaximum, nu.cells[r][c]);
      QuantizeUnique(p, level, DefaultMaximum, ni.cells[r / dr][c / dc]);
    }
    CellwiseEqual(a, b);
  }
}
