# Ordered and expanding image dithering, in Dafny

This project models the image-dithering routines of a small data-compression
repository, `Dithering/image_dithering.py`. Each routine turns a greyscale
integer image into a 0/1 image, in one of two ways.

- `normalize_image` quantises every pixel `p` to a level
  `floor(p * L / maximum)`. Here `L = rows(dither) * cols(dither) + 1` and
  `maximum = 256`.
- `apply_dithering` replaces each level `v` with a block the shape of the dither
  matrix. The block's cell `(k, l)` is `v > dither[k][l]`, so the output is
  `rows(dither)` times taller and `cols(dither)` times wider than the input.
- `apply_ordered_dithering` keeps the image's shape. It compares each level with
  the dither cell at the same position inside its block,
  `dither[r % rows(dither)][c % cols(dither)]`. The image must tile exactly into
  such blocks.
- `DITHER_MATRIX` is the 2 by 2 default dither `[[0, 3], [2, 1]]`.

Modules:

- `Matrices` (matrices.dfy) holds a numpy-like integer array with its shape. It
  models zero allocation, slicing (`SubMatrix`), slice assignment
  (`PasteBlock`) and the comparisons `v > dither` and `a > dither`
  (`Threshold`, `CompareCells`).
- `Normalization` (normalization.dfy) holds `normalize_image`.
- `Blocks` (blocks.dfy) holds the index arithmetic of a grid cut into blocks.
- `Dithering` (dithering.dfy) holds `apply_dithering`. `ApplyDithering` mirrors
  the source's loop: it pastes one block per pixel into a zero image. It is
  proved equal to `ExpandedImage`, a formula that defines every output cell
  directly from its index.
- `OrderedDithering` (ordered.dfy) holds `apply_ordered_dithering`.
  `ApplyOrderedDithering` mirrors its block loop. It is proved equal to the
  per-cell formula `OrderedImage`, or to the error the source raises.
  `OrderedOfUpsampled` relates the two routines.
- `BlockCounting` (counting.dfy) counts the lit cells of a block. Take a dither
  matrix that holds each rank `0 .. n - 1` once, as `DITHER_MATRIX` does. Then a
  pixel in `[0, 256)` becomes a block with exactly as many ones as its level.

The normalisation is integer floor division `(p * L) / maximum` with
`maximum > 0`. The source computes `floor((p / maximum) * L)` in floating
point. With the default `maximum = 256`, a power of two, `p / 256` is exact, and
both give the same result as long as `|p * L| < 2 ** 53`, so that the product
with `L` is exact too. No call site passes another `maximum`.
Dafny's `/` with a positive divisor rounds down, as `floor` does, so negative
pixels agree too.

The `normalize_image` doc comment asks for `L = n ** 2 + 1` for an `n` by `n`
dither matrix. The code computes `rows * cols + 1`, which also covers
rectangular matrices. The model follows the code.

`apply_ordered_dithering` can fail in four ways, in this order:

1. `rows % 0` raises a ZeroDivisionError when the dither has no rows.
2. The row assertion fails.
3. `cols % 0` raises a ZeroDivisionError when the dither has no columns.
4. The column assertion fails.

The model returns `Err(DivisionByZero)`, `Err(RowsNotDivisible)` or
`Err(ColsNotDivisible)` in that same order.

## Model

| member | source | states |
|---|---|---|
| Normalization.Quantize | Dithering/image_dithering.py:63 | the level `q` of pixel `p` satisfies `q * maximum <= p * L < (q + 1) * maximum`, so it is the floor of `p * L / maximum` |
| Normalization.QuantizeUnique | Dithering/image_dithering.py:63 | any integer in that bracket equals the computed level, so the level is exactly the floor and nothing else |
| Normalization.QuantizeMonotone | Dithering/image_dithering.py:63 | for `L >= 0`, `p <= p'` implies `level(p) <= level(p')` |
| Normalization.QuantizeRange | Dithering/image_dithering.py:47-64 | a pixel in `[0, maximum)` gets a level in `[0, L - 1]` when `L >= 1` |
| Normalization.NormalizeImage | Dithering/image_dithering.py:47-64 | the normalised image has the input's shape, and each cell is the floor level of the pixel at the same position |
| Dithering.IntensityLevel | Dithering/image_dithering.py:82 | the definition is `dr * dc + 1`, one more than the dither's number of cells; the contract states that there is always at least one level |
| Dithering.Normalized | Dithering/image_dithering.py:82-83 | both routines normalise with `L = dr * dc + 1` and the default `maximum`; the normalised image keeps the input's shape |
| Dithering.DitherExpanded | Dithering/image_dithering.py:81-90 | `apply_dithering` returns an image of `rows * dr` by `cols * dc` cells, each 0 or 1, using levels with `L = dr * dc + 1` |
| Dithering.ExpandedImage | Dithering/image_dithering.py:86-97 | the expanded image of a normalised image has the expanded shape and holds only 0 and 1 |
| Dithering.ExpandedBlockCell | Dithering/image_dithering.py:93-97 | output cell `(i*dr + k, j*dc + l)` lies inside the output and is 1 exactly when `norm[i][j] > dither[k][l]` |
| Dithering.ExpandedBlock | Dithering/image_dithering.py:95-97 | the `dr` by `dc` window of the output at `(i*dr, j*dc)` equals the block `norm[i][j] > dither` |
| Dithering.ExpandedCellCovered | Dithering/image_dithering.py:86-97 | the blocks cover the output: every cell `(r, c)` of the expanded image is cell `(r % dr, c % dc)` of the block of pixel `(r / dr, c / dc)`, and both indices are in range |
| Dithering.ExpandedCellOwner | Dithering/image_dithering.py:86-97 | the blocks are disjoint: a cell written as `(i*dr + k, j*dc + l)` with an in-range offset has `i = r / dr`, `k = r % dr` (same for columns), and `(i, j)` is a pixel, so no cell lies in two blocks |
| Dithering.ApplyDithering | Dithering/image_dithering.py:67-99 | pasting one block per pixel into a zero image gives exactly the per-cell formula, of shape `rows * dr` by `cols * dc` |
| Dithering.ExpandBlocks | Dithering/image_dithering.py:90-97 | the nested pixel loop that pastes `norm[i][j] > dither` at `(i*dr, j*dc)` into a zero image produces exactly the per-cell formula |
| OrderedDithering.ShapeError | Dithering/image_dithering.py:121-122 | the shape check passes iff both dither sides are positive and divide the image's sides; the row failure is reported before the column failure |
| OrderedDithering.OrderedImage | Dithering/image_dithering.py:125-134 | the ordered image keeps the input's shape and holds only 0 and 1 |
| OrderedDithering.DitherOrdered | Dithering/image_dithering.py:116-125 | `apply_ordered_dithering` succeeds iff the image tiles into dither blocks, and its result then has the input's shape and is 0/1 |
| OrderedDithering.OrderedBlockCell | Dithering/image_dithering.py:130-134 | in the block with corner `(i, j)` on the dither grid, cell `(i + k, j + l)` is compared with `dither[k][l]` |
| OrderedDithering.OrderedBlock | Dithering/image_dithering.py:132-134 | the block the source computes, `norm[i:i+dr, j:j+dc] > dither`, equals the same window of the per-cell formula |
| OrderedDithering.ApplyOrderedDithering | Dithering/image_dithering.py:102-136 | the block loop fails exactly when the image does not tile, with the source's error; otherwise it returns the image whose cell `(r, c)` is `norm[r][c] > dither[r % dr][c % dc]` |
| OrderedDithering.OrderBlocks | Dithering/image_dithering.py:125-134 | on an image that tiles, the loop over block corners in steps of `dr` and `dc` produces exactly the per-cell formula |
| OrderedDithering.OrderedOfUpsampled | Dithering/image_dithering.py:67-136 | repeat every pixel as a `dr` by `dc` block, then dither with ordered dithering: the result equals expanding dithering of the original image |
| BlockCounting.ThresholdOnes | Dithering/image_dithering.py:95 | the block `v > dither` holds one 1 for each dither cell below `v` |
| BlockCounting.RankBlockOnes | Dithering/image_dithering.py:95 | when the dither holds each rank `0 .. n - 1` once, a level `v` in `0 .. n` gives a block with exactly `v` ones |
| BlockCounting.PixelBlockOnes | Dithering/image_dithering.py:82-97 | with such a dither, a pixel in `[0, 256)` gets an output block whose number of ones equals its level |
| BlockCounting.DitherMatrixIsRank | Dithering/image_dithering.py:4-7 | `DITHER_MATRIX` holds each of `0, 1, 2, 3` exactly once |
| BlockCounting.DefaultPixelBlockOnes | Dithering/image_dithering.py:4-7 | with `DITHER_MATRIX`, a pixel `p` in `[0, 256)` gets a 2 by 2 block with exactly `floor(5 p / 256)` ones |
| Matrices.PasteBlock | Dithering/image_dithering.py:96-97 | slice assignment: reading the window back gives the pasted block, and every cell outside the window is unchanged |
| Matrices.SubMatrix | Dithering/image_dithering.py:132 | a slice of shape `h` by `w` whose cell `(k, l)` is the source cell `(top + k, left + l)` |
| Matrices.Threshold | Dithering/image_dithering.py:95 | `v > dither` has the dither's shape, holds only 0 and 1, and has a 1 exactly where `v` exceeds the dither cell |
| Matrices.CompareCells | Dithering/image_dithering.py:133 | `a > dither` has `a`'s shape, holds only 0 and 1, and has a 1 exactly where `a` exceeds the dither cell |
| Matrices.Zeros | Dithering/image_dithering.py:90 | a zero image of the requested shape |

## Left out

- `read_image_input` (lines 9-27) is left out: it reads a file and parses CSV text with `int`. Images enter the model as already-parsed matrices.
- `run_dithering_tests` and the `__main__` guard (lines 30-44 and 139-140) are left out: they only read a file and print.
- The `minimum` parameter of `normalize_image` is left out because it is never used.
- Normalization.Quantize: models exact integer floor division. It does not model floating-point rounding. That rounding matters for a non-default `maximum`, which no caller passes, and for pixels with `|p * L| >= 2 ** 53`, where the product `(p / 256) * L` is rounded. With `DITHER_MATRIX` (`L = 5`) that starts at about `1.8e15`: for `p = 256 * 7036874417767 + 51` the exact value `5 p / 256` is a tie one half-step below an integer `N`, the float product rounds to `N`, and the source gives `N` where `Quantize` gives `N - 1`.
- numpy's 64-bit integers are modelled as unbounded integers. The levels' cast `.astype(int)` of a float outside the 64-bit range does not wrap around; its result depends on the platform. Pixels that large are already outside the exact range of the line above, so the model does not describe them.
- Python run with `-O` drops the two `assert` statements of `apply_ordered_dithering`. The model keeps them as errors, as a normal run does.
- Inputs that are not two-dimensional numpy arrays are outside the model's `Matrix` type, so the errors numpy raises for them are not modelled. This covers one-dimensional arrays, ragged rows and non-integer pixels.
- Matrices.SubMatrix, Matrices.PasteBlock: only windows inside the matrix are modelled. numpy's silent truncation of an out-of-range slice is not modelled. The dithering loops never produce such a window: `apply_dithering` writes inside its expanded image, and `apply_ordered_dithering` asserts divisibility first.
