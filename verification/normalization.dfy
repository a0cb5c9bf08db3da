/**
 Quantisation of a greyscale image to the levels `0 .. level - 1` (`normalize_image`).

 The source computes `floor((p / maximum) * level)` in floating point. With the
 default `maximum` of 256, a power of two, `p / maximum` is exact, and the
 product with `level` is exact while `|p * level| < 2 ** 53`; in that range the
 floating-point result is exactly the integer floor `(p * level) / maximum`,
 which is what this module computes. Beyond it the product is rounded and the
 two can differ by one. Dafny's `/` with a positive divisor rounds toward
 negative infinity, as `floor` does, so the equivalence also holds for negative
 pixels.
 */
module Normalization {
  import opened Matrices

  /** The default `maximum` of `normalize_image`; no caller passes another. */
  const DefaultMaximum: int := 256

  /** The quantised level of one pixel `p`. */
  function Quantize(p: int, level: int, maximum: int): (q: int)
    requires maximum > 0
    ensures q * maximum <= p * level < (q + 1) * maximum
  {
    FloorBracket(p * level, maximum);
    (p * level) / maximum
  }

  /** Floor division by a positive divisor brackets the dividend. */
  lemma FloorBracket(a: int, d: int)
    requires d > 0
    ensures (a / d) * d <= a < (a / d + 1) * d
  {
    var q, m := a / d, a % d;
    assert a == d * q + m && 0 <= m < d;
    assert (q + 1) * d == q * d + d;
  }

  /** A strict inequality between two multiples of a positive `d` holds between the factors. */
  lemma CancelPositive(a: int, b: int, d: int)
    requires d > 0 && a * d < b * d
    ensures a < b
  {
    assert (b - a) * d == b * d - a * d;
  }

  /** Quantisation never decreases as the pixel grows, for a non-negative level. */
  lemma QuantizeMonotone(p: int, p': int, level: int, maximum: int)
    requires maximum > 0 && level >= 0 && p <= p'
    ensures Quantize(p, level, maximum) <= Quantize(p', level, maximum)
  {
    var q, q' := Quantize(p, level, maximum), Quantize(p', level, maximum);
    assert p * level <= p' * level by {
      assert p' * level - p * level == (p' - p) * level;
    }
    CancelPositive(q, q' + 1, maximum);
  }

  /** A pixel in `[0, maximum)` is quantised to a level in `[0, level - 1]`. */
  lemma QuantizeRange(p: int, level: int, maximum: int)
    requires maximum > 0 && level >= 1 && 0 <= p < maximum
    ensures 0 <= Quantize(p, level, maximum) <= level - 1
  {
    var q := Quantize(p, level, maximum);
    assert p * level < maximum * level by {
      assert maximum * level - p * level == (maximum - p) * level;
    }
    CancelPositive(q, level, maximum);
    CancelPositive(0, q + 1, maximum);
  }

  /** `normalize_image(image, level, maximum = maximum)`: the image of the
      quantised levels of its pixels, of the same shape. */
  function NormalizeImage(image: Matrix, level: int, maximum: int): (n: Matrix)
    requires image.Valid() && maximum > 0
    ensures n.Valid() && n.SameShape(image)
    ensures forall r, c :: n.InBounds(r, c) ==>
              n.cells[r][c] * maximum <= image.cells[r][c] * level < (n.cells[r][c] + 1) * maximum
  {
    Matrix(image.rows, image.cols,
           seq(image.rows, r requires 0 <= r < image.rows =>
             seq(image.cols, c requires 0 <= c < image.cols =>
               Quantize(image.cells[r][c], level, maximum))))
  }

  /** The bracket of `Quantize` has exactly one solution: any `q` with
      `q * maximum <= p * level < (q + 1) * maximum` is the quantised level,
      so `Quantize` is the floor of `p * level / maximum` and nothing else. */
  lemma QuantizeUnique(p: int, level: int, maximum: int, q: int)
    requires maximum > 0 && q * maximum <= p * level < (q + 1) * maximum
    ensures q == Quantize(p, level, maximum)
  {
    var q' := Quantize(p, level, maximum);
    CancelPositive(q, q' + 1, maximum);
    CancelPositive(q', q + 1, maximum);
  }
}
