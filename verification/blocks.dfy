/**
 Index arithmetic for a grid cut into consecutive blocks of `d` indices each:
 index `r` lies in block `r / d` at offset `r % d`, and every index lies in
 exactly one block. Both dithering routines place the dither matrix on such a
 grid, along the rows and along the columns.
 */
module Blocks {

  /** A non-negative index below `n * d` forces `d` to be positive and lies in
      one of the `n` blocks. */
  lemma BlockBelow(r: int, n: nat, d: nat)
    requires 0 <= r < n * d
    ensures d > 0 && 0 <= r / d < n
  {
    PositiveFactor(n, d);
    var q := r / d;
    assert q * d <= r by {
      assert r == q * d + r % d;
    }
    CancelBelow(q, n, d);
  }

  /** A positive product of naturals has a positive second factor. */
  lemma PositiveFactor(n: nat, d: nat)
    requires n * d > 0
    ensures d > 0
  {
  }

  /** Index `r` lies in block `i` exactly when `r / d == i`, and its offset in
      that block is then `r % d`. */
  lemma BlockOf(r: int, i: int, d: int)
    requires d > 0
    ensures i * d <= r < i * d + d <==> r / d == i
    ensures r / d == i ==> r % d == r - i * d
  {
    var q, m := r / d, r % d;
    assert r == q * d + m && 0 <= m < d;
    if i * d <= r < i * d + d {
      BlockUnique(d, i, r - i * d, q, m);
    }
  }

  /** The blocks are disjoint: a block number and an offset below `d` are
      determined by the index they give. */
  lemma BlockUnique(d: int, i: int, k: int, i': int, k': int)
    requires 0 <= k < d && 0 <= k' < d
    requires i * d + k == i' * d + k'
    ensures i == i' && k == k'
  {
    assert (i - i') * d == k' - k;
    assert (i' - i) * d == k - k';
    CancelBelow(i - i', 1, d);
    CancelBelow(i' - i, 1, d);
  }

  /** Block `i` of `n` ends no later than `n * d`. */
  lemma BlockInside(i: int, n: int, d: nat)
    requires 0 <= i < n
    ensures 0 <= i * d && i * d + d <= n * d
  {
    MultiplyMonotone(0, i, d);
    MultiplyMonotone(i + 1, n, d);
    assert (i + 1) * d == i * d + d;
  }

  /** Multiplying by a natural number keeps a non-strict inequality. */
  lemma MultiplyMonotone(a: int, b: int, d: nat)
    requires a <= b
    ensures a * d <= b * d
  {
    assert b * d - a * d == (b - a) * d;
  }

  /** The start `i` of a block on a multiple-of-`d` grid of length `n` is
      followed by a whole block: the next start is still at most `n`. */
  lemma NextBlockStart(i: int, n: int, d: int)
    requires d > 0 && 0 <= i < n && i % d == 0 && n % d == 0
    ensures i + d <= n
  {
    var a, b := i / d, n / d;
    ExactQuotient(i, d);
    ExactQuotient(n, d);
    CancelBelow(a, b, d);
    MultiplyMonotone(a + 1, b, d);
    assert (a + 1) * d == a * d + d;
  }

  /** A multiple of `d` is its quotient times `d`. */
  lemma ExactQuotient(x: int, d: int)
    requires d > 0 && x % d == 0
    ensures x == (x / d) * d
  {
    assert x == (x / d) * d + x % d;
  }

  /** Cancelling a positive factor from a strict inequality. */
  lemma CancelBelow(a: int, b: int, d: int)
    requires d > 0 && a * d < b * d
    ensures a < b
  {
    assert (b - a) * d == b * d - a * d;
  }

  /** The offset of an index within a block that starts at a multiple of `d`. */
  lemma OffsetInBlock(r: int, i: int, d: int)
    requires d > 0 && i % d == 0 && i <= r < i + d
    ensures r % d == r - i
  {
    var a := i / d;
    assert i == a * d;
    BlockOf(r, a, d);
  }

  /** `n * d` is a multiple of `d`. */
  lemma MultipleOf(n: int, d: int)
    requires d > 0
    ensures (n * d) % d == 0 && (n * d) / d == n
  {
    BlockOf(n * d, n, d);
  }

  /** The next block start after a multiple of `d` is again a multiple of `d`. */
  lemma NextMultiple(i: int, d: int)
    requires d > 0 && i % d == 0
    ensures (i + d) % d == 0
  {
    MultipleOf(i / d + 1, d);
    assert i + d == (i / d + 1) * d;
  }

  /** The start of block `j + 1` is one block past the start of block `j`. */
  lemma NextProduct(j: int, d: int)
    ensures (j + 1) * d == j * d + d
  {
  }
}
