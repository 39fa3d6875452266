/** Row-major flat indexing of a w-by-h grid: cell (c, r) lives at r * w + c.
    Both the drawn-tile bitmap and the canvas buffers are laid out this way. */
module Grid {

  /** A cell of the grid has an index inside the buffer, and division and
      remainder by the row width give its row and column back. */
  lemma FlatIndex(w: int, h: int, c: int, r: int)
    requires 0 <= c < w && 0 <= r < h
    ensures 0 <= r * w + c < w * h
    ensures (r * w + c) / w == r && (r * w + c) % w == c
  {
    var k := r * w + c;
    FlatInRange(w, h, c, r);
    var q, m := k / w, k % w;
    assert q * w + m == k;
    if q > r {
      MulLeq(1, q - r, w);
      assert false;
    } else if q < r {
      MulLeq(1, r - q, w);
      assert false;
    }
  }

  /** A cell of the grid has an index inside the buffer. */
  lemma FlatInRange(w: int, h: int, c: int, r: int)
    requires 0 <= c < w && 0 <= r < h
    ensures 0 <= r * w + c < w * h
  {
    MulLeq(0, r, w);
    MulLeq(r, h - 1, w);
  }

  /** Every index of the buffer is the index of exactly one cell. */
  lemma FlatCoords(w: int, h: int, k: int)
    requires w > 0 && 0 <= k < w * h
    ensures 0 <= k / w < h && 0 <= k % w < w
    ensures (k / w) * w + k % w == k
  {
    var q := k / w;
    if q >= h {
      MulLeq(h, q, w);
      assert false;
    }
  }

  /** Two cells share an index only if they are the same cell. */
  lemma FlatInjective(w: int, h: int, c1: int, r1: int, c2: int, r2: int)
    requires 0 <= c1 < w && 0 <= r1 < h && 0 <= c2 < w && 0 <= r2 < h
    requires r1 * w + c1 == r2 * w + c2
    ensures c1 == c2 && r1 == r2
  {
    FlatIndex(w, h, c1, r1);
    FlatIndex(w, h, c2, r2);
  }

  lemma MulLeq(a: int, b: int, w: int)
    requires a <= b && w >= 0
    ensures a * w <= b * w
  {
    assert b * w - a * w == (b - a) * w;
  }

  /** The only value in 0..n-1 that differs from a by a multiple of n is a % n. */
  lemma ModUnique(a: int, n: int, q: int, r: int)
    requires n > 0 && 0 <= r < n && r == a + q * n
    ensures r == a % n
  {
    var d := a / n;
    assert r - a % n == (q + d) * n;
    if q + d >= 1 {
      MulLeq(1, q + d, n);
      assert false;
    } else if q + d <= -1 {
      MulLeq(q + d, -1, n);
      assert false;
    }
  }
}
