/** Small facts about multiplication, division and the row-major pixel numbering
    that the pixel loops of the ICO codec rely on. */
module Arith {

  lemma MulLe(a: int, b: int, c: int)
    requires 0 <= a <= b && 0 <= c
    ensures a * c <= b * c
  {}

  /** Row y, column x of a `w`-wide raster is pixel number y * w + x, and the
      numbering can be undone with / and %. */
  lemma RowMajor(y: int, x: int, w: int)
    requires 0 <= x < w && 0 <= y
    ensures (y * w + x) / w == y && (y * w + x) % w == x
  {
    var k := y * w + x;
    var q, r := k / w, k % w;
    assert k == q * w + r;
    if q != y {
      if q < y { MulLe(q + 1, y, w); } else { MulLe(y + 1, q, w); }
      assert false;
    }
  }

  /** A position y * n + k with k < n lies inside the first h rows of n bytes. */
  lemma RowInside(y: int, k: int, n: int, h: int)
    requires 0 <= y < h && 0 <= k < n
    ensures 0 <= y * n + k < h * n
  {
    MulLe(y + 1, h, n);
  }

  /** Two positions of a row-major layout with rows of n bytes coincide only when
      row and offset coincide. */
  lemma RowMajorInjective(y1: int, k1: int, y2: int, k2: int, n: int)
    requires 0 <= y1 && 0 <= y2 && 0 <= k1 < n && 0 <= k2 < n
    requires y1 * n + k1 == y2 * n + k2
    ensures y1 == y2 && k1 == k2
  {
    if y1 != y2 {
      if y1 < y2 { MulLe(y1 + 1, y2, n); } else { MulLe(y2 + 1, y1, n); }
      assert false;
    }
  }

  /** The pixel number k of a w-wide raster with h rows has its row below h. */
  lemma PixelRow(k: int, w: int, h: int)
    requires 0 <= k < w * h && w > 0
    ensures 0 <= k / w < h && 0 <= k % w < w
  {
    if k / w >= h {
      MulLe(h, k / w, w);
      assert false;
    }
  }
}
