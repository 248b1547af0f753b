/** Whole-raster operations of the ICO codec, as folds over the pixel number
    k = y * w + x in the order the codec's nested y/x loops visit pixels, with
    lemmas that say what each fold leaves at every pixel. */
module IcoRaster {
  import opened Bytes
  import opened Arith
  import opened IcoPixels

  /** The column and row of pixel number k of a w-wide raster. */
  function Col(k: nat, w: nat): nat requires w > 0 { k % w }
  function Row(k: nat, w: nat): nat requires w > 0 { k / w }

  /** Pixel number k is row Row(k) and column Col(k), and no other pixel is. */
  lemma PixelCoords(k: nat, w: nat, h: nat)
    requires k < w * h
    ensures w > 0 && Col(k, w) < w && Row(k, w) < h && k == Row(k, w) * w + Col(k, w)
  {
    PixelRow(k, w, h);
  }

  lemma PixelNumber(y: nat, x: nat, w: nat)
    requires x < w
    ensures Row(y * w + x, w) == y && Col(y * w + x, w) == x
  {
    RowMajor(y, x, w);
  }

  /** Pixel j of an indexed raster of h rows lies inside the raster's buffer. */
  lemma InRaster(bpp: nat, w: nat, h: nat, j: nat)
    requires IndexedDepth(bpp) || bpp == 24
    requires j < w * h
    ensures w > 0 && ByteOf(bpp, Col(j, w)) < RowBytes(bpp, w)
    ensures Addr(RowBytes(bpp, w), bpp, Col(j, w), Row(j, w)) < RowBytes(bpp, w) * h
    ensures bpp == 24 ==> Addr(RowBytes(bpp, w), bpp, Col(j, w), Row(j, w)) + 2 < RowBytes(bpp, w) * h
  {
    PixelCoords(j, w, h);
    PixelInRow(bpp, w, Col(j, w));
    PixelInBuffer(bpp, w, h, Col(j, w), Row(j, w));
  }

  /** The index of pixel number j of a w by h raster at bpp bits per pixel. */
  function RasterIndex(buf: seq<byte>, bpp: nat, w: nat, h: nat, j: nat): (v: byte)
    requires IndexedDepth(bpp) || bpp == 24
    requires |buf| == RowBytes(bpp, w) * h && j < w * h
    ensures v < Levels(bpp)
  {
    InRaster(bpp, w, h, j);
    IndexAt(buf, RowBytes(bpp, w), bpp, Col(j, w), Row(j, w))
  }

  /** The raster after the loop "for every pixel k < n in order: if sel[k] then
      SetPixelIndex(x, y, vals[k])". */
  function Paint(buf: seq<byte>, bpp: nat, w: nat, h: nat, sel: seq<bool>, vals: seq<byte>, n: nat): (r: seq<byte>)
    requires IndexedDepth(bpp) && |buf| == RowBytes(bpp, w) * h
    requires |sel| == w * h && |vals| == w * h && n <= w * h
    ensures |r| == |buf|
  {
    if n == 0 then buf
    else
      var r := Paint(buf, bpp, w, h, sel, vals, n - 1);
      if sel[n - 1] then
        InRaster(bpp, w, h, n - 1);
        WithIndex(r, RowBytes(bpp, w), bpp, Col(n - 1, w), Row(n - 1, w), vals[n - 1])
      else r
  }

  /** After painting the first n pixels, a selected pixel among them holds its
      value and every other pixel holds what it held before. */
  lemma {:induction false} PaintAt(buf: seq<byte>, bpp: nat, w: nat, h: nat, sel: seq<bool>, vals: seq<byte>, n: nat, j: nat)
    requires IndexedDepth(bpp) && |buf| == RowBytes(bpp, w) * h
    requires |sel| == w * h && |vals| == w * h && n <= w * h && j < w * h
    requires forall i :: 0 <= i < w * h ==> vals[i] < Levels(bpp)
    ensures RasterIndex(Paint(buf, bpp, w, h, sel, vals, n), bpp, w, h, j)
         == if j < n && sel[j] then vals[j] else RasterIndex(buf, bpp, w, h, j)
  {
    if n > 0 {
      var r := Paint(buf, bpp, w, h, sel, vals, n - 1);
      PaintAt(buf, bpp, w, h, sel, vals, n - 1, j);
      if sel[n - 1] {
        var eff := RowBytes(bpp, w);
        InRaster(bpp, w, h, n - 1);
        InRaster(bpp, w, h, j);
        PixelCoords(j, w, h);
        PixelCoords(n - 1, w, h);
        if j == n - 1 {
          IndexAfterSet(r, eff, bpp, Col(j, w), Row(j, w), vals[j]);
        } else {
          IndexFrame(r, eff, bpp, Col(n - 1, w), Row(n - 1, w), vals[n - 1], Col(j, w), Row(j, w));
        }
      }
    }
  }

  /** The byte of channel t (0 blue, 1 green, 2 red) of 24-bit pixel j. */
  function RgbAt(w: nat, h: nat, j: nat, t: nat): (a: nat)
    requires j < w * h && t < 3
    ensures a < RowBytes(24, w) * h
  {
    InRaster(24, w, h, j);
    Addr(RowBytes(24, w), 24, Col(j, w), Row(j, w)) + t
  }

  /** Different channels of different pixels live in different bytes. */
  lemma RgbAtInjective(w: nat, h: nat, j1: nat, t1: nat, j2: nat, t2: nat)
    requires j1 < w * h && t1 < 3 && j2 < w * h && t2 < 3
    requires RgbAt(w, h, j1, t1) == RgbAt(w, h, j2, t2)
    ensures j1 == j2 && t1 == t2
  {
    PixelCoords(j1, w, h);
    PixelCoords(j2, w, h);
    var eff := RowBytes(24, w);
    PixelInRow(24, w, Col(j1, w));
    PixelInRow(24, w, Col(j2, w));
    RowMajorInjective(Row(j1, w), 3 * Col(j1, w) + t1, Row(j2, w), 3 * Col(j2, w) + t2, eff);
  }

  /** The 24-bit pixel buffer after the first n pixels of a 4-byte-per-pixel
      buffer (B, G, R, A) have had their three colour bytes copied in. */
  function SplitPixels(pix: seq<byte>, buf: seq<byte>, w: nat, h: nat, n: nat): (r: seq<byte>)
    requires |pix| == RowBytes(24, w) * h && |buf| == 4 * (w * h) && n <= w * h
    ensures |r| == |pix|
  {
    if n == 0 then pix
    else
      var r := SplitPixels(pix, buf, w, h, n - 1);
      var j := n - 1;
      r[RgbAt(w, h, j, 0) := buf[4 * j]][RgbAt(w, h, j, 1) := buf[4 * j + 1]][RgbAt(w, h, j, 2) := buf[4 * j + 2]]
  }

  lemma {:induction false} SplitPixelsAt(pix: seq<byte>, buf: seq<byte>, w: nat, h: nat, n: nat, j: nat, t: nat)
    requires |pix| == RowBytes(24, w) * h && |buf| == 4 * (w * h) && n <= w * h
    requires j < w * h && t < 3
    ensures SplitPixels(pix, buf, w, h, n)[RgbAt(w, h, j, t)]
         == if j < n then buf[4 * j + t] else pix[RgbAt(w, h, j, t)]
  {
    hide RowBytes;
    if n > 0 {
      SplitPixelsAt(pix, buf, w, h, n - 1, j, t);
      var k := n - 1;
      if j != k {
        forall t2 | 0 <= t2 < 3 ensures RgbAt(w, h, k, t2) != RgbAt(w, h, j, t) {
          if RgbAt(w, h, k, t2) == RgbAt(w, h, j, t) { RgbAtInjective(w, h, k, t2, j, t); }
        }
      } else {
        forall t2 | 0 <= t2 < 3 && t2 != t ensures RgbAt(w, h, k, t2) != RgbAt(w, h, j, t) {
          if RgbAt(w, h, k, t2) == RgbAt(w, h, j, t) { RgbAtInjective(w, h, k, t2, j, t); }
        }
      }
    }
  }

  /** The number of the first pixel of row y, for loops that keep their
      arithmetic hidden. */
  function RowStart(y: nat, w: nat): nat { y * w }

  lemma NextRowStart(y: nat, w: nat, h: nat)
    requires y < h
    ensures RowStart(y + 1, w) == RowStart(y, w) + w <= w * h
  {
    MulLe(y + 1, h, w);
  }

  lemma RowStarts(w: nat, h: nat)
    ensures RowStart(0, w) == 0 && RowStart(h, w) == w * h
  {}

  /** Pixel (x, y) of a w by h raster, visited by the nested loops, is pixel
      number y * w + x, and the next row starts w pixels later. */
  lemma LoopPixel(y: nat, x: nat, w: nat, h: nat)
    requires y < h && x < w
    ensures y * w + x < w * h && (y + 1) * w == y * w + w
    ensures Row(y * w + x, w) == y && Col(y * w + x, w) == x
  {
    RowInside(y, x, w, h);
    PixelNumber(y, x, w);
  }

  /** After a full row of w pixels the nested loops are at the next row. */
  lemma NextRow(y: nat, w: nat, h: nat)
    requires y < h
    ensures (y + 1) * w == y * w + w <= w * h
  {
    MulLe(y + 1, h, w);
  }

  /** One step of the 32-bit pixel loop at (x, y), which is pixel number k and
      has its 24-bit pixel at byte d. */
  lemma SplitPixelsStep(pix: seq<byte>, buf: seq<byte>, w: nat, h: nat, y: nat, x: nat, k: nat, d: nat)
    requires |pix| == RowBytes(24, w) * h && |buf| == 4 * (w * h) && y < h && x < w
    requires k == y * w + x && d == y * RowBytes(24, w) + 3 * x
    ensures k < w * h && d + 2 < |pix| && 4 * k + 3 < |buf|
    ensures SplitPixels(pix, buf, w, h, k + 1)
         == SplitPixels(pix, buf, w, h, k)[d := buf[4 * k]][d + 1 := buf[4 * k + 1]][d + 2 := buf[4 * k + 2]]
  {
    LoopPixel(y, x, w, h);
    PixelInBuffer(24, w, h, x, y);
  }

  /** The alpha plane after the first n pixels of a BGRA buffer have had their
      fourth byte copied in. */
  function SplitAlpha(alpha: seq<byte>, buf: seq<byte>, n: nat): (r: seq<byte>)
    requires |buf| == 4 * |alpha| && n <= |alpha|
    ensures |r| == |alpha|
    ensures forall j :: 0 <= j < |alpha| ==> r[j] == if j < n then buf[4 * j + 3] else alpha[j]
  {
    seq(|alpha|, j requires 0 <= j < |alpha| => if j < n then buf[4 * j + 3] else alpha[j])
  }

  lemma SplitAlphaStep(alpha: seq<byte>, buf: seq<byte>, k: nat)
    requires |buf| == 4 * |alpha| && k < |alpha|
    ensures SplitAlpha(alpha, buf, k + 1) == SplitAlpha(alpha, buf, k)[k := buf[4 * k + 3]]
  {}

  /** The BGRA buffer of the first n pixels: three colour bytes of the 24-bit
      pixel, then its alpha. */
  function Pack(pix: seq<byte>, alpha: seq<byte>, w: nat, h: nat, n: nat): (r: seq<byte>)
    requires |pix| == RowBytes(24, w) * h && |alpha| == w * h && n <= w * h
    ensures |r| == 4 * n
  {
    if n == 0 then []
    else
      var j := n - 1;
      Pack(pix, alpha, w, h, j) + [pix[RgbAt(w, h, j, 0)], pix[RgbAt(w, h, j, 1)], pix[RgbAt(w, h, j, 2)], alpha[j]]
  }

  /** One step of the BGRA packing loop at (x, y), which is pixel number k and
      has its 24-bit pixel at byte d. */
  lemma PackStep(pix: seq<byte>, alpha: seq<byte>, w: nat, h: nat, y: nat, x: nat, k: nat, d: nat)
    requires |pix| == RowBytes(24, w) * h && |alpha| == w * h && y < h && x < w
    requires k == y * w + x && d == y * RowBytes(24, w) + 3 * x
    ensures k < w * h && d + 2 < |pix|
    ensures Pack(pix, alpha, w, h, k + 1) == Pack(pix, alpha, w, h, k) + [pix[d], pix[d + 1], pix[d + 2], alpha[k]]
  {
    hide RowBytes;
    LoopPixel(y, x, w, h);
    PixelInBuffer(24, w, h, x, y);
    assert RgbAt(w, h, k, 0) == d;
  }

  lemma {:induction false} PackAt(pix: seq<byte>, alpha: seq<byte>, w: nat, h: nat, n: nat, j: nat, t: nat)
    requires |pix| == RowBytes(24, w) * h && |alpha| == w * h && n <= w * h
    requires j < n && t < 4
    ensures Pack(pix, alpha, w, h, n)[4 * j + t] == if t < 3 then pix[RgbAt(w, h, j, t)] else alpha[j]
  {
    if j < n - 1 {
      PackAt(pix, alpha, w, h, n - 1, j, t);
    }
  }

  /** Splitting a BGRA buffer and packing the result again gives the buffer
      back. */
  lemma SplitThenPack(pix: seq<byte>, alpha: seq<byte>, buf: seq<byte>, w: nat, h: nat)
    requires |pix| == RowBytes(24, w) * h && |alpha| == w * h && |buf| == 4 * (w * h)
    ensures Pack(SplitPixels(pix, buf, w, h, w * h), SplitAlpha(alpha, buf, w * h), w, h, w * h) == buf
  {
    var n := w * h;
    var p, a := SplitPixels(pix, buf, w, h, n), SplitAlpha(alpha, buf, n);
    var r := Pack(p, a, w, h, n);
    forall i | 0 <= i < |buf| ensures r[i] == buf[i] {
      var j, t := i / 4, i % 4;
      PackAt(p, a, w, h, n, j, t);
      if t < 3 { SplitPixelsAt(pix, buf, w, h, n, j, t); }
    }
  }

  /** Packing pixels and alpha, then splitting the packed buffer, gives every
      colour byte back. */
  lemma PackThenSplitPixels(pix: seq<byte>, alpha: seq<byte>, pix0: seq<byte>, w: nat, h: nat, j: nat, t: nat)
    requires |pix| == RowBytes(24, w) * h && |alpha| == w * h && |pix0| == RowBytes(24, w) * h
    requires j < w * h && t < 3
    ensures SplitPixels(pix0, Pack(pix, alpha, w, h, w * h), w, h, w * h)[RgbAt(w, h, j, t)] == pix[RgbAt(w, h, j, t)]
  {
    var b := Pack(pix, alpha, w, h, w * h);
    SplitPixelsAt(pix0, b, w, h, w * h, j, t);
    PackAt(pix, alpha, w, h, w * h, j, t);
  }

  /** Packing pixels and alpha, then splitting the packed buffer, gives the
      alpha plane back. */
  lemma PackThenSplitAlpha(pix: seq<byte>, alpha: seq<byte>, alpha0: seq<byte>, w: nat, h: nat)
    requires |pix| == RowBytes(24, w) * h && |alpha| == w * h && |alpha0| == w * h
    ensures SplitAlpha(alpha0, Pack(pix, alpha, w, h, w * h), w * h) == alpha
  {
    var b := Pack(pix, alpha, w, h, w * h);
    forall i | 0 <= i < w * h ensures SplitAlpha(alpha0, b, w * h)[i] == alpha[i] {
      PackAt(pix, alpha, w, h, w * h, i, 3);
    }
  }
}
