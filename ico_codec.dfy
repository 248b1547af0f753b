/** CxImageICO: a CxImage whose state the ICO codec reads and updates in place.
    The pixel buffer, the palette and the alpha plane are arrays; Snapshot()
    gives the image as an IcoImage.Image value, and every method is proved
    against the functions of IcoImage, IcoDecodeSpec and IcoEncodeSpec. */
module IcoCodec {
  import opened Wrappers
  import opened Bytes
  import opened Arith
  import opened HostOrder
  import opened IcoFormat
  import opened IcoMemory
  import opened IcoPixels
  import opened IcoRaster
  import opened IcoImage
  import opened CxFiles
  import opened IcoDecodeSpec
  import opened IcoEncodeSpec
  import opened IcoEncodeLayout

  /** BITMAPINFOHEADER fields of the image the codec reads and writes. */
  datatype Head = Head(valid: bool, width: nat, height: nat, bpp: nat, clrUsed: nat)

  /** CXIMAGEINFO fields the codec reads and writes: the transparent index and
      colour, the page count, info.nFrame (the page Decode reads) and
      info.nEscape (-1 asks Decode for the dimensions only). */
  datatype Info = Info(transIndex: int, transColor: Quad, numFrames: nat, frame: int, escape: int)

  /** An array field either keeps its array, is set to null, or gets a new one. */
  twostate predicate Renewed(a: object?, new b: object?)
  {
    b == null || b == a || fresh(b)
  }

  /** The buffers of an image with header h agree with it, and the alpha plane
      is a buffer of its own. */
  ghost predicate Fits(h: Head, pixels: array<byte>, palette: array<Quad>, alpha: array?<byte>)
  {
    && pixels != alpha
    && Shape(h.valid, h.width, h.height, h.bpp, h.clrUsed, palette.Length, pixels.Length)
    && (alpha != null ==> alpha.Length == h.width * h.height)
  }

  /** Each of the three buffers is kept, dropped or newly allocated. */
  twostate predicate BuffersRenewed(p0: object?, q0: object?, a0: object?, new p1: object?, new q1: object?, new a1: object?)
  {
    Renewed(p0, p1) && Renewed(q0, q1) && Renewed(a0, a1)
  }

  /** The ICONHEADER read at the cursor into a zeroed struct, with idType and
      idCount converted: the header check and the count agree with the
      little-endian header at the cursor. */
  method ReadHeader(file: CxFile, host: Host) returns (hdr: IconHeader)
    modifies file
    ensures file.data == old(file.data)
    ensures file.pos == old(file.pos) + |ReadAt(old(file.data), old(file.pos), IconHeaderSize)|
    ensures IsIconHeader(hdr) <==> IsIconHeader(HeaderAt(old(file.data), old(file.pos)))
    ensures hdr.count == HeaderAt(old(file.data), old(file.pos)).count
  {
    var buf := new byte[IconHeaderSize](_ => 0);
    assert buf[..] == Zeros(IconHeaderSize);
    var _ := file.Read(buf, IconHeaderSize);
    ReadIntoZeros(ReadAt(old(file.data), old(file.pos), IconHeaderSize), IconHeaderSize, IconHeaderSize);
    assert buf[..] == buf[..IconHeaderSize];
    hdr := HeaderFromMemory(host, buf[..]);
  }

  /** The directory loop: n ICONDIRENTRY structs read one after another, each
      converted field by field. */
  method ReadEntries(file: CxFile, n: nat, host: Host) returns (list: seq<DirEntry>)
    modifies file
    ensures file.data == old(file.data)
    ensures list == ReadDirectory(old(file.data), old(file.pos), n).entries
    ensures file.pos == ReadDirectory(old(file.data), old(file.pos), n).end
  {
    hide ParseEntry, EntryFromMemory, Padded;
    list := [];
    var c := 0;
    while c < n
      invariant c <= n && file.data == old(file.data)
      invariant list == ReadDirectory(old(file.data), old(file.pos), c).entries
      invariant file.pos == ReadDirectory(old(file.data), old(file.pos), c).end
    {
      var buf := new byte[DirEntrySize](_ => 0);
      assert buf[..] == Zeros(DirEntrySize);
      ghost var raw := ReadAt(file.data, file.pos, DirEntrySize);
      var _ := file.Read(buf, DirEntrySize);
      ReadIntoZeros(raw, DirEntrySize, DirEntrySize);
      assert buf[..] == buf[..DirEntrySize];
      list := list + [EntryFromMemory(host, buf[..])];
      c := c + 1;
    }
  }

  /** fread of one item of n bytes into a new buffer: it succeeds when the
      file holds all n bytes, and the buffer then holds them. */
  method ReadItem(file: CxFile, n: nat) returns (ok: bool, b: seq<byte>)
    modifies file
    ensures file.data == old(file.data)
    ensures ok == (n > 0 && |ReadAt(old(file.data), old(file.pos), n)| == n)
    ensures ok ==> b == ReadAt(old(file.data), old(file.pos), n)
    ensures file.pos == old(file.pos) + |ReadAt(old(file.data), old(file.pos), n)|
  {
    var buf := new byte[n];
    ghost var raw := ReadAt(file.data, file.pos, n);
    var items := file.Read(buf, n);
    ok := items == 1;
    b := buf[..];
    if ok {
      assert b == raw;
    }
  }

  /** The good-mask scan: stops at the first byte that is not 0xFF. */
  method HasGoodMask(mask: seq<byte>) returns (good: bool)
    ensures good == GoodMask(mask)
  {
    good := false;
    var i := 0;
    while i < |mask|
      invariant 0 <= i <= |mask|
      invariant !good && forall j :: 0 <= j < i ==> mask[j] == 255
    {
      if mask[i] != 255 {
        good := true;
        break;
      }
      i := i + 1;
    }
  }

  /** The AND-mask bit of pixel (x, y): bit 7 - x % 8 of byte
      y * stride + x / 8. */
  method MaskBitOf(mask: seq<byte>, w: nat, h: nat, y: nat, x: nat) returns (m: bool)
    requires |mask| == MaskStride(w) * h && y < h && x < w
    ensures y * w + x < w * h && m == MaskBit(mask, w, h, y * w + x)
  {
    LoopPixel(y, x, w, h);
    PixelInBuffer(1, w, h, x, y);
    var b := mask[y * MaskStride(w) + x / 8];
    m := Field(b as bv8, 1, x) == 1;
  }

  /** The alpha pass over the pixels of row y: every masked pixel gets alpha 0
      and sets need. */
  method MaskRow(alpha: array<byte>, mask: seq<byte>, w: nat, h: nat, y: nat, k0: nat, need0: bool,
                 ghost a0: seq<byte>, ghost had: bool) returns (need: bool)
    requires |mask| == MaskStride(w) * h && alpha.Length == |a0| == w * h
    requires y < h && k0 == y * w && k0 + w <= w * h
    requires forall j :: 0 <= j < w * h ==> alpha[j] == if j < k0 && MaskBit(mask, w, h, j) then 0 else a0[j]
    requires need0 == (had || !NoMaskedBefore(mask, w, h, k0))
    modifies alpha
    ensures forall j :: 0 <= j < w * h ==> alpha[j] == if j < k0 + w && MaskBit(mask, w, h, j) then 0 else a0[j]
    ensures need == (had || !NoMaskedBefore(mask, w, h, k0 + w))
  {
    need := need0;
    var x, k := 0, k0;
    while x < w
      invariant x <= w && k == k0 + x
      invariant forall j :: 0 <= j < w * h ==> alpha[j] == if j < k && MaskBit(mask, w, h, j) then 0 else a0[j]
      invariant need == (had || !NoMaskedBefore(mask, w, h, k))
    {
      var m := MaskBitOf(mask, w, h, y, x);
      if m {
        alpha[k] := 0;
        need := true;
      }
      x, k := x + 1, k + 1;
    }
  }

  /** The alpha pass of a good mask, row by row: need ends true when it
      started true or some pixel is masked. */
  method MaskInto(alpha: array<byte>, mask: seq<byte>, w: nat, h: nat, need0: bool) returns (need: bool)
    requires |mask| == MaskStride(w) * h && alpha.Length == w * h
    modifies alpha
    ensures alpha[..] == MaskAlpha(old(alpha[..]), mask, w, h)
    ensures need == (need0 || AnyMasked(mask, w, h))
  {
    ghost var a0 := alpha[..];
    need := need0;
    var y, k := 0, 0;
    while y < h
      invariant y <= h && k == y * w && k <= w * h
      invariant forall j :: 0 <= j < w * h ==> alpha[j] == if j < k && MaskBit(mask, w, h, j) then 0 else a0[j]
      invariant need == (need0 || !NoMaskedBefore(mask, w, h, k))
    {
      NextRow(y, w, h);
      need := MaskRow(alpha, mask, w, h, y, k, need, a0, need0);
      y, k := y + 1, k + w;
    }
    assert k == w * h;
    assert alpha[..] == MaskAlpha(a0, mask, w, h);
  }

  /** The search for a palette index no pixel uses, from n - 1 down to 0. */
  method HighestUnusedIndex(used: seq<bool>, n: nat) returns (t: int)
    requires n <= |used|
    ensures t == HighestUnused(used, n)
  {
    t := -1;
    var x := n - 1;
    while x >= 0
      invariant -1 <= x < n
      invariant HighestUnused(used, n) == HighestUnused(used, x + 1)
    {
      if !used[x] {
        t := x;
        break;
      }
      x := x - 1;
    }
  }

  /** The transparent-colour scan before any pixel: nothing counted. */
  function NoTrans(ghost img: Image, mask: seq<byte>): (s: TransScan)
    requires img.Wf() && |mask| == MaskStride(img.width) * img.height
    ensures s == ScanTrans(img, mask, 0)
  {
    TransScan(0, 0, Black)
  }

  /** colorsUsed before the scan: all clear. */
  function NoColors(ghost img: Image): (used: seq<bool>)
    requires img.Wf() && img.bpp <= 8
    ensures used == ColorsUsed(img, 0)
  {
    seq(256, _ => false)
  }

  /** Before the re-index loop nothing is painted and no mask bit is seen. */
  lemma RetransStart(img: Image, mask: seq<byte>, t: byte)
    requires img.Wf() && img.bpp <= 8 && |mask| == MaskStride(img.width) * img.height
    ensures IndexedDepth(img.bpp) && |img.pixels| == RowBytes(img.bpp, img.width) * img.height
    ensures var w, h := img.width, img.height;
      && Paint(img.pixels, img.bpp, w, h, MaskBits(mask, w, h), Repeat(t, w * h), 0) == img.pixels
      && NoMaskedBefore(mask, w, h, 0)
      && Paint(img.pixels, img.bpp, w, h, MaskBits(mask, w, h), Repeat(t, w * h), w * h) == Retrans(img, mask, t)
      && (!NoMaskedBefore(mask, w, h, w * h) <==> AnyMasked(mask, w, h))
  {}

  /** The write of SetPixelIndex in a w by h raster of an indexed depth: the
      whole byte at 8 bits per pixel, the pixel's field at 4 and 1. */
  method SetIndexIn(pix: array<byte>, bpp: nat, w: nat, h: nat, x: nat, y: nat, i: byte)
    requires IndexedDepth(bpp) && pix.Length == RowBytes(bpp, w) * h && x < w && y < h
    modifies pix
    ensures Addr(RowBytes(bpp, w), bpp, x, y) < pix.Length
    ensures pix[..] == WithIndex(old(pix[..]), RowBytes(bpp, w), bpp, x, y, i)
  {
    hide WithField, Field, ToByte;
    PixelInBuffer(bpp, w, h, x, y);
    var a := y * RowBytes(bpp, w) + ByteOf(bpp, x);
    ghost var p0 := pix[..];
    assert a == Addr(RowBytes(bpp, w), bpp, x, y) < |p0|;
    if bpp == 8 {
      pix[a] := i;
      assert pix[..] == p0[a := i];
    } else {
      var b := ToByte(WithField(pix[a] as bv8, bpp, x, i as bv8));
      pix[a] := b;
      assert pix[..] == p0[a := b];
    }
  }

  /** The re-index pass over row y: every masked pixel is set to index t, and
      need records that some pixel so far was masked. */
  method RetransRow(pix: array<byte>, bpp: nat, mask: seq<byte>, t: byte, ghost p0: seq<byte>,
                    ghost sel: seq<bool>, ghost vals: seq<byte>,
                    w: nat, h: nat, y: nat, k0: nat, need0: bool) returns (need: bool)
    requires IndexedDepth(bpp) && |p0| == pix.Length == RowBytes(bpp, w) * h
    requires |mask| == MaskStride(w) * h && sel == MaskBits(mask, w, h) && vals == Repeat(t, w * h)
    requires y < h && k0 == RowStart(y, w) && k0 + w <= w * h
    requires pix[..] == Paint(p0, bpp, w, h, sel, vals, k0)
    requires need0 == !NoMaskedBefore(mask, w, h, k0)
    modifies pix
    ensures pix[..] == Paint(p0, bpp, w, h, sel, vals, k0 + w)
    ensures need == !NoMaskedBefore(mask, w, h, k0 + w)
  {
    hide MaskBit, WithIndex;
    need := need0;
    var x, k := 0, k0;
    while x < w
      invariant x <= w && k == k0 + x
      invariant pix[..] == Paint(p0, bpp, w, h, sel, vals, k)
      invariant need == !NoMaskedBefore(mask, w, h, k)
    {
      LoopPixel(y, x, w, h);
      var m := MaskBitOf(mask, w, h, y, x);
      if m {
        SetIndexIn(pix, bpp, w, h, x, y, t);
        need := true;
      }
      x, k := x + 1, k + 1;
    }
  }

  /** The re-index pass over all rows of a w by h raster of an indexed depth. */
  method RetransLoop(pix: array<byte>, bpp: nat, w: nat, h: nat, mask: seq<byte>, t: byte, ghost img: Image)
    returns (need: bool)
    requires img.Wf() && img.bpp == bpp <= 8 && img.width == w && img.height == h
    requires pix[..] == img.pixels && |mask| == MaskStride(w) * h
    modifies pix
    ensures pix[..] == Retrans(img, mask, t)
    ensures need == AnyMasked(mask, w, h)
  {
    hide *;
    RetransStart(img, mask, t);
    RowStarts(w, h);
    ghost var p0, sel, vals := pix[..], MaskBits(mask, w, h), Repeat(t, w * h);
    need := false;
    var y, k := 0, 0;
    while y < h
      invariant y <= h && k == RowStart(y, w) && k <= w * h
      invariant pix[..] == Paint(p0, bpp, w, h, sel, vals, k)
      invariant need == !NoMaskedBefore(mask, w, h, k)
    {
      NextRowStart(y, w, h);
      need := RetransRow(pix, bpp, mask, t, p0, sel, vals, w, h, y, k, need);
      y, k := y + 1, k + w;
    }
  }

  /** n bytes read from the file into a zero-filled buffer of n bytes; what the
      file does not hold stays zero. */
  method ReadZeroed(file: CxFile, n: nat) returns (b: seq<byte>)
    modifies file
    ensures file.data == old(file.data)
    ensures b == Padded(ReadAt(old(file.data), old(file.pos), n), n)
    ensures file.pos == old(file.pos) + |ReadAt(old(file.data), old(file.pos), n)|
  {
    var buf := new byte[n](_ => 0);
    assert buf[..] == Zeros(n);
    ghost var raw := ReadAt(file.data, file.pos, n);
    var _ := file.Read(buf, n);
    ReadIntoZeros(raw, n, n);
    b := buf[..];
  }

  /** Pixel (x, y), pixel number k, of the 32-bit pixel loop: the colour bytes
      of the 4-byte pixel go to the 24-bit buffer, its fourth byte to the alpha
      plane (AlphaSet); p0 and a0 are the buffers before the loop. */
  method SplitPixel(pix: array<byte>, alpha: array<byte>, b: seq<byte>, w: nat, h: nat, y: nat, x: nat, k: nat,
                    ghost p0: seq<byte>, ghost a0: seq<byte>)
    requires |p0| == pix.Length == RowBytes(24, w) * h && |a0| == alpha.Length == w * h
    requires |b| == 4 * (w * h) && y < h && x < w && k == y * w + x && pix != alpha
    requires k < w * h
    requires pix[..] == SplitPixels(p0, b, w, h, k)
    requires alpha[..] == SplitAlpha(a0, b, k)
    modifies pix, alpha
    ensures pix[..] == SplitPixels(p0, b, w, h, k + 1)
    ensures alpha[..] == SplitAlpha(a0, b, k + 1)
  {
    var d := y * RowBytes(24, w) + 3 * x;
    SplitPixelsStep(p0, b, w, h, y, x, k, d);
    SplitAlphaStep(a0, b, k);
    hide *;
    ghost var p1: seq<byte>, a1: seq<byte> := pix[..], alpha[..];
    pix[d], pix[d + 1], pix[d + 2] := b[4 * k], b[4 * k + 1], b[4 * k + 2];
    alpha[k] := b[4 * k + 3];
    assert pix[..] == p1[d := b[4 * k]][d + 1 := b[4 * k + 1]][d + 2 := b[4 * k + 2]];
    assert alpha[..] == a1[k := b[4 * k + 3]];
  }

  /** Row y of the 32-bit pixel loop, whose first pixel is number k0. */
  method SplitRow(pix: array<byte>, alpha: array<byte>, b: seq<byte>, w: nat, h: nat, y: nat, k0: nat,
                  ghost p0: seq<byte>, ghost a0: seq<byte>)
    requires |p0| == pix.Length == RowBytes(24, w) * h && |a0| == alpha.Length == w * h
    requires |b| == 4 * (w * h) && y < h && k0 == RowStart(y, w) && pix != alpha
    requires k0 + w <= w * h
    requires pix[..] == SplitPixels(p0, b, w, h, k0)
    requires alpha[..] == SplitAlpha(a0, b, k0)
    modifies pix, alpha
    ensures pix[..] == SplitPixels(p0, b, w, h, k0 + w)
    ensures alpha[..] == SplitAlpha(a0, b, k0 + w)
  {
    hide SplitPixels, SplitAlpha, RowBytes;
    var x, k := 0, k0;
    while x < w
      invariant x <= w && k == k0 + x
      invariant pix[..] == SplitPixels(p0, b, w, h, k)
      invariant alpha[..] == SplitAlpha(a0, b, k)
    {
      SplitPixel(pix, alpha, b, w, h, y, x, k, p0, a0);
      x, k := x + 1, k + 1;
    }
  }

  lemma SplitStart(p0: seq<byte>, a0: seq<byte>, b: seq<byte>, w: nat, h: nat)
    requires |p0| == RowBytes(24, w) * h && |a0| == w * h && |b| == 4 * (w * h)
    ensures SplitPixels(p0, b, w, h, 0) == p0 && SplitAlpha(a0, b, 0) == a0
  {}

  /** The palette loop of Negative: each of the n entries inverted. */
  method InvertQuads(pal: array<Quad>, n: nat)
    requires n == pal.Length
    modifies pal
    ensures pal[..] == InvertedPalette(old(pal[..]))
  {
    var i := 0;
    while i < n
      invariant 0 <= i <= n
      invariant forall j :: 0 <= j < pal.Length ==> pal[j] == if j < i then InvertQuad(old(pal[j])) else old(pal[j])
    {
      pal[i] := InvertQuad(pal[i]);
      i := i + 1;
    }
  }

  /** The pixel loop of Negative: every byte of the buffer inverted. */
  method InvertBytes(pix: array<byte>)
    modifies pix
    ensures pix[..] == InvertedBytes(old(pix[..]))
  {
    var i := 0;
    while i < pix.Length
      invariant 0 <= i <= pix.Length
      invariant forall j :: 0 <= j < pix.Length ==> pix[j] == if j < i then Invert(old(pix[j])) else old(pix[j])
    {
      pix[i] := 255 - pix[i];
      i := i + 1;
    }
  }

  /** The 32-bit pixel loop over all rows: the colour bytes of b go to pix and
      the alpha bytes to alpha. */
  method SplitInto(pix: array<byte>, alpha: array<byte>, b: seq<byte>, w: nat, h: nat)
    requires pix.Length == RowBytes(24, w) * h && alpha.Length == w * h && |b| == 4 * (w * h)
    requires pix != alpha
    modifies pix, alpha
    ensures pix[..] == SplitPixels(old(pix[..]), b, w, h, w * h)
    ensures alpha[..] == SplitAlpha(old(alpha[..]), b, w * h)
  {
    hide *;
    ghost var p0, a0 := pix[..], alpha[..];
    SplitStart(p0, a0, b, w, h);
    RowStarts(w, h);
    var y, k := 0, 0;
    while y < h
      invariant y <= h && k == RowStart(y, w) && k <= w * h
      invariant pix[..] == SplitPixels(p0, b, w, h, k)
      invariant alpha[..] == SplitAlpha(a0, b, k)
    {
      NextRowStart(y, w, h);
      SplitRow(pix, alpha, b, w, h, y, k, p0, a0);
      y, k := y + 1, k + w;
    }
  }

  /** The encoder's mask and RGBA sizes are the layout's. */
  lemma LayoutArith(w: nat, h: nat)
    ensures h * (((w + 31) / 32) * 4) == MaskStride(w) * h
    ensures 4 * h * w == 4 * (w * h)
  {}

  /** Pixel (x, y), pixel number k, of the encoder's BGRA loop: the three bytes
      of the 24-bit pixel (GetBits(y) + 3x) and AlphaGet(x, y). */
  method PackPixel(buf: array<byte>, pix: array<byte>, alpha: array<byte>, w: nat, h: nat, y: nat, x: nat, k: nat)
    requires pix.Length == RowBytes(24, w) * h && alpha.Length == w * h && buf.Length == 4 * (w * h)
    requires buf != pix && buf != alpha && y < h && x < w && k == y * w + x
    requires k < w * h && buf[..4 * k] == Pack(pix[..], alpha[..], w, h, k)
    modifies buf
    ensures buf[..4 * (k + 1)] == Pack(pix[..], alpha[..], w, h, k + 1)
  {
    var d := y * RowBytes(24, w) + 3 * x;
    PackStep(pix[..], alpha[..], w, h, y, x, k, d);
    hide Pack;
    ghost var b0 := buf[..4 * k];
    buf[4 * k], buf[4 * k + 1], buf[4 * k + 2], buf[4 * k + 3] := pix[d], pix[d + 1], pix[d + 2], alpha[k];
    assert buf[..4 * (k + 1)] == b0 + [pix[d], pix[d + 1], pix[d + 2], alpha[k]];
  }

  /** Row y of the encoder's BGRA loop, whose first pixel is number k0. */
  method PackRow(buf: array<byte>, pix: array<byte>, alpha: array<byte>, w: nat, h: nat, y: nat, k0: nat)
    requires pix.Length == RowBytes(24, w) * h && alpha.Length == w * h && buf.Length == 4 * (w * h)
    requires buf != pix && buf != alpha && y < h && k0 == RowStart(y, w) && k0 + w <= w * h
    requires buf[..4 * k0] == Pack(pix[..], alpha[..], w, h, k0)
    modifies buf
    ensures buf[..4 * (k0 + w)] == Pack(pix[..], alpha[..], w, h, k0 + w)
  {
    var x, k := 0, k0;
    while x < w
      invariant x <= w && k == k0 + x
      invariant buf[..4 * k] == Pack(pix[..], alpha[..], w, h, k)
    {
      PackPixel(buf, pix, alpha, w, h, y, x, k);
      x, k := x + 1, k + 1;
    }
  }

  /** The encoder's BGRA buffer for a true-colour image with alpha: four bytes
      per pixel, row by row. */
  method PackInto(pix: array<byte>, alpha: array<byte>, w: nat, h: nat) returns (buf: array<byte>)
    requires pix.Length == RowBytes(24, w) * h && alpha.Length == w * h
    ensures fresh(buf) && buf[..] == Pack(pix[..], alpha[..], w, h, w * h)
  {
    hide *;
    RowStarts(w, h);
    buf := new byte[4 * (w * h)];
    var y, k := 0, 0;
    while y < h
      invariant y <= h && k == RowStart(y, w) && k <= w * h
      invariant buf[..4 * k] == Pack(pix[..], alpha[..], w, h, k)
    {
      NextRowStart(y, w, h);
      PackRow(buf, pix, alpha, w, h, y, k);
      y, k := y + 1, k + w;
    }
    assert buf[..] == buf[..4 * k];
  }

  class CxImageIco {
    var head: Head
    var info: Info
    var pixels: array<byte>
    var palette: array<Quad>
    var alpha: array?<byte>
    /** m_dwImageOffset, the running body offset of the encoder. */
    var imageOffset: nat

    /** The image the object holds. */
    function Snapshot(): Image
      reads this, pixels, palette, alpha
    {
      Image(head.valid, head.width, head.height, head.bpp, head.clrUsed, pixels[..], palette[..],
            if alpha == null then None else Some(alpha[..]),
            info.transIndex, info.transColor, info.numFrames)
    }

    /** The shape CxImage keeps: the buffers agree with the header, and the
        alpha plane is a buffer of its own. */
    ghost predicate Valid()
      reads this
    {
      Fits(head, pixels, palette, alpha)
    }

    /** A valid object holds a well-formed image. */
    lemma SnapshotWf()
      requires Valid()
      ensures Snapshot().Wf()
    {}

    /** The facts Valid() gives, for proofs that keep its body hidden. */
    lemma ValidSizes()
      requires Valid()
      ensures pixels != alpha && palette.Length == head.clrUsed
      ensures pixels.Length == RowBytes(head.bpp, head.width) * head.height
      ensures alpha != null ==> alpha.Length == head.width * head.height
    {}

    /** The header fields Snapshot() reports, for proofs that keep its body
        hidden. */
    lemma HeadIs()
      ensures Snapshot().width == head.width && Snapshot().height == head.height
      ensures Snapshot().bpp == head.bpp && Snapshot().clrUsed == head.clrUsed
      ensures Snapshot().valid == head.valid && Snapshot().numFrames == info.numFrames
    {}

    /** Valid() is the well-formedness of Snapshot() once the alpha plane is a
        buffer of its own. */
    lemma ValidIsWf()
      requires pixels != alpha
      ensures Valid() <==> Snapshot().Wf()
    {}

    /** info.nNumFrames = n. */
    method SetNumFrames(n: nat)
      modifies this
      ensures Snapshot() == old(Snapshot()).(numFrames := n) && Valid() == old(Valid())
      ensures info == old(info).(numFrames := n) && head == old(head) && imageOffset == old(imageOffset)
      ensures pixels == old(pixels) && palette == old(palette) && alpha == old(alpha)
    {
      info := info.(numFrames := n);
    }

    /** m_dwImageOffset = o: the running offset is not part of the image. */
    method SetImageOffset(o: nat)
      modifies this
      ensures Snapshot() == old(Snapshot()) && Valid() == old(Valid()) && imageOffset == o
      ensures info == old(info) && head == old(head)
      ensures pixels == old(pixels) && palette == old(palette) && alpha == old(alpha)
    {
      imageOffset := o;
    }

    /** head.biWidth = w; head.biHeight = h, with the buffers left as they are. */
    method SetSize(w: nat, h: nat)
      modifies this
      ensures Snapshot() == old(Snapshot()).(width := w, height := h)
      ensures info == old(info) && imageOffset == old(imageOffset)
      ensures pixels == old(pixels) && palette == old(palette) && alpha == old(alpha)
    {
      head := head.(width := w, height := h);
    }

    /** An empty image: no pixel data, no transparency, page 0. */
    constructor()
      ensures Valid() && fresh(pixels) && fresh(palette)
      ensures Snapshot() == Image(false, 0, 0, 24, 0, [], [], None, -1, Black, 0)
      ensures info.frame == 0 && info.escape == 0 && imageOffset == 0
    {
      head := Head(false, 0, 0, 24, 0);
      info := Info(-1, Black, 0, 0, 0);
      pixels := new byte[0];
      palette := new Quad[0];
      alpha := null;
      imageOffset := 0;
    }

    /** What a method that reshapes the image keeps: the page and escape
        settings, the encoder offset, and buffers that are the old ones, null
        or newly allocated. */
    twostate predicate Kept()
      reads this
    {
      && BuffersRenewed(old(pixels), old(palette), old(alpha), pixels, palette, alpha)
      && (info.frame, info.escape, imageOffset) == old((info.frame, info.escape, imageOffset))
    }

    /** SetTransIndex. */
    method SetTransIndex(idx: int)
      requires Valid()
      modifies this
      ensures Valid() && Kept()
      ensures Snapshot() == IcoImage.SetTransIndex(old(Snapshot()), idx)
    {
      info := info.(transIndex := if idx < head.clrUsed then idx else 0);
    }

    /** SetTransColor. */
    method SetTransColor(q: Quad)
      requires Valid()
      modifies this
      ensures Valid() && Kept()
      ensures Snapshot() == IcoImage.SetTransColor(old(Snapshot()), q)
    {
      info := info.(transColor := q.(reserved := 0));
    }

    /** AlphaCreate: an opaque plane unless one exists. */
    method AlphaCreate()
      requires Valid()
      modifies this
      ensures Valid() && Kept() && alpha != null
      ensures Snapshot() == IcoImage.AlphaCreate(old(Snapshot()))
    {
      if alpha == null {
        var a := new byte[head.width * head.height](_ => 255);
        assert a[..] == seq(head.width * head.height, _ => 255);
        alpha := a;
      }
    }

    /** AlphaDelete. */
    method AlphaDelete()
      requires Valid()
      modifies this
      ensures Valid() && Kept()
      ensures Snapshot() == IcoImage.AlphaDelete(old(Snapshot()))
    {
      alpha := null;
    }

    /** Create(w, h, c): new zeroed buffers for a w by h image at the depth c
        rounds to. */
    method Create(w: nat, h: nat, c: nat)
      requires Valid()
      modifies this
      ensures Valid() && Kept()
      ensures Snapshot() == IcoImage.Create(old(Snapshot()), w, h, c)
    {
      var b := NormalDepth(c);
      var p := new byte[RowBytes(b, w) * h](_ => 0);
      var q := new Quad[PaletteLength(b)](_ => Black);
      assert p[..] == Zeros(RowBytes(b, w) * h);
      assert q[..] == seq(PaletteLength(b), _ => Black);
      head := Head(w > 0 && h > 0, w, h, b, PaletteLength(b));
      pixels, palette, alpha := p, q, null;
    }

    /** SetPalette(pal, n): copies the first min(clrUsed, n) entries of pal. */
    method SetPalette(pal: seq<Quad>, n: nat)
      requires Valid()
      modifies palette
      ensures Valid()
      ensures Snapshot() == IcoImage.SetPalette(old(Snapshot()), pal, n)
    {
      var m := Min(head.clrUsed, Min(n, |pal|));
      var i := 0;
      while i < m
        invariant 0 <= i <= m
        invariant forall j :: 0 <= j < palette.Length ==>
          palette[j] == if j < i then pal[j] else old(palette[j])
      {
        palette[i] := pal[i];
        i := i + 1;
      }
    }

    /** Transfer(src): the object takes over the image src together with its
        info block, whose page and escape settings are given. */
    method Transfer(src: Image, frame: int, escape: int)
      modifies this
      ensures pixels != alpha && Snapshot() == src
      ensures Valid() <==> src.Wf()
      ensures Renewed(old(pixels), pixels) && Renewed(old(palette), palette) && Renewed(old(alpha), alpha)
      ensures info.frame == frame && info.escape == escape && imageOffset == old(imageOffset)
    {
      var p := new byte[|src.pixels|](i requires 0 <= i < |src.pixels| => src.pixels[i]);
      var q := new Quad[|src.palette|](i requires 0 <= i < |src.palette| => src.palette[i]);
      assert p[..] == src.pixels && q[..] == src.palette;
      var a: array?<byte> := null;
      if src.alpha.Some? {
        var v := src.alpha.value;
        a := new byte[|v|](i requires 0 <= i < |v| => v[i]);
        assert a[..] == v;
      }
      head := Head(src.valid, src.width, src.height, src.bpp, src.clrUsed);
      info := Info(src.transIndex, src.transColor, src.numFrames, frame, escape);
      pixels, palette, alpha := p, q, a;
    }

    /** Ghost(from): the object shares from's buffers and copies its header and
        info block; the encoder's running offset stays. */
    method Ghost(from: CxImageIco)
      requires from.Valid() && from != this
      modifies this
      ensures Valid() && Snapshot() == old(from.Snapshot())
      ensures pixels == from.pixels && palette == from.palette && alpha == from.alpha
      ensures info == from.info && imageOffset == old(imageOffset)
    {
      head, info := from.head, from.info;
      pixels, palette, alpha := from.pixels, from.palette, from.alpha;
    }

    /** IsGrayScale: entry i of a non-empty palette is the grey (i, i, i). */
    method IsGrayScale() returns (g: bool)
      requires Valid()
      ensures g == IcoImage.IsGrayScale(Snapshot())
    {
      if !head.valid || head.clrUsed == 0 {
        return false;
      }
      var i := 0;
      while i < head.clrUsed
        invariant 0 <= i <= head.clrUsed
        invariant forall j :: 0 <= j < i ==>
          palette[j].blue == j && palette[j].green == j && palette[j].red == j
      {
        if palette[i].blue != i || palette[i].green != i || palette[i].red != i {
          return false;
        }
        i := i + 1;
      }
      return true;
    }

    /** Negative: inverts the palette of a colour palette image, and otherwise
        every byte of the pixel buffer (with the transparent colour of a 24-bit
        image). */
    method Negative() returns (ok: bool)
      requires Valid()
      modifies this, pixels, palette
      ensures Valid() && Kept() && ok == old(head.valid)
      ensures Snapshot() == IcoImage.Negative(old(Snapshot()))
    {
      if !head.valid {
        return false;
      }
      var gray := false;
      if head.bpp <= 8 {
        gray := IsGrayScale();
      }
      if head.bpp <= 8 && !gray {
        InvertQuads(palette, head.clrUsed);
      } else {
        InvertBytes(pixels);
        if head.bpp > 8 {
          info := info.(transColor := InvertQuad(info.transColor));
        }
      }
      return true;
    }

    /** GetPaletteColor(i): black for an index past the palette. */
    method GetPaletteColor(i: int) returns (q: Quad)
      requires Valid()
      ensures q == PaletteColor(Snapshot(), i)
    {
      q := if 0 <= i < head.clrUsed then palette[i] else Black;
    }

    /** BlindGetPixelIndex(x, y): the index field of pixel (x, y), read without
        checks. */
    method BlindGetPixelIndex(x: nat, y: nat) returns (v: byte)
      requires Valid() && x < head.width && y < head.height
      ensures Snapshot().Wf() && y * head.width + x < head.width * head.height
      ensures v == IndexOf(Snapshot(), y * head.width + x)
    {
      SnapshotWf();
      var w, h, bpp := head.width, head.height, head.bpp;
      PixelNumber(y, x, w);
      RowInside(y, x, w, h);
      PixelInBuffer(bpp, w, h, x, y);
      var b := pixels[y * RowBytes(bpp, w) + ByteOf(bpp, x)];
      if bpp == 8 {
        v := b;
      } else if bpp == 4 || bpp == 1 {
        FieldBound(b as bv8, bpp, x);
        v := ToByte(Field(b as bv8, bpp, x));
      } else {
        v := 0;
      }
    }

    /** GetPixelIndex(x, y): 0 for an image without palette. */
    method GetPixelIndex(x: nat, y: nat) returns (v: byte)
      requires Valid() && x < head.width && y < head.height
      ensures Snapshot().Wf() && y * head.width + x < head.width * head.height
      ensures v == PixelIndex(Snapshot(), y * head.width + x)
    {
      RowInside(y, x, head.width, head.height);
      if head.clrUsed == 0 {
        v := 0;
      } else {
        v := BlindGetPixelIndex(x, y);
      }
    }

    /** GetPixelColor(x, y, false): the palette colour of the pixel's index, or
        the three bytes of a 24-bit pixel with the transparent colour's
        reserved byte. */
    method GetPixelColor(x: nat, y: nat) returns (q: Quad)
      requires Valid() && x < head.width && y < head.height
      ensures Snapshot().Wf() && y * head.width + x < head.width * head.height
      ensures q == PixelColor(Snapshot(), y * head.width + x)
    {
      hide IndexOf, PaletteColor;
      var w, h := head.width, head.height;
      RowInside(y, x, w, h);
      PixelNumber(y, x, w);
      if head.clrUsed > 0 {
        var i := BlindGetPixelIndex(x, y);
        q := GetPaletteColor(i);
      } else if head.bpp == 24 {
        PixelInBuffer(24, w, h, x, y);
        var a := y * RowBytes(24, w) + 3 * x;
        q := Quad(pixels[a], pixels[a + 1], pixels[a + 2], info.transColor.reserved);
      } else {
        q := Black;
      }
    }

    /** SetPixelIndex(x, y, i): nothing for an image without palette. */
    method SetPixelIndex(x: nat, y: nat, i: byte)
      requires Valid() && x < head.width && y < head.height
      modifies pixels
      ensures Addr(RowBytes(head.bpp, head.width), head.bpp, x, y) < |old(pixels[..])|
      ensures head.clrUsed == 0 ==> pixels[..] == old(pixels[..])
      ensures head.clrUsed > 0 ==>
        pixels[..] == WithIndex(old(pixels[..]), RowBytes(head.bpp, head.width), head.bpp, x, y, i)
    {
      PixelInBuffer(head.bpp, head.width, head.height, x, y);
      if head.clrUsed == 0 {
        return;
      }
      SetIndexIn(pixels, head.bpp, head.width, head.height, x, y, i);
    }

    /** The palette read: 4 bytes per entry, for bih.biClrUsed entries when the
        header names a count and the image's own count otherwise, into a
        zeroed buffer of at least 256 entries; then SetPalette. */
    method ReadPaletteFrom(file: CxFile, hdrClrUsed: nat)
      requires Valid()
      modifies file, palette
      ensures Valid() && file.data == old(file.data)
      ensures Snapshot() == ReadPalette(old(file.data), old(file.pos), old(Snapshot()), hdrClrUsed).image
      ensures file.pos == ReadPalette(old(file.data), old(file.pos), old(Snapshot()), hdrClrUsed).pos
    {
      var n := if hdrClrUsed != 0 then hdrClrUsed else head.clrUsed;
      var pal := new byte[Max(4 * 256, 4 * n)](_ => 0);
      assert pal[..] == Zeros(Max(4 * 256, 4 * n));
      ghost var raw := ReadAt(file.data, file.pos, 4 * n);
      var _ := file.Read(pal, 4 * n);
      ReadIntoZeros(raw, 4 * 256, Max(4 * 256, 4 * n));
      SetPalette(Quads(pal[..4 * 256]), head.clrUsed);
    }

    /** The pixel read: biSizeImage bytes straight into the buffer for a bit
        count up to 24, and the 4-byte pixel read otherwise. */
    method ReadPixelsFrom(file: CxFile, c: nat)
      requires Valid() && (c > 24 ==> head.bpp == 24)
      modifies this, file, pixels, alpha
      ensures Valid() && Kept() && file.data == old(file.data)
      ensures Snapshot() == ReadPixels(old(file.data), old(file.pos), old(Snapshot()), c).image
      ensures file.pos == ReadPixels(old(file.data), old(file.pos), old(Snapshot()), c).pos
    {
      SnapshotWf();
      if c <= 24 {
        ghost var raw := ReadAt(file.data, file.pos, pixels.Length);
        var _ := file.Read(pixels, pixels.Length);
        assert pixels[..] == Put(old(pixels[..]), 0, raw);
      } else {
        ReadBgraFrom(file);
      }
    }

    /** The 32-bit pixel read: 4 * W * H bytes into a zeroed buffer, split into
        the colour bytes and the alpha plane. */
    method ReadBgraFrom(file: CxFile)
      requires Valid() && head.bpp == 24
      modifies this, file, pixels, alpha
      ensures Valid() && Kept() && file.data == old(file.data)
      ensures Snapshot() == ReadBgra(old(file.data), old(file.pos), old(Snapshot())).image
      ensures file.pos == ReadBgra(old(file.data), old(file.pos), old(Snapshot())).pos
    {
      var w, h := head.width, head.height;
      var b := ReadZeroed(file, 4 * (w * h));
      AlphaCreate();
      ValidSizes();
      ghost var i := Snapshot();
      SplitInto(pixels, alpha, b, w, h);
      assert Snapshot() == i.(pixels := SplitPixels(i.pixels, b, w, h, w * h),
                              alpha := Some(SplitAlpha(i.alpha.value, b, w * h)));
    }

    /** The alpha step of a good mask: a missing alpha plane is created opaque,
        every masked pixel gets alpha 0, and a created plane that no pixel
        needed is deleted again. */
    method MaskToAlpha(mask: seq<byte>)
      requires Valid() && |mask| == MaskStride(head.width) * head.height
      modifies this, alpha
      ensures Valid() && Kept()
      ensures Snapshot() == ApplyMaskAlpha(old(Snapshot()), mask)
    {
      var needAlpha := false;
      if alpha == null {
        AlphaCreate();
      } else {
        needAlpha := true;
      }
      ValidSizes();
      ghost var i := Snapshot();
      needAlpha := MaskInto(alpha, mask, head.width, head.height, needAlpha);
      assert Snapshot() == i.(alpha := Some(MaskAlpha(i.alpha.value, mask, head.width, head.height)));
      if !needAlpha {
        AlphaDelete();
      }
    }

    /** The transparent-colour scan over row y. */
    method ScanTransRow(mask: seq<byte>, ghost img: Image, w: nat, h: nat, y: nat, k0: nat, s0: TransScan)
      returns (s: TransScan)
      requires Valid() && img == Snapshot() && img.Wf() && w == img.width && h == img.height
      requires |mask| == MaskStride(w) * h
      requires y < h && k0 == y * w && k0 + w <= w * h
      requires s0 == ScanTrans(img, mask, k0)
      ensures s == ScanTrans(img, mask, k0 + w)
    {
      hide PixelColor, PixelIndex, MaskBit;
      s := s0;
      var x, k := 0, k0;
      while x < w
        invariant x <= w && k == k0 + x
        invariant s == ScanTrans(img, mask, k)
      {
        var m := MaskBitOf(mask, w, h, y, x);
        if m {
          var cc := GetPixelColor(x, y);
          if s.count == 0 {
            var idx := GetPixelIndex(x, y);
            s := TransScan(1, idx, cc);
          } else if cc != s.color {
            s := s.(count := s.count + 1);
          }
        }
        x, k := x + 1, k + 1;
      }
    }

    /** The scan over all rows. */
    method ScanTransLoop(mask: seq<byte>, ghost img: Image, w: nat, h: nat) returns (s: TransScan)
      requires Valid() && img == Snapshot() && img.Wf() && w == img.width && h == img.height
      requires |mask| == MaskStride(w) * h
      ensures s == ScanTrans(img, mask, w * h)
    {
      hide *;
      s := NoTrans(img, mask);
      var y, k := 0, 0;
      while y < h
        invariant y <= h && k == y * w && k <= w * h
        invariant s == ScanTrans(img, mask, k)
      {
        NextRow(y, w, h);
        s := ScanTransRow(mask, img, w, h, y, k, s);
        y, k := y + 1, k + w;
      }
      assert y == h;
    }

    /** The "only one transparent colour" scan: the number of masked pixels
        counted, and the index and colour of the first one. */
    method ScanTransColors(mask: seq<byte>) returns (s: TransScan)
      requires Valid() && |mask| == MaskStride(head.width) * head.height
      ensures Snapshot().Wf() && s == ScanTrans(Snapshot(), mask, head.width * head.height)
    {
      SnapshotWf();
      s := ScanTransLoop(mask, Snapshot(), head.width, head.height);
    }

    /** colorsUsed over row y: the entry of each pixel's index is set. */
    method ColorsRow(used0: seq<bool>, ghost img: Image, w: nat, h: nat, y: nat, k0: nat) returns (used: seq<bool>)
      requires Valid() && img == Snapshot() && img.Wf() && img.bpp <= 8 && w == img.width && h == img.height
      requires y < h && k0 == y * w && k0 + w <= w * h
      requires used0 == ColorsUsed(img, k0)
      ensures used == ColorsUsed(img, k0 + w)
    {
      hide IndexOf;
      used := used0;
      var x, k := 0, k0;
      while x < w
        invariant x <= w && k == k0 + x
        invariant used == ColorsUsed(img, k)
      {
        LoopPixel(y, x, w, h);
        var v := BlindGetPixelIndex(x, y);
        used := used[v := true];
        x, k := x + 1, k + 1;
      }
    }

    /** The colorsUsed loop over all rows. */
    method ColorsLoop(ghost img: Image, w: nat, h: nat) returns (used: seq<bool>)
      requires Valid() && img == Snapshot() && img.Wf() && img.bpp <= 8 && w == img.width && h == img.height
      ensures used == ColorsUsed(img, w * h)
    {
      hide *;
      used := NoColors(img);
      var y, k := 0, 0;
      while y < h
        invariant y <= h && k == y * w && k <= w * h
        invariant used == ColorsUsed(img, k)
      {
        NextRow(y, w, h);
        used := ColorsRow(used, img, w, h, y, k);
        y, k := y + 1, k + w;
      }
      assert y == h;
    }

    /** colorsUsed: a 256-entry table with entry i set when some pixel has
        index i. */
    method ColorsInUse() returns (used: seq<bool>)
      requires Valid() && head.bpp <= 8
      ensures Snapshot().Wf() && used == ColorsUsed(Snapshot(), head.width * head.height)
    {
      SnapshotWf();
      used := ColorsLoop(Snapshot(), head.width, head.height);
    }

    /** The unused-index step: every masked pixel gets index t; need says
        whether any pixel was masked. */
    method RetransMasked(mask: seq<byte>, t: byte) returns (need: bool)
      requires Valid() && head.bpp <= 8 && t < head.clrUsed
      requires |mask| == MaskStride(head.width) * head.height
      modifies pixels
      ensures Valid() && Snapshot() == old(Snapshot()).(pixels := Retrans(old(Snapshot()), mask, t))
      ensures need == AnyMasked(mask, head.width, head.height)
    {
      SnapshotWf();
      ghost var img := Snapshot();
      need := RetransLoop(pixels, head.bpp, head.width, head.height, mask, t, img);
      assert Snapshot() == img.(pixels := pixels[..]);
    }

    /** The unused-index step of a palette icon: the highest palette index
        no pixel uses takes every masked pixel and, when some pixel was masked,
        becomes the transparent index; the alpha plane goes. */
    method UnusedIndexStep(mask: seq<byte>)
      requires Valid() && head.bpp <= 8 && |mask| == MaskStride(head.width) * head.height
      modifies this, pixels
      ensures Valid() && Kept()
      ensures Snapshot() == ApplyUnusedIndex(old(Snapshot()), mask)
    {
      hide RowBytes, Retrans, ColorsUsed, HighestUnused;
      var used := ColorsInUse();
      var t := HighestUnusedIndex(used, head.clrUsed);
      if t >= 0 {
        var need := RetransMasked(mask, t as byte);
        if need {
          SetTransIndex(t);
        }
        AlphaDelete();
      }
    }

    /** The single-transparent-colour step: when the masked pixels of a
        palette icon all have one colour, that colour and the first masked
        pixel's index become the transparent ones and the alpha plane goes. */
    method TransColorStep(mask: seq<byte>, c: nat)
      requires Valid() && |mask| == MaskStride(head.width) * head.height
      modifies this
      ensures Valid() && Kept()
      ensures Snapshot() == ApplyTransColor(old(Snapshot()), mask, c)
    {
      var s := ScanTransColors(mask);
      if s.count == 1 && c <= 8 {
        SetTransColor(s.color);
        SetTransIndex(s.index);
        AlphaDelete();
      }
    }

    /** A mask with some byte other than 0xFF: the alpha, single-colour and
        (for palette icons) unused-index steps in turn. */
    method GoodMaskSteps(mask: seq<byte>, c: nat)
      requires Valid() && |mask| == MaskStride(head.width) * head.height && GoodMask(mask)
      requires (c <= 8) == (head.bpp <= 8)
      modifies this, pixels, alpha
      ensures Valid() && Kept()
      ensures Snapshot() == ApplyMask(old(Snapshot()), mask, c)
    {
      hide RowBytes;
      MaskToAlpha(mask);
      TransColorStep(mask, c);
      if c <= 8 {
        UnusedIndexStep(mask);
      }
    }

    /** The AND mask of a freshly read image whose file bit count is c: an
        all-0xFF mask makes black transparent and inverts the image. */
    method ApplyMaskTo(mask: seq<byte>, c: nat)
      requires Valid() && |mask| == MaskStride(head.width) * head.height
      requires (c <= 8) == (head.bpp <= 8)
      modifies this, pixels, palette, alpha
      ensures Valid() && Kept()
      ensures Snapshot() == ApplyMask(old(Snapshot()), mask, c)
    {
      var good := HasGoodMask(mask);
      if good {
        GoodMaskSteps(mask, c);
      } else {
        SetTransIndex(0);
        var _ := Negative();
      }
    }

    /** The AND-mask read: H rows of ((W + 31) / 32) * 4 bytes, applied only
        when all of them could be read. */
    method ReadMaskFrom(file: CxFile, c: nat)
      requires Valid() && (c <= 8) == (head.bpp <= 8)
      modifies this, file, pixels, palette, alpha
      ensures Valid() && Kept() && file.data == old(file.data)
      ensures Snapshot() == ReadMask(old(file.data), old(file.pos), old(Snapshot()), c).image
      ensures file.pos == ReadMask(old(file.data), old(file.pos), old(Snapshot()), c).pos
    {
      var masksize := MaskStride(head.width) * head.height;
      var ok, mask := ReadItem(file, masksize);
      if ok {
        ApplyMaskTo(mask, c);
      }
    }

    /** The palette, the pixels and the AND mask of a standard icon, read one
        after another into an image just created at bit count c. */
    method ReadDibStages(file: CxFile, c: nat, clrUsed: nat, ghost img: Image)
      requires Valid() && img == Snapshot() && img.bpp == NormalDepth(c)
      modifies this, file, pixels, palette, alpha
      ensures Valid() && Kept() && file.data == old(file.data)
      ensures img.Wf() && Stage(Snapshot(), file.pos) == DibStages(old(file.data), old(file.pos), img, c, clrUsed)
    {
      hide Snapshot, Valid, ReadMask, ReadPixels, ReadPalette;
      SnapshotWf();
      ReadPaletteFrom(file, clrUsed);
      HeadIs();
      ReadPixelsFrom(file, c);
      HeadIs();
      ReadMaskFrom(file, c);
    }

    /** The standard-icon branch of Decode: the BITMAPINFOHEADER at the cursor
        (converted from little-endian), an image of the entry's size at the
        header's bit count, then the palette, the pixels and the AND mask. */
    method DecodeDibFrom(file: CxFile, e: DirEntry, host: Host)
      requires Valid()
      modifies this, file, pixels, palette, alpha
      ensures Valid() && Kept() && file.data == old(file.data)
      ensures Stage(Snapshot(), file.pos) == DecodeDib(old(file.data), old(file.pos), old(Snapshot()), e)
    {
      hide Snapshot, Valid, DibStages, IcoImage.Create, ParseInfoHeader, InfoHeaderFromMemory, Padded, ReadAt;
      var b := ReadZeroed(file, InfoHeaderSize);
      var bih := InfoHeaderFromMemory(host, b);
      var c := bih.bitCount;
      Create(e.width, e.height, c);
      ReadDibStages(file, c, bih.clrUsed, Snapshot());
    }

    /** CxImageICO::Decode: reads page info.nFrame of the icon or cursor file at
        the cursor into this object; with info.nEscape == -1 only its size.
        A Vista icon's PNG payload goes through the PNG decoder png, whose
        image and info block (page 0, its own escape setting) are taken over. */
    method Decode(file: CxFile?, png: PngDecoder, host: Host) returns (ok: bool)
      requires Valid()
      modifies this, file, pixels, palette, alpha
      ensures file == null ==> !ok && unchanged(this)
      ensures file != null ==> file.data == old(file.data)
      ensures file != null ==>
        var d := DecodeIco(old(file.data), old(file.pos), old(Snapshot()), old(info.frame), old(info.escape), png);
        && ok == d.ok && Snapshot() == d.image && file.pos == d.pos
        && info.frame == (if d.fromPng then 0 else old(info.frame))
        && info.escape == (if d.fromPng && old(info.escape) != -1 then 0 else old(info.escape))
      ensures pixels != alpha && (Valid() <==> Snapshot().Wf())
      ensures BuffersRenewed(old(pixels), old(palette), old(alpha), pixels, palette, alpha)
      ensures imageOffset == old(imageOffset)
    {
      hide Snapshot, Valid, DecodeDirectory, ParseHeader, Padded, ReadAt;
      ValidSizes();
      ValidIsWf();
      if file == null {
        return false;
      }
      var start := file.Tell();
      var off := start % U32Mod;
      var hdr := ReadHeader(file, host);
      if !IsIconHeader(hdr) {
        return false;
      }
      ok := DecodeDirectoryFrom(file, off, hdr.count, png, host);
    }

    /** The part of Decode after an icon header announcing count pages: the
        directory, then page info.nFrame if there is one. */
    method DecodeDirectoryFrom(file: CxFile, off: nat, count: nat, png: PngDecoder, host: Host) returns (ok: bool)
      requires Valid()
      modifies this, file, pixels, palette, alpha
      ensures file.data == old(file.data)
      ensures var d := DecodeDirectory(old(file.data), old(file.pos), off, old(Snapshot()), count, old(info.frame), old(info.escape), png);
        && ok == d.ok && Snapshot() == d.image && file.pos == d.pos
        && info.frame == (if d.fromPng then 0 else old(info.frame))
        && info.escape == (if d.fromPng && old(info.escape) != -1 then 0 else old(info.escape))
      ensures pixels != alpha && (Valid() <==> Snapshot().Wf())
      ensures BuffersRenewed(old(pixels), old(palette), old(alpha), pixels, palette, alpha)
      ensures imageOffset == old(imageOffset)
    {
      hide Snapshot, Valid, DecodeEntry;
      var page := info.frame;
      SetNumFrames(count);
      ValidSizes();
      ValidIsWf();
      var list := ReadEntries(file, count, host);
      if !(0 <= page < count) {
        return false;
      }
      ok := true;
      DecodeEntryFrom(file, off, list[page], count, png, host);
    }

    /** The part of Decode after the page's directory entry e is chosen; off is
        the 32-bit cursor Decode started at and count the page count. */
    method DecodeEntryFrom(file: CxFile, off: nat, e: DirEntry, count: nat, png: PngDecoder, host: Host)
      requires Valid()
      modifies this, file, pixels, palette, alpha
      ensures file.data == old(file.data)
      ensures var d := DecodeEntry(old(file.data), off, old(Snapshot()), e, count, old(info.escape), old(file.pos), png);
        && Snapshot() == d.image && file.pos == d.pos
        && info.frame == (if d.fromPng then 0 else old(info.frame))
        && info.escape == (if d.fromPng && old(info.escape) != -1 then 0 else old(info.escape))
      ensures pixels != alpha && (Valid() <==> Snapshot().Wf())
      ensures BuffersRenewed(old(pixels), old(palette), old(alpha), pixels, palette, alpha)
      ensures imageOffset == old(imageOffset)
    {
      hide Snapshot, Valid, DecodeDib, IcoImage.Create;
      ValidSizes();
      var isPng := e.width == 0 && e.height == 0;
      if info.escape == -1 {
        SetSize(e.width, e.height);
        if isPng {
          file.Seek((off + e.imageOffset) % U32Mod);
          var r := png(file.data, file.pos, true);
          file.Seek(r.pos);
          if r.ok {
            Transfer(r.image, 0, -1);
            SetNumFrames(count);
          }
        }
        ValidIsWf();
        return;
      }
      file.Seek((off + e.imageOffset) % U32Mod);
      if isPng {
        var r := png(file.data, file.pos, false);
        file.Seek(r.pos);
        if r.ok {
          Transfer(r.image, 0, 0);
          SetNumFrames(count);
        }
      } else {
        DecodeDibFrom(file, e, host);
        ValidSizes();
      }
      ValidIsWf();
    }

    /** GetTransColor(): the palette entry of the transparent index for a
        palette depth, the transparent colour otherwise. */
    method GetTransColor() returns (q: Quad)
      requires Valid()
      ensures q == TransColorOf(Snapshot())
    {
      SnapshotWf();
      if head.bpp < 24 && info.transIndex >= 0 {
        q := GetPaletteColor(info.transIndex % 256);
      } else {
        q := info.transColor;
      }
    }

    /** AlphaPaletteIsValid(): entry 0 has a reserved byte other than 0 and
        255, or some later entry's reserved byte differs from entry 0's. */
    method AlphaPaletteValid() returns (v: bool)
      requires Valid()
      ensures v == AlphaPaletteIsValid(Snapshot())
    {
      SnapshotWf();
      var c := GetPaletteColor(0);
      if c.reserved != 0 && c.reserved != 255 {
        return true;
      }
      var n := 1;
      while n < head.clrUsed
        invariant 1 <= n
        invariant forall j :: 1 <= j < n && j < head.clrUsed ==> palette[j].reserved == c.reserved
      {
        if palette[n].reserved != c.reserved {
          return true;
        }
        n := n + 1;
      }
      return false;
    }

    /** BlindGetPixelColor(x, y).rgbReserved: the pixel's alpha, or its
        palette entry's reserved byte, or 0. */
    method ReservedAt(x: nat, y: nat) returns (r: byte)
      requires Valid() && x < head.width && y < head.height
      ensures Snapshot().Wf() && y * head.width + x < head.width * head.height
      ensures r == ReservedOf(Snapshot(), y * head.width + x)
    {
      SnapshotWf();
      RowInside(y, x, head.width, head.height);
      if alpha != null {
        r := alpha[y * head.width + x];
      } else if head.clrUsed > 0 {
        var i := BlindGetPixelIndex(x, y);
        var q := GetPaletteColor(i);
        r := q.reserved;
      } else {
        r := 0;
      }
    }

    /** The encoder's mask bit of pixel (x, y): alpha 0, a palette alpha of
        0, or the transparent colour. The flags are the ones the encoder
        computes once: AlphaIsValid(), AlphaPaletteIsValid(), a transparent
        index, and GetTransColor(). */
    method TransparentAt(x: nat, y: nat, ghost img: Image, w: nat, h: nat,
                         hasAlpha: bool, alphaPal: bool, hasTrans: bool, ct: Quad) returns (t: bool)
      requires Valid() && img == Snapshot() && img.Wf() && w == img.width && h == img.height && x < w && y < h
      requires hasAlpha == img.alpha.Some? && alphaPal == AlphaPaletteIsValid(img)
      requires hasTrans == (img.transIndex >= 0) && ct == TransColorOf(img)
      ensures y * w + x < w * h && t == Transparent(img, y * w + x)
    {
      hide PixelColor, ReservedOf, IndexOf, PaletteColor;
      RowInside(y, x, w, h);
      t := false;
      if hasAlpha && alpha[y * w + x] == 0 {
        t := true;
      }
      if alphaPal {
        var r := ReservedAt(x, y);
        if r == 0 {
          t := true;
        }
      }
      var c := GetPixelColor(x, y);
      if hasTrans && c == ct {
        t := true;
      }
    }

    /** Row y of the mask loop, whose first pixel is number k0. */
    method MaskOutRow(mask: array<byte>, ghost img: Image, w: nat, h: nat, y: nat, k0: nat,
                      hasAlpha: bool, alphaPal: bool, hasTrans: bool, ct: Quad)
      requires Valid() && img == Snapshot() && img.Wf() && w == img.width && h == img.height
      requires hasAlpha == img.alpha.Some? && alphaPal == AlphaPaletteIsValid(img)
      requires hasTrans == (img.transIndex >= 0) && ct == TransColorOf(img)
      requires mask.Length == RowBytes(1, w) * h && mask != pixels && mask != alpha
      requires y < h && k0 == RowStart(y, w) && k0 + w <= w * h
      requires mask[..] == MaskOut(img, k0)
      modifies mask
      ensures mask[..] == MaskOut(img, k0 + w)
    {
      hide MaskOut, WithIndex, Transparent;
      var x, k := 0, k0;
      while x < w
        invariant x <= w && k == k0 + x
        invariant mask[..] == MaskOut(img, k)
      {
        MaskOutStep(img, y, x);
        var t := TransparentAt(x, y, img, w, h, hasAlpha, alphaPal, hasTrans, ct);
        SetIndexIn(mask, 1, w, h, x, y, if t then 1 else 0);
        x, k := x + 1, k + 1;
      }
    }

    /** The mask loop over all rows. */
    method MaskOutLoop(mask: array<byte>, ghost img: Image, w: nat, h: nat,
                       hasAlpha: bool, alphaPal: bool, hasTrans: bool, ct: Quad)
      requires Valid() && img == Snapshot() && img.Wf() && w == img.width && h == img.height
      requires hasAlpha == img.alpha.Some? && alphaPal == AlphaPaletteIsValid(img)
      requires hasTrans == (img.transIndex >= 0) && ct == TransColorOf(img)
      requires mask.Length == RowBytes(1, w) * h && mask != pixels && mask != alpha
      requires mask[..] == MaskOut(img, 0)
      modifies mask
      ensures mask[..] == MaskOut(img, w * h)
    {
      hide *;
      RowStarts(w, h);
      var y, k := 0, 0;
      while y < h
        invariant y <= h && k == RowStart(y, w) && k <= w * h
        invariant mask[..] == MaskOut(img, k)
      {
        NextRowStart(y, w, h);
        MaskOutRow(mask, img, w, h, y, k, hasAlpha, alphaPal, hasTrans, ct);
        y, k := y + 1, k + w;
      }
    }

    /** The AND mask the encoder writes: a zeroed buffer of ((W + 31) / 32) * 4
        bytes per row with the bit of every transparent pixel set. */
    method BuildMask() returns (mask: array<byte>)
      requires Valid()
      ensures Snapshot().Wf() && fresh(mask)
      ensures mask[..] == MaskOut(Snapshot(), head.width * head.height)
    {
      hide MaskOut, Zeros, TransColorOf, AlphaPaletteIsValid, Valid;
      SnapshotWf();
      HeadIs();
      ghost var img := Snapshot();
      var w, h := head.width, head.height;
      var hasTrans := info.transIndex >= 0;
      var ct := GetTransColor();
      var alphaPal := AlphaPaletteValid();
      var hasAlpha := alpha != null;
      mask := new byte[RowBytes(1, w) * h](_ => 0);
      MaskOutStart(img);
      assert mask[..] == Zeros(RowBytes(1, w) * h);
      MaskOutLoop(mask, img, w, h, hasAlpha, alphaPal, hasTrans, ct);
    }

    /** SetPaletteColor(i, q): nothing for an index past the palette. */
    method SetPaletteColor(i: nat, q: Quad)
      requires Valid()
      modifies palette
      ensures palette[..] == if i < head.clrUsed then old(palette[..])[i := q] else old(palette[..])
    {
      if i < head.clrUsed {
        palette[i] := q;
      }
    }

    /** The palette write of the encoder: the transparent entry is blanked to
        (0, 0, 0, 0) for the write and restored from GetTransColor() after it;
        an image without palette writes nothing. */
    method WritePaletteTo(file: CxFile)
      requires Valid()
      modifies file, palette
      ensures palette[..] == old(palette[..]) && Snapshot() == old(Snapshot())
      ensures file.pos == old(file.pos) + QuadSize * head.clrUsed
      ensures file.data == if head.clrUsed > 0 then Put(old(file.data), old(file.pos), QuadBytes(PaletteOut(Snapshot())))
                           else old(file.data)
    {
      SnapshotWf();
      ghost var img := Snapshot();
      var hasTrans := info.transIndex >= 0;
      var ct := GetTransColor();
      if head.clrUsed > 0 {
        var idx := info.transIndex % 256;
        if hasTrans {
          SetPaletteColor(idx, Black);
        }
        assert palette[..] == PaletteOut(img);
        file.Write(QuadBytes(palette[..]));
        if hasTrans {
          SetPaletteColor(idx, ct);
        }
        assert palette[..] == img.palette;
      }
    }

    /** The pixel write of the encoder: BGRA quadruples built row by row for a
        true-colour image with alpha, the pixel buffer otherwise. */
    method WritePixelsTo(file: CxFile)
      requires Valid() && (head.bpp <= 8 ==> head.clrUsed > 0)
      modifies file
      ensures Snapshot().Wf()
      ensures file.data == Put(old(file.data), old(file.pos), PixelsOut(Snapshot()))
      ensures file.pos == old(file.pos) + |PixelsOut(Snapshot())|
    {
      SnapshotWf();
      if alpha != null && head.clrUsed == 0 {
        var buf := PackInto(pixels, alpha, head.width, head.height);
        file.Write(buf[..]);
      } else {
        file.Write(pixels[..]);
      }
    }

    /** The first half of a DIB body: the BITMAPINFOHEADER bi (converted with
        bihtoh) and the palette. */
    method WriteDibHeadTo(file: CxFile, bi: InfoHeader, host: Host, ghost img: Image)
      requires Valid() && img == Snapshot() && img.Wf() && bi == InfoHeaderFor(img)
      modifies file, palette
      ensures palette[..] == old(palette[..]) && Snapshot() == img
      ensures file.data == Put(old(file.data), old(file.pos), DibHead(img))
      ensures file.pos == old(file.pos) + |DibHead(img)|
    {
      hide Snapshot, Valid, QuadBytes, PaletteOut, InfoHeaderFor, InfoHeaderBytes, InfoHeaderToMemory, Put;
      HeadIs();
      ghost var d0, p0 := file.data, file.pos;
      file.Write(InfoHeaderToMemory(host, bi));
      WritePaletteTo(file);
      if head.clrUsed == 0 {
        PutEmpty(file.data, file.pos);
      }
      PutPut(d0, p0, InfoHeaderBytes(bi), QuadBytes(PaletteOut(img)));
    }

    /** The second half of a DIB body: the pixels and the AND mask. */
    method WriteDibBitsTo(file: CxFile, ghost img: Image)
      requires Valid() && img == Snapshot() && img.Wf() && (img.bpp <= 8 ==> img.clrUsed > 0)
      modifies file
      ensures file.data == Put(old(file.data), old(file.pos), DibBits(img))
      ensures file.pos == old(file.pos) + |DibBits(img)|
    {
      hide Snapshot, Valid, PixelsOut, MaskOut, LayoutOf, Put;
      HeadIs();
      ghost var d0, p0 := file.data, file.pos;
      WritePixelsTo(file);
      var mask := BuildMask();
      file.Write(mask[..]);
      PutPut(d0, p0, PixelsOut(img), mask[..]);
    }

    /** A DIB body: header, palette, pixels and mask. */
    method WriteDibTo(file: CxFile, bi: InfoHeader, host: Host, ghost img: Image)
      requires Valid() && img == Snapshot() && img.Wf() && (img.bpp <= 8 ==> img.clrUsed > 0)
      requires bi == InfoHeaderFor(img)
      modifies file, palette
      ensures palette[..] == old(palette[..]) && Snapshot() == img
      ensures file.data == Put(old(file.data), old(file.pos), DibBody(img))
      ensures file.pos == old(file.pos) + |DibBody(img)|
    {
      hide Snapshot, Valid, DibHead, DibBits, Put;
      ghost var d0, p0 := file.data, file.pos;
      WriteDibHeadTo(file, bi, host, img);
      WriteDibBitsTo(file, img);
      PutPut(d0, p0, DibHead(img), DibBits(img));
    }

    /** The sizes, directory entry and BITMAPINFOHEADER the encoder fills in for
        a body at offset, and the PNG stream of an image it stores as PNG. */
    /** The layout the encoder chooses, from the header and the buffers. */
    lemma LayoutIs()
      requires Valid()
      ensures Snapshot().Wf()
      ensures var rgba := alpha != null && head.clrUsed == 0;
        LayoutOf(Snapshot()) == Layout(if rgba then 32 else head.bpp,
                                       if rgba then 4 * (head.width * head.height) else pixels.Length,
                                       MaskStride(head.width) * head.height)
    {}

    /** biBitCount, the image size and the mask size the encoder writes. */
    method LayoutFields() returns (bitcount: nat, imagesize: nat, masksize: nat)
      requires Valid()
      ensures Snapshot().Wf() && Layout(bitcount, imagesize, masksize) == LayoutOf(Snapshot())
    {
      hide Snapshot, Valid, LayoutOf;
      LayoutIs();
      var w, h := head.width, head.height;
      LayoutArith(w, h);
      var maskwdt := ((w + 31) / 32) * 4;
      masksize := h * maskwdt;
      bitcount := head.bpp;
      imagesize := pixels.Length;
      if alpha != null && head.clrUsed == 0 {
        bitcount := 32;
        imagesize := 4 * h * w;
      }
    }

    /** The directory entry and BITMAPINFOHEADER the encoder fills in for a
        body at offset, and the PNG stream of an image it stores as PNG. */
    method PageFields(offset: nat, png: Option<PngEncoder>)
      returns (entry: DirEntry, bi: InfoHeader, stream: seq<byte>)
      requires Valid()
      ensures Snapshot().Wf()
      ensures entry == EntryFor(Snapshot(), offset, png) && bi == InfoHeaderFor(Snapshot())
      ensures StoredAsPng(Snapshot(), png) ==> stream == png.value(Snapshot())
    {
      hide Snapshot, Valid, LayoutOf;
      var bitcount, imagesize, masksize := LayoutFields();
      HeadIs();
      var w, h := head.width, head.height;
      var bytesInRes := (InfoHeaderSize + head.clrUsed * QuadSize + imagesize + masksize) % U32Mod;
      entry := DirEntry(w % 256, h % 256, head.clrUsed % 256, 0, 0, bitcount % 0x1_0000, bytesInRes, offset % U32Mod);
      bi := InfoHeader(InfoHeaderSize, w % U32Mod, (2 * h) % U32Mod, 1, bitcount % 0x1_0000, 0, imagesize % U32Mod, 0, 0, 0, 0);
      stream := [];
      if png.Some? && (w > 255 || h > 255) {
        stream := png.value(Snapshot());
        bytesInRes := |stream| % U32Mod;
        entry := entry.(width := 0, height := 0, bytesInRes := bytesInRes);
      }
    }

    /** The body Encode writes: the PNG stream, cut to dwBytesInRes, when the
        entry has width and height 0, and the DIB body otherwise. */
    method WriteBodyTo(file: CxFile, entry: DirEntry, bi: InfoHeader, stream: seq<byte>,
                       png: Option<PngEncoder>, host: Host, ghost img: Image, ghost offset: nat)
      requires Valid() && img == Snapshot() && img.Wf() && Encodable(img, png)
      requires entry == EntryFor(img, offset, png) && bi == InfoHeaderFor(img)
      requires StoredAsPng(img, png) ==> stream == png.value(img)
      modifies file, palette
      ensures palette[..] == old(palette[..]) && Snapshot() == img
      ensures file.data == Put(old(file.data), old(file.pos), Body(img, png))
      ensures file.pos == old(file.pos) + |Body(img, png)|
    {
      hide Snapshot, Valid, DibBody, InfoHeaderFor, Put;
      if entry.width == 0 && entry.height == 0 {
        file.Write(stream[..entry.bytesInRes]);
      } else {
        WriteDibTo(file, bi, host, img);
      }
    }

    /** Encode(hFile, bAppend, nPageCount): one image of an icon file. It
        refuses a null file, an invalid image, an image larger than 255 without
        a PNG encoder and a palette depth without a palette; otherwise it writes
        what EncodePage says and leaves the image as it found it. */
    method Encode(file: CxFile?, append: bool, nPageCount: int, png: Option<PngEncoder>, host: Host)
      returns (ok: bool)
      requires Valid()
      modifies this, file, palette
      ensures Valid() && Snapshot() == old(Snapshot()) && palette[..] == old(palette[..])
      ensures head == old(head) && info == old(info) && pixels == old(pixels)
      ensures palette == old(palette) && alpha == old(alpha)
      ensures file == null ==> !ok && imageOffset == old(imageOffset)
      ensures file != null ==>
        var r := EncodePage(old(Snapshot()), EncState(old(file.data), old(file.pos), old(imageOffset)),
                            append, nPageCount, png);
        ok == r.Some? &&
        (ok ==> EncState(file.data, file.pos, imageOffset) == r.value) &&
        (!ok ==> file.data == old(file.data) && file.pos == old(file.pos) && imageOffset == old(imageOffset))
    {
      hide Snapshot, Valid, EncodePage;
      SnapshotWf();
      HeadIs();
      if file == null || !head.valid {
        return false;
      }
      if png.None? && (head.width > 255 || head.height > 255) {
        return false;
      }
      if head.bpp <= 8 && head.clrUsed == 0 {
        return false;
      }
      EncodeChecked(file, append, nPageCount, png, host);
      ok := true;
    }

    /** Encode past its checks: the header, the entry and the body as the
        flags ask. */
    method EncodeChecked(file: CxFile, append: bool, nPageCount: int, png: Option<PngEncoder>, host: Host)
      requires Valid() && Snapshot().Wf() && Encodable(Snapshot(), png)
      modifies this, file, palette
      ensures Valid() && Snapshot() == old(Snapshot()) && palette[..] == old(palette[..])
      ensures head == old(head) && info == old(info) && pixels == old(pixels)
      ensures palette == old(palette) && alpha == old(alpha)
      ensures EncodePage(old(Snapshot()), EncState(old(file.data), old(file.pos), old(imageOffset)),
                         append, nPageCount, png)
              == Some(EncState(file.data, file.pos, imageOffset))
    {
      hide Snapshot, Valid, HeaderStep, WriteEntry, Body, EntryFor, InfoHeaderFor, Put;
      HeadIs();
      ghost var img := Snapshot();
      WriteHeaderStep(file, append, nPageCount, host);
      ghost var offset := imageOffset;
      var entry, bi, stream := PageFields(imageOffset, png);
      var single := !append && nPageCount == 0;
      if (append && nPageCount == info.numFrames) || single {
        WriteEntryStep(file, entry, png, host, img);
      }
      if (append && nPageCount < info.numFrames) || single {
        WriteBodyTo(file, entry, bi, stream, png, host, img, offset);
      }
    }

    /** The file header, and the offset reset past the directory, when not
        appending. */
    method WriteHeaderStep(file: CxFile, append: bool, nPageCount: int, host: Host)
      modifies this, file
      ensures Snapshot() == old(Snapshot()) && Valid() == old(Valid())
      ensures head == old(head) && info == old(info) && pixels == old(pixels)
      ensures palette == old(palette) && alpha == old(alpha)
      ensures EncState(file.data, file.pos, imageOffset)
              == HeaderStep(EncState(old(file.data), old(file.pos), old(imageOffset)), append, nPageCount)
    {
      hide Snapshot, Valid, Put;
      var nPages := if nPageCount < 1 then 1 else nPageCount;
      if !append {
        SetImageOffset((IconHeaderSize + nPages * DirEntrySize) % U32Mod);
        file.Write(HeaderToMemory(host, IconHeader(0, 1, nPages % 0x1_0000)));
      }
    }

    /** The directory entry, and the offset moved past the body. */
    method WriteEntryStep(file: CxFile, entry: DirEntry, png: Option<PngEncoder>, host: Host, ghost img: Image)
      requires img.Wf() && entry == EntryFor(img, imageOffset, png)
      modifies this, file
      ensures Snapshot() == old(Snapshot()) && Valid() == old(Valid())
      ensures head == old(head) && info == old(info) && pixels == old(pixels)
      ensures palette == old(palette) && alpha == old(alpha)
      ensures EncState(file.data, file.pos, imageOffset)
              == WriteEntry(EncState(old(file.data), old(file.pos), old(imageOffset)), img, png)
    {
      hide Snapshot, Valid, Put, BytesInRes, LayoutOf, EntryBytes;
      file.Write(EntryToMemory(host, entry));
      SetImageOffset((imageOffset + entry.bytesInRes) % U32Mod);
    }
  }

  /** One round of the header loop of Encode(hFile, pImages, nPageCount) on
      the ghost object. */
  method EncodeHeaderPage(g: CxImageIco, file: CxFile, first: bool, n: nat, png: Option<PngEncoder>, host: Host,
                          ghost pages: seq<CxImageIco>, ghost imgs: seq<Image>)
    returns (ok: bool)
    requires g.Valid()
    requires |imgs| == |pages|
    requires forall j :: 0 <= j < |pages| ==> pages[j].Valid() && pages[j].Snapshot() == imgs[j] && pages[j] != g
    modifies g, file, g.palette
    ensures g.Valid() && g.Snapshot() == old(g.Snapshot()) && g.palette[..] == old(g.palette[..])
    ensures g.head == old(g.head) && g.info == old(g.info) && g.pixels == old(g.pixels)
    ensures g.palette == old(g.palette) && g.alpha == old(g.alpha)
    ensures old(g.Snapshot()).Wf()
    ensures forall j :: 0 <= j < |pages| ==> pages[j].Valid() && pages[j].Snapshot() == imgs[j]
    ensures HeaderPage(old(g.Snapshot()), EncState(old(file.data), old(file.pos), old(g.imageOffset)), first, n, png)
            == Pass(ok, EncState(file.data, file.pos, g.imageOffset))
  {
    g.SnapshotWf();
    if first {
      ok := g.Encode(file, false, n, png, host);
      if !ok {
        return;
      }
    }
    ok := g.Encode(file, true, n, png, host);
  }

  /** One round of the body loop: page i's body. */
  method EncodeBodyPage(g: CxImageIco, file: CxFile, i: nat, png: Option<PngEncoder>, host: Host,
                        ghost pages: seq<CxImageIco>, ghost imgs: seq<Image>)
    returns (ok: bool)
    requires g.Valid()
    requires |imgs| == |pages|
    requires forall j :: 0 <= j < |pages| ==> pages[j].Valid() && pages[j].Snapshot() == imgs[j] && pages[j] != g
    modifies g, file, g.palette
    ensures g.Valid() && g.Snapshot() == old(g.Snapshot()) && g.palette[..] == old(g.palette[..])
    ensures g.head == old(g.head) && g.info == old(g.info) && g.pixels == old(g.pixels)
    ensures g.palette == old(g.palette) && g.alpha == old(g.alpha)
    ensures old(g.Snapshot()).Wf()
    ensures forall j :: 0 <= j < |pages| ==> pages[j].Valid() && pages[j].Snapshot() == imgs[j]
    ensures var e := EncodePage(old(g.Snapshot()), EncState(old(file.data), old(file.pos), old(g.imageOffset)), true, i, png);
      ok == e.Some? &&
      EncState(file.data, file.pos, g.imageOffset)
        == (if ok then e.value else EncState(old(file.data), old(file.pos), old(g.imageOffset)))
  {
    g.SnapshotWf();
    ok := g.Encode(file, true, i, png, host);
  }

  /** The checks of Encode(hFile, pImages, nPageCount) before it writes:
      every page is non-null and allocated. */
  method PagesPresent(pages: seq<CxImageIco?>, ghost imgs: seq<Image>) returns (all: bool)
    requires |imgs| == |pages|
    requires forall i :: 0 <= i < |pages| && pages[i] != null ==> pages[i].Valid() && pages[i].Snapshot() == imgs[i]
    ensures all <==> forall i :: 0 <= i < |pages| ==> pages[i] != null && imgs[i].valid
  {
    var i := 0;
    while i < |pages|
      invariant 0 <= i <= |pages|
      invariant forall j :: 0 <= j < i ==> pages[j] != null && imgs[j].valid
    {
      if pages[i] == null {
        return false;
      }
      pages[i].HeadIs();
      if !pages[i].head.valid {
        return false;
      }
      i := i + 1;
    }
    return true;
  }

  /** The header loop: the file header, then one directory entry per page. */
  method EncodeHeaders(g: CxImageIco, file: CxFile, pages: seq<CxImageIco>, ghost imgs: seq<Image>,
                       png: Option<PngEncoder>, host: Host)
    returns (ok: bool)
    requires |imgs| == |pages| && AllWf(imgs) && g.Valid()
    requires forall j :: 0 <= j < |pages| ==> pages[j].Valid() && pages[j].Snapshot() == imgs[j] && pages[j] != g
    modifies g, file, set i | 0 <= i < |pages| :: pages[i].palette
    ensures g.Valid()
    ensures forall j :: 0 <= j < |pages| ==> pages[j].Valid() && pages[j].Snapshot() == imgs[j]
    ensures HeaderPass(imgs, EncState(old(file.data), old(file.pos), old(g.imageOffset)), |pages|, png)
            == Pass(ok, EncState(file.data, file.pos, g.imageOffset))
  {
    hide HeaderPass, HeaderPage, EncodePage, Page, CxImageIco.Snapshot, CxImageIco.Valid;
    ghost var st := EncState(file.data, file.pos, g.imageOffset);
    PassesStart(imgs, st, png);
    var i := 0;
    while i < |pages|
      invariant 0 <= i <= |pages| && g.Valid()
      invariant forall j :: 0 <= j < |pages| ==> pages[j].Valid() && pages[j].Snapshot() == imgs[j] && pages[j] != g
      invariant HeaderPass(imgs, st, i, png) == Pass(true, EncState(file.data, file.pos, g.imageOffset))
    {
      g.Ghost(pages[i]);
      g.SetNumFrames(|pages|);
      HeaderPassStep(imgs, st, i, png);
      ok := EncodeHeaderPage(g, file, i == 0, |pages|, png, host, pages, imgs);
      if !ok {
        HeaderPassStops(imgs, st, i + 1, |pages|, png);
        return;
      }
      i := i + 1;
    }
    ok := true;
  }

  /** The body loop: page i's body, for i from 0. */
  method EncodeBodies(g: CxImageIco, file: CxFile, pages: seq<CxImageIco>, ghost imgs: seq<Image>,
                      png: Option<PngEncoder>, host: Host)
    returns (ok: bool)
    requires |imgs| == |pages| && AllWf(imgs) && g.Valid()
    requires forall j :: 0 <= j < |pages| ==> pages[j].Valid() && pages[j].Snapshot() == imgs[j] && pages[j] != g
    modifies g, file, set i | 0 <= i < |pages| :: pages[i].palette
    ensures forall j :: 0 <= j < |pages| ==> pages[j].Valid() && pages[j].Snapshot() == imgs[j]
    ensures BodyPass(imgs, EncState(old(file.data), old(file.pos), old(g.imageOffset)), |pages|, png)
            == Pass(ok, EncState(file.data, file.pos, g.imageOffset))
  {
    hide BodyPass, EncodePage, Page, CxImageIco.Snapshot, CxImageIco.Valid;
    ghost var st := EncState(file.data, file.pos, g.imageOffset);
    PassesStart(imgs, st, png);
    var i := 0;
    while i < |pages|
      invariant 0 <= i <= |pages| && g.Valid()
      invariant forall j :: 0 <= j < |pages| ==> pages[j].Valid() && pages[j].Snapshot() == imgs[j] && pages[j] != g
      invariant BodyPass(imgs, st, i, png) == Pass(true, EncState(file.data, file.pos, g.imageOffset))
    {
      g.Ghost(pages[i]);
      g.SetNumFrames(|pages|);
      BodyPassStep(imgs, st, i, png);
      ok := EncodeBodyPage(g, file, i, png, host, pages, imgs);
      if !ok {
        BodyPassStops(imgs, st, i + 1, |pages|, png);
        return;
      }
      i := i + 1;
    }
    ok := true;
  }

  /** Encode(hFile, pImages, nPageCount): a multi-page icon. A null file, an
      empty list, a null or an unallocated page write nothing; otherwise a
      ghost object takes each page in turn with nNumFrames set to the page
      count, first writing the file header and the directory, then the bodies,
      and the first failing call ends the encoding. The pages are left as they
      were. */
  method EncodePages(file: CxFile?, pages: seq<CxImageIco?>, ghost imgs: seq<Image>,
                     png: Option<PngEncoder>, host: Host)
    returns (ok: bool)
    requires |imgs| == |pages| && AllWf(imgs)
    requires forall i :: 0 <= i < |pages| && pages[i] != null ==> pages[i].Valid() && pages[i].Snapshot() == imgs[i]
    modifies file, set i | 0 <= i < |pages| && pages[i] != null :: pages[i].palette
    ensures forall i :: 0 <= i < |pages| && pages[i] != null ==> pages[i].Valid() && pages[i].Snapshot() == imgs[i]
    ensures file == null || |pages| == 0 || (exists i :: 0 <= i < |pages| && pages[i] == null) ==> !ok
    ensures file != null && (|pages| == 0 || exists i :: 0 <= i < |pages| && pages[i] == null) ==>
      file.data == old(file.data) && file.pos == old(file.pos)
    ensures file != null && |pages| > 0 && (forall i :: 0 <= i < |pages| ==> pages[i] != null) ==>
      var r := EncodeAll(imgs, old(file.data), old(file.pos), png);
      ok == r.ok && file.data == r.st.data && file.pos == r.st.pos
  {
    hide HeaderPass, BodyPass, CxImageIco.Snapshot, CxImageIco.Valid;
    if file == null || |pages| == 0 {
      return false;
    }
    var all := PagesPresent(pages, imgs);
    if !all {
      return false;
    }
    var present: seq<CxImageIco> := seq(|pages|, i requires 0 <= i < |pages| => pages[i]);
    var g := new CxImageIco();
    ok := EncodeHeaders(g, file, present, imgs, png, host);
    if !ok {
      return;
    }
    ok := EncodeBodies(g, file, present, imgs, png, host);
  }
}
