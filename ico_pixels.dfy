/** Where a pixel lives in a DIB buffer: the padded row stride, the byte holding
    pixel x of a row, and the bit field inside that byte for 1 and 4 bits per
    pixel. The AND mask of an icon is such a buffer at 1 bit per pixel, so the
    same reader and writer serve the mask of the decoder and of the encoder. */
module IcoPixels {
  import opened Bytes
  import opened Arith

  /** A DIB row of w pixels at bpp bits each, padded to a multiple of 4 bytes. */
  function RowBytes(bpp: nat, w: nat): (n: nat)
    ensures bpp * w <= 8 * n < bpp * w + 32
  {
    ((bpp * w + 31) / 32) * 4
  }

  /** The AND mask: one bit per pixel, rows padded to 4 bytes. */
  function MaskStride(w: nat): (n: nat)
    ensures w <= 8 * n < w + 32
  {
    RowBytes(1, w)
  }

  predicate IndexedDepth(bpp: nat) { bpp == 1 || bpp == 4 || bpp == 8 }

  /** The byte offset of pixel x inside its row, that is (x * bpp) >> 3. */
  function ByteOf(bpp: nat, x: nat): nat
  {
    if bpp == 1 then x / 8 else if bpp == 4 then x / 2 else if bpp == 8 then x else 3 * x
  }

  /** The number of values an index of bpp bits can take. */
  function Levels(bpp: nat): nat
  {
    if bpp == 1 then 2 else if bpp == 4 then 16 else 256
  }

  /** The shift of pixel x's field inside its byte: the leftmost pixel of a byte
      lives in its high bits. */
  function Shift(bpp: nat, x: nat): (p: bv8)
    ensures p < 8
  {
    if bpp == 4 then (if x % 2 == 0 then 4 else 0)
    else [7, 6, 5, 4, 3, 2, 1, 0][x % 8]
  }

  function FieldMask(bpp: nat): bv8
  {
    if bpp == 4 then 0x0F else 0x01
  }

  lemma ByteBits(b: bv8)
    ensures (b as int) as bv8 == b && 0 <= b as int < 256
  {}

  function ToByte(b: bv8): byte
  {
    ByteBits(b);
    b as int
  }

  /** The byte c with the field m << p replaced by the low bits of i. */
  function SetField(c: bv8, m: bv8, p: bv8, i: bv8): bv8
    requires p < 8
  {
    (c & !(m << p)) | ((i & m) << p)
  }

  lemma SetField1(c: bv8, p: bv8, q: bv8, i: bv8)
    requires p < 8 && q < 8
    ensures (SetField(c, 1, p, i) >> p) & 1 == i & 1
    ensures p != q ==> (SetField(c, 1, p, i) >> q) & 1 == (c >> q) & 1
  {}

  lemma SetField4(c: bv8, p: bv8, q: bv8, i: bv8)
    requires (p == 0 || p == 4) && (q == 0 || q == 4)
    ensures (SetField(c, 0x0F, p, i) >> p) & 0x0F == i & 0x0F
    ensures p != q ==> (SetField(c, 0x0F, p, i) >> q) & 0x0F == (c >> q) & 0x0F
  {}

  lemma LowBits(i: bv8)
    ensures i < 16 ==> i & 0x0F == i
    ensures i < 2 ==> i & 1 == i
    ensures (i & 0x0F) < 16 && (i & 1) < 2
  {}

  /** The offset of the byte that holds pixel (x, y) in a buffer with rows of eff
      bytes. */
  function Addr(eff: nat, bpp: nat, x: nat, y: nat): nat
  {
    y * eff + ByteOf(bpp, x)
  }

  /** The field of pixel x inside byte b. */
  function Field(b: bv8, bpp: nat, x: nat): bv8
  {
    (b >> Shift(bpp, x)) & FieldMask(bpp)
  }

  /** The byte b with pixel x's field replaced by the low bits of i. */
  function WithField(b: bv8, bpp: nat, x: nat, i: bv8): bv8
  {
    SetField(b, FieldMask(bpp), Shift(bpp, x), i)
  }

  lemma FieldOfWithField(c: bv8, bpp: nat, x: nat, x2: nat, i: bv8)
    requires bpp == 1 || bpp == 4
    requires x2 == x || Shift(bpp, x) != Shift(bpp, x2)
    ensures Field(WithField(c, bpp, x, i), bpp, x2) == if x2 == x then i & FieldMask(bpp) else Field(c, bpp, x2)
  {
    if bpp == 4 {
      SetField4(c, Shift(bpp, x), Shift(bpp, x2), i);
    } else {
      SetField1(c, Shift(bpp, x), Shift(bpp, x2), i);
    }
  }

  lemma FieldBound(b: bv8, bpp: nat, x: nat)
    ensures Field(b, bpp, x) as int < Levels(bpp)
  {
    LowBits(b >> Shift(bpp, x));
  }

  lemma ByteRoundTrip(i: byte)
    ensures ToByte(i as bv8) == i
  {}

  /** The palette index of pixel (x, y) (BlindGetPixelIndex): the whole byte at
      8 bits per pixel, the field at the pixel's shift at 4 and 1 bits, and 0 for
      any other depth. */
  function IndexAt(buf: seq<byte>, eff: nat, bpp: nat, x: nat, y: nat): (v: byte)
    requires Addr(eff, bpp, x, y) < |buf|
    ensures v < Levels(bpp)
  {
    var b := buf[Addr(eff, bpp, x, y)];
    if bpp == 8 then b
    else if bpp == 4 || bpp == 1 then
      FieldBound(b as bv8, bpp, x);
      ToByte(Field(b as bv8, bpp, x))
    else 0
  }

  /** The buffer after SetPixelIndex(x, y, i): the byte of the pixel gets i in the
      pixel's field, every other byte and field is kept. Other depths are left
      alone. */
  function WithIndex(buf: seq<byte>, eff: nat, bpp: nat, x: nat, y: nat, i: byte): (r: seq<byte>)
    requires Addr(eff, bpp, x, y) < |buf|
    ensures |r| == |buf|
    ensures forall j :: 0 <= j < |buf| && j != Addr(eff, bpp, x, y) ==> r[j] == buf[j]
  {
    var a := Addr(eff, bpp, x, y);
    if bpp == 8 then buf[a := i]
    else if bpp == 4 || bpp == 1 then buf[a := ToByte(WithField(buf[a] as bv8, bpp, x, i as bv8))]
    else buf
  }

  /** Reading a pixel back after setting it gives the index that was set. */
  lemma {:induction false} IndexAfterSet(buf: seq<byte>, eff: nat, bpp: nat, x: nat, y: nat, i: byte)
    requires IndexedDepth(bpp) && i < Levels(bpp)
    requires Addr(eff, bpp, x, y) < |buf|
    ensures IndexAt(WithIndex(buf, eff, bpp, x, y, i), eff, bpp, x, y) == i
  {
    if bpp != 8 {
      var a := Addr(eff, bpp, x, y);
      var d := WithField(buf[a] as bv8, bpp, x, i as bv8);
      ByteBits(d);
      FieldOfWithField(buf[a] as bv8, bpp, x, x, i as bv8);
      LowBits(i as bv8);
      assert Field(d, bpp, x) == i as bv8;
      ByteRoundTrip(i);
    }
  }

  /** Two different pixels of one row that share a byte use different fields. */
  lemma SameByteOtherShift(bpp: nat, x1: nat, x2: nat)
    requires IndexedDepth(bpp) && x1 != x2 && ByteOf(bpp, x1) == ByteOf(bpp, x2)
    ensures bpp != 8 && Shift(bpp, x1) != Shift(bpp, x2)
  {
    if bpp == 4 {
      assert x1 % 2 != x2 % 2;
    } else if bpp == 1 {
      assert x1 % 8 != x2 % 8;
    }
  }

  /** Setting one pixel leaves every other pixel of the raster as it was. */
  lemma IndexFrame(buf: seq<byte>, eff: nat, bpp: nat, x: nat, y: nat, i: byte, x2: nat, y2: nat)
    requires IndexedDepth(bpp)
    requires ByteOf(bpp, x) < eff && ByteOf(bpp, x2) < eff
    requires Addr(eff, bpp, x, y) < |buf| && Addr(eff, bpp, x2, y2) < |buf|
    requires x != x2 || y != y2
    ensures IndexAt(WithIndex(buf, eff, bpp, x, y, i), eff, bpp, x2, y2) == IndexAt(buf, eff, bpp, x2, y2)
  {
    if Addr(eff, bpp, x, y) == Addr(eff, bpp, x2, y2) {
      RowMajorInjective(y, ByteOf(bpp, x), y2, ByteOf(bpp, x2), eff);
      SameByteOtherShift(bpp, x, x2);
      SharedByteFrame(buf, eff, bpp, x, y, i, x2);
    }
  }

  /** Setting pixel x leaves pixel x2 of the same byte as it was, when their
      fields differ. */
  lemma SharedByteFrame(buf: seq<byte>, eff: nat, bpp: nat, x: nat, y: nat, i: byte, x2: nat)
    requires IndexedDepth(bpp) && bpp != 8 && Shift(bpp, x) != Shift(bpp, x2)
    requires Addr(eff, bpp, x, y) < |buf| && ByteOf(bpp, x) == ByteOf(bpp, x2)
    ensures IndexAt(WithIndex(buf, eff, bpp, x, y, i), eff, bpp, x2, y) == IndexAt(buf, eff, bpp, x2, y)
  {
    hide Field;
    hide WithField;
    hide SetField;
    hide Shift;
    hide FieldMask;
    var a := Addr(eff, bpp, x, y);
    var d := WithField(buf[a] as bv8, bpp, x, i as bv8);
    ByteBits(d);
    FieldOfWithField(buf[a] as bv8, bpp, x, x2, i as bv8);
  }

  /** Pixel x of a w-wide row lies inside the row's bytes: the field of an
      indexed pixel, and all three bytes of a 24-bit pixel. */
  lemma {:induction false} PixelInRow(bpp: nat, w: nat, x: nat)
    requires x < w && (IndexedDepth(bpp) || bpp == 24)
    ensures ByteOf(bpp, x) < RowBytes(bpp, w)
    ensures bpp == 24 ==> 3 * x + 3 <= RowBytes(bpp, w)
  {
    var n := RowBytes(bpp, w);
    if bpp == 24 {
      assert 24 * (x + 1) <= 24 * w;
    } else if bpp == 4 {
      assert 4 * w <= 8 * n;
    }
  }

  /** Pixel (x, y) of a w by h raster lies inside its buffer of h rows. */
  lemma {:induction false} PixelInBuffer(bpp: nat, w: nat, h: nat, x: nat, y: nat)
    requires x < w && y < h && (IndexedDepth(bpp) || bpp == 24)
    ensures Addr(RowBytes(bpp, w), bpp, x, y) < RowBytes(bpp, w) * h
    ensures bpp == 24 ==> Addr(RowBytes(bpp, w), bpp, x, y) + 2 < RowBytes(bpp, w) * h
  {
    PixelInRow(bpp, w, x);
    var n := RowBytes(bpp, w);
    if bpp == 24 {
      RowInside(y, 3 * x + 2, n, h);
    } else {
      RowInside(y, ByteOf(bpp, x), n, h);
    }
  }
}
