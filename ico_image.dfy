/** The part of a CxImage that the ICO codec reads and writes, as a value: the
    header fields, the pixel buffer, the palette, the alpha plane and the
    transparency settings; with the CxImage helpers the codec calls (Create,
    SetPalette, GetPixelIndex, GetPixelColor, SetTransIndex, SetTransColor,
    AlphaCreate, AlphaDelete, Negative, IsGrayScale, GetTransColor,
    AlphaPaletteIsValid) as functions on it. */
module IcoImage {
  import opened Wrappers
  import opened Bytes
  import opened Arith
  import opened IcoPixels
  import opened IcoRaster

  /** RGBQUAD, in its memory order. */
  datatype Quad = Quad(blue: byte, green: byte, red: byte, reserved: byte)

  const Black := Quad(0, 0, 0, 0)

  /** The image: `valid` is "the DIB is allocated"; `transIndex` is the
      transparent palette index (-1 for none) and `transColor` the transparent
      colour; `alpha` is the alpha plane, one byte per pixel, row by row. */
  datatype Image = Image(
    valid: bool, width: nat, height: nat, bpp: nat, clrUsed: nat,
    pixels: seq<byte>, palette: seq<Quad>, alpha: Option<seq<byte>>,
    transIndex: int, transColor: Quad, numFrames: nat)
  {
    /** The shape invariant CxImage keeps for an allocated image. */
    ghost predicate Wf() {
      && Shape(valid, width, height, bpp, clrUsed, |palette|, |pixels|)
      && (alpha.Some? ==> |alpha.value| == width * height)
    }

    /** info.dwEffWidth: the padded row length. */
    function EffWidth(): nat { RowBytes(bpp, width) }

    /** head.biSizeImage. */
    function SizeImage(): nat { RowBytes(bpp, width) * height }
  }

  /** The header of an image agrees with its buffers: an allocated image has
      pixels, the depth is one CxImage stores, only palette depths have a
      palette, of at most 2^bpp entries, and the pixel buffer holds height rows
      of the padded row length. */
  ghost predicate Shape(valid: bool, width: nat, height: nat, bpp: nat, clrUsed: nat, npal: nat, npix: nat)
  {
    && (valid ==> width > 0 && height > 0)
    && (IndexedDepth(bpp) || bpp == 24)
    && (bpp == 24 ==> clrUsed == 0)
    && (bpp <= 8 ==> clrUsed <= Levels(bpp))
    && npal == clrUsed
    && npix == RowBytes(bpp, width) * height
  }

  function Quads(b: seq<byte>): (q: seq<Quad>)
    requires |b| % 4 == 0
    ensures |q| == |b| / 4
    ensures forall i :: 0 <= i < |q| ==> q[i] == Quad(b[4 * i], b[4 * i + 1], b[4 * i + 2], b[4 * i + 3])
  {
    seq(|b| / 4, i requires 0 <= i < |b| / 4 => Quad(b[4 * i], b[4 * i + 1], b[4 * i + 2], b[4 * i + 3]))
  }

  function QuadBytes(q: seq<Quad>): (b: seq<byte>)
    ensures |b| == 4 * |q|
  {
    if q == [] then [] else QuadBytes(q[..|q| - 1]) + [q[|q| - 1].blue, q[|q| - 1].green, q[|q| - 1].red, q[|q| - 1].reserved]
  }

  lemma {:induction false} QuadBytesAt(q: seq<Quad>, i: nat)
    requires i < |q|
    ensures QuadBytes(q)[4 * i] == q[i].blue && QuadBytes(q)[4 * i + 1] == q[i].green
    ensures QuadBytes(q)[4 * i + 2] == q[i].red && QuadBytes(q)[4 * i + 3] == q[i].reserved
  {
    if i < |q| - 1 {
      QuadBytesAt(q[..|q| - 1], i);
    }
  }

  /** A palette written as bytes reads back as the same palette. */
  lemma {:induction false} QuadsOfQuadBytes(q: seq<Quad>)
    ensures Quads(QuadBytes(q)) == q
  {
    forall i | 0 <= i < |q| ensures Quads(QuadBytes(q))[i] == q[i] {
      QuadBytesAt(q, i);
    }
  }

  /** Create's rounding of a bit count to a depth CxImage stores. */
  function NormalDepth(c: nat): (b: nat)
    ensures IndexedDepth(b) || b == 24
    ensures c <= b || b == 24
  {
    if c <= 1 then 1 else if c <= 4 then 4 else if c <= 8 then 8 else 24
  }

  function PaletteLength(bpp: nat): nat
  {
    if bpp == 24 then 0 else Levels(bpp)
  }

  /** CxImage::Create: a zeroed w by h image at the depth c rounds to, with a full
      zeroed palette and no alpha plane; transparency settings and frame count
      are kept. */
  function Create(img: Image, w: nat, h: nat, c: nat): (r: Image)
    ensures r.Wf() && r.valid == (w > 0 && h > 0)
    ensures r.width == w && r.height == h && r.bpp == NormalDepth(c)
    ensures r.clrUsed == (if c <= 8 then Levels(r.bpp) else 0)
    ensures forall i :: 0 <= i < |r.pixels| ==> r.pixels[i] == 0
    ensures forall i :: 0 <= i < |r.palette| ==> r.palette[i] == Black
    ensures r.alpha == None
    ensures r.transIndex == img.transIndex && r.transColor == img.transColor && r.numFrames == img.numFrames
  {
    var b := NormalDepth(c);
    Image(w > 0 && h > 0, w, h, b, PaletteLength(b), Zeros(RowBytes(b, w) * h),
          seq(PaletteLength(b), _ => Black), None, img.transIndex, img.transColor, img.numFrames)
  }

  /** SetPalette(pal, n): the first min(clrUsed, n) entries are taken from pal. */
  function SetPalette(img: Image, pal: seq<Quad>, n: nat): (r: Image)
    requires img.Wf()
    ensures r.Wf() && r == img.(palette := r.palette)
    ensures forall i :: 0 <= i < img.clrUsed ==>
      r.palette[i] == if i < n && i < |pal| then pal[i] else img.palette[i]
  {
    img.(palette := seq(img.clrUsed, i requires 0 <= i < img.clrUsed =>
                         if i < n && i < |pal| then pal[i] else img.palette[i]))
  }

  /** GetPaletteColor: black for an index past the palette. */
  function PaletteColor(img: Image, i: int): (q: Quad)
    requires img.Wf()
    ensures 0 <= i < img.clrUsed ==> q == img.palette[i]
    ensures !(0 <= i < img.clrUsed) ==> q == Black
  {
    if 0 <= i < img.clrUsed then img.palette[i] else Black
  }

  /** BlindGetPixelIndex of pixel number k. */
  function IndexOf(img: Image, k: nat): (v: byte)
    requires img.Wf() && k < img.width * img.height
    ensures v < Levels(img.bpp)
  {
    RasterIndex(img.pixels, img.bpp, img.width, img.height, k)
  }

  /** GetPixelIndex of pixel number k: 0 for an image without palette. */
  function PixelIndex(img: Image, k: nat): (v: byte)
    requires img.Wf() && k < img.width * img.height
    ensures img.clrUsed == 0 ==> v == 0
    ensures img.clrUsed > 0 ==> v == IndexOf(img, k)
  {
    if img.clrUsed == 0 then 0 else IndexOf(img, k)
  }

  /** GetPixelColor(x, y, false) of pixel number k: the palette colour of its
      index, or for a 24-bit image its three bytes with the transparent colour's
      reserved byte. */
  function PixelColor(img: Image, k: nat): (q: Quad)
    requires img.Wf() && k < img.width * img.height
    ensures img.clrUsed > 0 ==> q == PaletteColor(img, IndexOf(img, k))
    ensures img.clrUsed == 0 && img.bpp == 24 ==>
      var p, w, h := img.pixels, img.width, img.height;
      q == Quad(p[RgbAt(w, h, k, 0)], p[RgbAt(w, h, k, 1)], p[RgbAt(w, h, k, 2)], img.transColor.reserved)
  {
    if img.clrUsed > 0 then PaletteColor(img, IndexOf(img, k))
    else if img.bpp == 24 then
      var p := img.pixels;
      var w, h := img.width, img.height;
      Quad(p[RgbAt(w, h, k, 0)], p[RgbAt(w, h, k, 1)], p[RgbAt(w, h, k, 2)], img.transColor.reserved)
    else PaletteColor(img, 0)
  }

  /** SetTransIndex: an index past the palette becomes 0. */
  function SetTransIndex(img: Image, idx: int): (r: Image)
    ensures r == img.(transIndex := r.transIndex)
    ensures idx < img.clrUsed ==> r.transIndex == idx
    ensures idx >= img.clrUsed ==> r.transIndex == 0
  {
    img.(transIndex := if idx < img.clrUsed then idx else 0)
  }

  /** SetTransColor: the colour with its reserved byte cleared. */
  function SetTransColor(img: Image, q: Quad): (r: Image)
    ensures r == img.(transColor := q.(reserved := 0))
  {
    img.(transColor := q.(reserved := 0))
  }

  /** AlphaCreate: a fully opaque plane, unless one exists already. */
  function AlphaCreate(img: Image): (r: Image)
    ensures r == img.(alpha := r.alpha)
    ensures img.alpha.Some? ==> r.alpha == img.alpha
    ensures img.alpha.None? ==> r.alpha.Some? && |r.alpha.value| == img.width * img.height
    ensures img.alpha.None? ==> forall i :: 0 <= i < |r.alpha.value| ==> r.alpha.value[i] == 255
  {
    if img.alpha.Some? then img else img.(alpha := Some(seq(img.width * img.height, _ => 255)))
  }

  function AlphaDelete(img: Image): (r: Image)
    ensures r == img.(alpha := None)
  {
    img.(alpha := None)
  }

  /** IsGrayScale: a palette whose entry i is the grey (i, i, i). */
  predicate IsGrayScale(img: Image)
    requires img.Wf()
  {
    img.valid && img.clrUsed > 0
    && forall i :: 0 <= i < img.clrUsed ==>
         img.palette[i].blue == i && img.palette[i].green == i && img.palette[i].red == i
  }

  function Invert(b: byte): byte { 255 - b }

  function InvertQuad(q: Quad): Quad
  {
    Quad(Invert(q.blue), Invert(q.green), Invert(q.red), q.reserved)
  }

  function InvertedPalette(pal: seq<Quad>): (r: seq<Quad>)
    ensures |r| == |pal| && forall i :: 0 <= i < |pal| ==> r[i] == InvertQuad(pal[i])
  {
    seq(|pal|, i requires 0 <= i < |pal| => InvertQuad(pal[i]))
  }

  function InvertedBytes(b: seq<byte>): (r: seq<byte>)
    ensures |r| == |b| && forall i :: 0 <= i < |b| ==> r[i] == Invert(b[i])
  {
    seq(|b|, i requires 0 <= i < |b| => Invert(b[i]))
  }

  /** Negative: a palette image that is not greyscale gets its palette colours
      inverted; any other image gets every byte of its pixel buffer inverted,
      and a 24-bit image its transparent colour too. */
  function Negative(img: Image): (r: Image)
    requires img.Wf()
    ensures r.Wf()
    ensures !img.valid ==> r == img
    ensures img.valid && img.bpp <= 8 && !IsGrayScale(img) ==>
      r == img.(palette := InvertedPalette(img.palette))
    ensures img.valid && img.bpp <= 8 && IsGrayScale(img) ==>
      r == img.(pixels := InvertedBytes(img.pixels))
    ensures img.valid && img.bpp > 8 ==>
      r == img.(pixels := InvertedBytes(img.pixels), transColor := InvertQuad(img.transColor))
  {
    if !img.valid then img
    else if img.bpp <= 8 && !IsGrayScale(img) then img.(palette := InvertedPalette(img.palette))
    else if img.bpp > 8 then
      img.(pixels := InvertedBytes(img.pixels), transColor := InvertQuad(img.transColor))
    else img.(pixels := InvertedBytes(img.pixels))
  }

  /** Inverting twice gives the image back, unless inverting a colour palette
      happened to produce a greyscale one. */
  lemma NegativeInvolution(img: Image)
    requires img.Wf()
    requires img.bpp == 24 || IsGrayScale(img) || !IsGrayScale(Negative(img))
    ensures Negative(Negative(img)) == img
  {
    var n := Negative(img);
    if img.valid && img.bpp <= 8 && !IsGrayScale(img) {
      assert InvertedPalette(n.palette) == img.palette;
    } else if img.valid {
      assert InvertedBytes(n.pixels) == img.pixels;
    }
  }

  /** GetTransColor: the palette colour of the transparent index for images
      below 24 bits, the transparent colour otherwise. */
  function TransColorOf(img: Image): (q: Quad)
    requires img.Wf()
    ensures img.bpp < 24 && img.transIndex >= 0 ==> q == PaletteColor(img, img.transIndex % 256)
    ensures !(img.bpp < 24 && img.transIndex >= 0) ==> q == img.transColor
  {
    if img.bpp < 24 && img.transIndex >= 0 then PaletteColor(img, img.transIndex % 256) else img.transColor
  }

  /** AlphaPaletteIsValid: the palette carries alpha when entry 0's reserved byte
      is neither 0 nor 255, or some entry's reserved byte differs from it. */
  predicate AlphaPaletteIsValid(img: Image)
    requires img.Wf()
  {
    var r0 := PaletteColor(img, 0).reserved;
    (r0 != 0 && r0 != 255) || exists n :: 1 <= n < img.clrUsed && img.palette[n].reserved != r0
  }

  /** The AND-mask bit of pixel number k (1 = transparent), read at bit
      7 - x % 8 of byte y * stride + x / 8. */
  predicate MaskBit(mask: seq<byte>, w: nat, h: nat, k: nat)
    requires |mask| == MaskStride(w) * h && k < w * h
  {
    RasterIndex(mask, 1, w, h, k) == 1
  }
}
