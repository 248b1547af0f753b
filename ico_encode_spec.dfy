/** What CxImageICO::Encode writes, as functions of the image, the running
    image offset (m_dwImageOffset) and the file. The PNG encoder used for
    images over 255 pixels is a parameter; `None` stands for a build without
    PNG support. */
module IcoEncodeSpec {
  import opened Wrappers
  import opened Bytes
  import opened IcoFormat
  import opened IcoPixels
  import opened IcoRaster
  import opened IcoImage

  /** The PNG encoder: the complete PNG stream of an image. */
  type PngEncoder = Image -> seq<byte>

  /** The sizes one image contributes: its entry's bit count, the size of its
      pixel data, the size of its mask. */
  datatype Layout = Layout(bitCount: nat, imageSize: nat, maskSize: nat)

  /** 32 bits with 4 bytes per pixel for a true-colour image with alpha; the
      image's own depth and biSizeImage otherwise. */
  function LayoutOf(img: Image): (l: Layout)
    requires img.Wf()
    ensures l.maskSize == MaskStride(img.width) * img.height
    ensures img.alpha.Some? && img.clrUsed == 0 ==>
      l.bitCount == 32 && l.imageSize == 4 * (img.width * img.height)
    ensures !(img.alpha.Some? && img.clrUsed == 0) ==>
      l.bitCount == img.bpp && l.imageSize == |img.pixels|
  {
    var masksize := MaskStride(img.width) * img.height;
    if img.alpha.Some? && img.clrUsed == 0 then Layout(32, 4 * (img.width * img.height), masksize)
    else Layout(img.bpp, img.SizeImage(), masksize)
  }

  /** The image is stored as an embedded PNG stream. */
  predicate StoredAsPng(img: Image, png: Option<PngEncoder>)
  {
    png.Some? && (img.width > 255 || img.height > 255)
  }

  /** dwBytesInRes: header, palette, pixels and mask of a DIB body, or the
      length of the PNG stream. */
  function BytesInRes(img: Image, png: Option<PngEncoder>): (n: nat)
    requires img.Wf()
    ensures n < U32Mod
  {
    if StoredAsPng(img, png) then |png.value(img)| % U32Mod
    else
      var l := LayoutOf(img);
      (InfoHeaderSize + QuadSize * img.clrUsed + l.imageSize + l.maskSize) % U32Mod
  }

  /** The directory entry of an image whose body starts at `offset`. Width,
      height and colour count are truncated to a byte; a PNG body has width
      and height 0. */
  function EntryFor(img: Image, offset: nat, png: Option<PngEncoder>): (e: DirEntry)
    requires img.Wf()
    ensures e.Wf()
    ensures StoredAsPng(img, png) ==> e.width == 0 && e.height == 0
    ensures img.valid && img.width <= 255 && img.height <= 255 ==>
      e.width == img.width && e.height == img.height && e.width != 0
  {
    var l := LayoutOf(img);
    var png0 := StoredAsPng(img, png);
    var w, h := if png0 then 0 else img.width % 256, if png0 then 0 else img.height % 256;
    DirEntry(w, h, img.clrUsed % 256, 0, 0, l.bitCount % 0x1_0000, BytesInRes(img, png), offset % U32Mod)
  }

  /** The BITMAPINFOHEADER of a DIB body: height 2H for the image and the mask
      above each other. */
  function InfoHeaderFor(img: Image): (b: InfoHeader)
    requires img.Wf()
    ensures b.Wf()
  {
    var l := LayoutOf(img);
    InfoHeader(InfoHeaderSize, img.width % U32Mod, (2 * img.height) % U32Mod, 1, l.bitCount % 0x1_0000,
               0, l.imageSize % U32Mod, 0, 0, 0, 0)
  }

  /** The palette as written: the transparent entry, when there is one, is
      written as black with reserved 0. */
  function PaletteOut(img: Image): (p: seq<Quad>)
    requires img.Wf()
    ensures |p| == img.clrUsed
    ensures forall i :: 0 <= i < img.clrUsed ==>
      p[i] == if img.transIndex >= 0 && i == img.transIndex % 256 then Black else img.palette[i]
  {
    if img.transIndex >= 0 && img.transIndex % 256 < img.clrUsed then img.palette[img.transIndex % 256 := Black]
    else img.palette
  }

  /** The pixel data as written: BGRA quadruples for a true-colour image with
      alpha, the pixel buffer otherwise. */
  function PixelsOut(img: Image): (b: seq<byte>)
    requires img.Wf() && (img.bpp <= 8 ==> img.clrUsed > 0)
    ensures |b| == LayoutOf(img).imageSize
  {
    if img.alpha.Some? && img.clrUsed == 0 then Pack(img.pixels, img.alpha.value, img.width, img.height, img.width * img.height)
    else img.pixels
  }

  /** BlindGetPixelColor(x, y).rgbReserved of pixel number k: the alpha value
      when there is an alpha plane, otherwise the palette entry's reserved
      byte, otherwise 0. */
  function ReservedOf(img: Image, k: nat): byte
    requires img.Wf() && k < img.width * img.height
  {
    if img.alpha.Some? then img.alpha.value[k]
    else if img.clrUsed > 0 then PaletteColor(img, IndexOf(img, k)).reserved
    else 0
  }

  /** The AND-mask bit the encoder gives pixel number k: transparent when its
      alpha is 0, when the palette carries alpha and its entry's is 0, or when
      its colour is the transparent colour. */
  predicate Transparent(img: Image, k: nat)
    requires img.Wf() && k < img.width * img.height
  {
    || (img.alpha.Some? && img.alpha.value[k] == 0)
    || (AlphaPaletteIsValid(img) && ReservedOf(img, k) == 0)
    || (img.transIndex >= 0 && PixelColor(img, k) == TransColorOf(img))
  }

  function MaskValues(img: Image): (v: seq<byte>)
    requires img.Wf()
    ensures |v| == img.width * img.height
    ensures forall k :: 0 <= k < |v| ==> v[k] == if Transparent(img, k) then 1 else 0
  {
    seq(img.width * img.height, k requires 0 <= k < img.width * img.height => if Transparent(img, k) then 1 else 0)
  }

  /** The mask after the first n pixels of a zeroed mask have had their bit set
      or cleared. */
  function MaskOut(img: Image, n: nat): (m: seq<byte>)
    requires img.Wf() && n <= img.width * img.height
    ensures |m| == MaskStride(img.width) * img.height
  {
    var w, h := img.width, img.height;
    Paint(Zeros(MaskStride(w) * h), 1, w, h, Everywhere(w * h), MaskValues(img), n)
  }

  /** Every pixel is selected. */
  function Everywhere(n: nat): (s: seq<bool>)
    ensures |s| == n && forall i :: 0 <= i < n ==> s[i]
  {
    seq(n, _ => true)
  }

  /** The calloc'd mask before the loop. */
  lemma MaskOutStart(img: Image)
    requires img.Wf()
    ensures MaskOut(img, 0) == Zeros(RowBytes(1, img.width) * img.height)
  {}

  /** One step of the mask loop at (x, y), pixel number y * w + x: the pixel's
      bit is set when it is transparent and cleared otherwise. */
  lemma MaskOutStep(img: Image, y: nat, x: nat)
    requires img.Wf() && y < img.height && x < img.width
    ensures y * img.width + x < img.width * img.height
    ensures Addr(RowBytes(1, img.width), 1, x, y) < RowBytes(1, img.width) * img.height
    ensures MaskOut(img, y * img.width + x + 1)
         == WithIndex(MaskOut(img, y * img.width + x), RowBytes(1, img.width), 1, x, y,
                      if Transparent(img, y * img.width + x) then 1 else 0)
  {
    LoopPixel(y, x, img.width, img.height);
    PixelInBuffer(1, img.width, img.height, x, y);
  }

  /** The mask the encoder writes reads back, bit by bit, as the transparency
      it was built from. */
  lemma MaskRoundTrip(img: Image, k: nat)
    requires img.Wf() && k < img.width * img.height
    ensures MaskBit(MaskOut(img, img.width * img.height), img.width, img.height, k) <==> Transparent(img, k)
  {
    var w, h := img.width, img.height;
    PaintAt(Zeros(MaskStride(w) * h), 1, w, h, Everywhere(w * h), MaskValues(img), w * h, k);
  }

  /** The first half of a DIB body: the BITMAPINFOHEADER and the palette. */
  function DibHead(img: Image): (b: seq<byte>)
    requires img.Wf()
    ensures |b| == InfoHeaderSize + QuadSize * img.clrUsed
  {
    InfoHeaderBytes(InfoHeaderFor(img)) + QuadBytes(PaletteOut(img))
  }

  /** The second half of a DIB body: the pixels and the AND mask. */
  function DibBits(img: Image): (b: seq<byte>)
    requires img.Wf() && (img.bpp <= 8 ==> img.clrUsed > 0)
    ensures |b| == LayoutOf(img).imageSize + LayoutOf(img).maskSize
  {
    PixelsOut(img) + MaskOut(img, img.width * img.height)
  }

  /** The body of a DIB image: header, palette, pixels, mask. */
  function DibBody(img: Image): (b: seq<byte>)
    requires img.Wf() && (img.bpp <= 8 ==> img.clrUsed > 0)
    ensures |b| == InfoHeaderSize + QuadSize * img.clrUsed + LayoutOf(img).imageSize + LayoutOf(img).maskSize
  {
    DibHead(img) + DibBits(img)
  }

  /** A DIB body is the header, the palette as written, the pixels and the
      mask, one after another. */
  lemma DibBodyParts(img: Image)
    requires img.Wf() && (img.bpp <= 8 ==> img.clrUsed > 0)
    ensures DibBody(img)
         == InfoHeaderBytes(InfoHeaderFor(img)) + QuadBytes(PaletteOut(img)) + PixelsOut(img)
            + MaskOut(img, img.width * img.height)
  {}

  /** The reasons Encode refuses an image: no pixel data, a dimension over 255
      without PNG support, a palette depth without a palette. */
  predicate Encodable(img: Image, png: Option<PngEncoder>)
    requires img.Wf()
  {
    img.valid && !(png.None? && (img.width > 255 || img.height > 255))
    && !(img.bpp <= 8 && img.clrUsed == 0)
  }

  /** The file and the running offset as Encode leaves them. */
  datatype EncState = EncState(data: seq<byte>, pos: nat, offset: nat)

  /** hFile->Write(b): the bytes go at the cursor, which moves past them. */
  function Write(st: EncState, b: seq<byte>): EncState
  {
    EncState(Put(st.data, st.pos, b), st.pos + |b|, st.offset)
  }

  /** Writes the directory entry of img at the cursor and moves the running
      offset past img's body. */
  function WriteEntry(st: EncState, img: Image, png: Option<PngEncoder>): EncState
    requires img.Wf()
  {
    var w := Write(st, EntryBytes(EntryFor(img, st.offset, png)));
    w.(offset := (w.offset + BytesInRes(img, png)) % U32Mod)
  }

  function HeaderFor(nPageCount: int): (h: IconHeader)
    ensures h.Wf()
  {
    var nPages := if nPageCount < 1 then 1 else nPageCount;
    IconHeader(0, 1, nPages % 0x1_0000)
  }

  /** The body of an image: its PNG stream or its DIB body. */
  function Body(img: Image, png: Option<PngEncoder>): seq<byte>
    requires img.Wf() && (img.bpp <= 8 ==> img.clrUsed > 0)
  {
    if StoredAsPng(img, png) then png.value(img)[..BytesInRes(img, png)] else DibBody(img)
  }

  /** Encode(hFile, bAppend, nPageCount) on an image whose info.nNumFrames is
      img.numFrames: without bAppend it writes the file header and resets the
      offset; it writes the entry when appending with nPageCount equal to the
      frame count, the body when appending with a smaller nPageCount, and both
      for a single image (no append, nPageCount 0). */
  function EncodePage(img: Image, st: EncState, append: bool, nPageCount: int, png: Option<PngEncoder>): (r: Option<EncState>)
    requires img.Wf()
    ensures r.Some? <==> Encodable(img, png)
  {
    if !Encodable(img, png) then None
    else
      var st1 := HeaderStep(st, append, nPageCount);
      var single := !append && nPageCount == 0;
      var st2 := if (append && nPageCount == img.numFrames) || single then WriteEntry(st1, img, png) else st1;
      var st3 := if (append && nPageCount < img.numFrames) || single then Write(st2, Body(img, png)) else st2;
      Some(st3)
  }

  /** Without bAppend: the offset restarts past the header and the directory,
      and the header is written; with it nothing happens. */
  function HeaderStep(st: EncState, append: bool, nPageCount: int): (r: EncState)
    ensures append ==> r == st
    ensures !append ==> r.pos == st.pos + IconHeaderSize && r.offset < U32Mod
  {
    var nPages := if nPageCount < 1 then 1 else nPageCount;
    if append then st
    else Write(st.(offset := (IconHeaderSize + nPages * DirEntrySize) % U32Mod), HeaderBytes(HeaderFor(nPageCount)))
  }

  /** A body is as long as its entry says, up to the 32-bit truncation of
      dwBytesInRes. */
  lemma {:induction false} BodyLength(img: Image, png: Option<PngEncoder>)
    requires img.Wf() && (img.bpp <= 8 ==> img.clrUsed > 0)
    ensures |Body(img, png)| % U32Mod == BytesInRes(img, png)
  {
    if StoredAsPng(img, png) {
      assert |Body(img, png)| == BytesInRes(img, png);
    }
  }

  /** An encoder call that succeeded or failed, and the state it left. */
  datatype Pass = Pass(ok: bool, st: EncState)

  ghost predicate AllWf(pages: seq<Image>)
  {
    forall i :: 0 <= i < |pages| ==> pages[i].Wf()
  }

  /** The page as the multi-page encoder hands it over: a ghost of the image
      with info.nNumFrames set to the page count. */
  function Page(pages: seq<Image>, i: nat, n: nat): (g: Image)
    requires AllWf(pages) && i < |pages|
    ensures g.Wf() && g == pages[i].(numFrames := n)
  {
    pages[i].(numFrames := n)
  }

  /** The header loop of the multi-page encoder over pages 0 .. i - 1: the file
      header before page 0's entry, then one entry per page; the first failure
      stops it. */
  function HeaderPass(pages: seq<Image>, st: EncState, i: nat, png: Option<PngEncoder>): (r: Pass)
    requires AllWf(pages) && i <= |pages|
  {
    if i == 0 then Pass(true, st)
    else
      var p := HeaderPass(pages, st, i - 1, png);
      if !p.ok then p
      else HeaderPage(Page(pages, i - 1, |pages|), p.st, i - 1 == 0, |pages|, png)
  }

  /** One round of the header loop: the file header first when asked, then
      the page's entry; a failure leaves the state the last success left. */
  function HeaderPage(g: Image, st: EncState, first: bool, n: nat, png: Option<PngEncoder>): (r: Pass)
    requires g.Wf()
  {
    var f := if first then EncodePage(g, st, false, n, png) else Some(st);
    if f.None? then Pass(false, st)
    else
      var e := EncodePage(g, f.value, true, n, png);
      if e.None? then Pass(false, f.value) else Pass(true, e.value)
  }

  /** The body loop of the multi-page encoder over pages 0 .. i - 1. */
  function BodyPass(pages: seq<Image>, st: EncState, i: nat, png: Option<PngEncoder>): (r: Pass)
    requires AllWf(pages) && i <= |pages|
  {
    if i == 0 then Pass(true, st)
    else
      var p := BodyPass(pages, st, i - 1, png);
      if !p.ok then p
      else
        var e := EncodePage(Page(pages, i - 1, |pages|), p.st, true, i - 1, png);
        if e.None? then Pass(false, p.st) else Pass(true, e.value)
  }

  /** Both loops start successful, from the state they are given. */
  lemma PassesStart(pages: seq<Image>, st: EncState, png: Option<PngEncoder>)
    requires AllWf(pages)
    ensures HeaderPass(pages, st, 0, png) == Pass(true, st) && BodyPass(pages, st, 0, png) == Pass(true, st)
  {}

  /** The body loop runs one more round after a successful one. */
  lemma BodyPassStep(pages: seq<Image>, st: EncState, i: nat, png: Option<PngEncoder>)
    requires AllWf(pages) && i < |pages| && BodyPass(pages, st, i, png).ok
    ensures var e := EncodePage(Page(pages, i, |pages|), BodyPass(pages, st, i, png).st, true, i, png);
      BodyPass(pages, st, i + 1, png)
        == if e.None? then Pass(false, BodyPass(pages, st, i, png).st) else Pass(true, e.value)
  {}

  /** The header loop runs one more round after a successful one. */
  lemma HeaderPassStep(pages: seq<Image>, st: EncState, i: nat, png: Option<PngEncoder>)
    requires AllWf(pages) && i < |pages| && HeaderPass(pages, st, i, png).ok
    ensures HeaderPass(pages, st, i + 1, png)
         == HeaderPage(Page(pages, i, |pages|), HeaderPass(pages, st, i, png).st, i == 0, |pages|, png)
  {}

  /** A failed round ends the header loop: later rounds do not run. */
  lemma {:induction false} HeaderPassStops(pages: seq<Image>, st: EncState, i: nat, j: nat, png: Option<PngEncoder>)
    requires AllWf(pages) && i <= j <= |pages| && !HeaderPass(pages, st, i, png).ok
    ensures HeaderPass(pages, st, j, png) == HeaderPass(pages, st, i, png)
    decreases j
  {
    hide HeaderPage, Page;
    if i < j {
      HeaderPassStops(pages, st, i, j - 1, png);
    }
  }

  /** A failed round ends the body loop. */
  lemma {:induction false} BodyPassStops(pages: seq<Image>, st: EncState, i: nat, j: nat, png: Option<PngEncoder>)
    requires AllWf(pages) && i <= j <= |pages| && !BodyPass(pages, st, i, png).ok
    ensures BodyPass(pages, st, j, png) == BodyPass(pages, st, i, png)
    decreases j
  {
    hide EncodePage, Page;
    if i < j {
      BodyPassStops(pages, st, i, j - 1, png);
    }
  }

  /** Encode(hFile, pImages, nPageCount) for a non-empty list of pages: nothing
      is written unless every page is allocated; then the header loop and the
      body loop run, with the ghost's running offset starting at 0. */
  function EncodeAll(pages: seq<Image>, data: seq<byte>, pos: nat, png: Option<PngEncoder>): (r: Pass)
    requires AllWf(pages) && |pages| > 0
    ensures (exists i :: 0 <= i < |pages| && !pages[i].valid) ==> r == Pass(false, EncState(data, pos, 0))
  {
    var st := EncState(data, pos, 0);
    if exists i :: 0 <= i < |pages| && !pages[i].valid then Pass(false, st)
    else
      var h := HeaderPass(pages, st, |pages|, png);
      if !h.ok then h else BodyPass(pages, h.st, |pages|, png)
  }

  /** The offset the directory gives page i: just past the directory of n
      entries, plus the sizes of the pages before it. */
  function Offset(pages: seq<Image>, i: nat, png: Option<PngEncoder>): (o: nat)
    requires AllWf(pages) && i <= |pages|
    ensures o < U32Mod
  {
    if i == 0 then (IconHeaderSize + |pages| * DirEntrySize) % U32Mod
    else (Offset(pages, i - 1, png) + BytesInRes(Page(pages, i - 1, |pages|), png)) % U32Mod
  }

  function Entries(pages: seq<Image>, i: nat, png: Option<PngEncoder>): (b: seq<byte>)
    requires AllWf(pages) && i <= |pages|
    ensures |b| == DirEntrySize * i
  {
    if i == 0 then []
    else Entries(pages, i - 1, png) + EntryBytes(EntryFor(Page(pages, i - 1, |pages|), Offset(pages, i - 1, png), png))
  }

  predicate AllEncodable(pages: seq<Image>, png: Option<PngEncoder>)
    requires AllWf(pages)
  {
    forall i :: 0 <= i < |pages| ==> Encodable(pages[i], png)
  }

  function Bodies(pages: seq<Image>, i: nat, png: Option<PngEncoder>): (b: seq<byte>)
    requires AllWf(pages) && i <= |pages| && AllEncodable(pages, png)
  {
    if i == 0 then []
    else Bodies(pages, i - 1, png) + Body(Page(pages, i - 1, |pages|), png)
  }
}
