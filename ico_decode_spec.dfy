/** What CxImageICO::Decode computes, as functions of the file's bytes, the
    cursor it starts at, the image it is called on, the requested page and the
    escape setting. The PNG decoder that reads Vista icons is a parameter. */
module IcoDecodeSpec {
  import opened Wrappers
  import opened Bytes
  import opened Arith
  import opened IcoFormat
  import opened IcoPixels
  import opened IcoRaster
  import opened IcoImage

  /** The outcome of the PNG decoder: success, the image, the cursor after it. */
  datatype PngResult = PngResult(ok: bool, image: Image, pos: nat)

  /** The PNG decoder, given the file, the cursor and "dimensions only". */
  type PngDecoder = (seq<byte>, nat, bool) -> PngResult

  /** The outcome of Decode: its return value, the image afterwards, the file
      cursor afterwards, and whether the image (with its info block) was taken
      over from the PNG decoder. */
  datatype Decoded = Decoded(ok: bool, image: Image, pos: nat, fromPng: bool)

  /** The ICONHEADER a read at pos delivers (missing bytes read as zero). */
  function HeaderAt(data: seq<byte>, pos: nat): IconHeader
  {
    ParseHeader(Padded(ReadAt(data, pos, IconHeaderSize), IconHeaderSize))
  }

  /** The header check: reserved 0 and type 1 (icon) or 2 (cursor). */
  predicate IsIconHeader(h: IconHeader)
  {
    h.reserved == 0 && (h.kind == 1 || h.kind == 2)
  }

  datatype Directory = Directory(entries: seq<DirEntry>, end: nat)

  /** The n directory entries read one after another from pos, and the cursor
      after them. */
  function ReadDirectory(data: seq<byte>, pos: nat, n: nat): (d: Directory)
    ensures |d.entries| == n && pos <= d.end
  {
    if n == 0 then Directory([], pos)
    else
      var d := ReadDirectory(data, pos, n - 1);
      var raw := ReadAt(data, d.end, DirEntrySize);
      Directory(d.entries + [ParseEntry(Padded(raw, DirEntrySize))], d.end + |raw|)
  }

  /** When the file holds the whole directory, entry i is the 16 bytes at
      pos + 16 * i and the cursor ends right after the directory. */
  lemma {:induction false} DirectoryAt(data: seq<byte>, pos: nat, n: nat, i: nat)
    requires pos + DirEntrySize * n <= |data| && i < n
    ensures ReadDirectory(data, pos, n).end == pos + DirEntrySize * n
    ensures ReadDirectory(data, pos, n).entries[i]
         == ParseEntry(data[pos + DirEntrySize * i .. pos + DirEntrySize * (i + 1)])
  {
    hide ParseEntry;
    var d := ReadDirectory(data, pos, n - 1);
    if n > 1 {
      DirectoryAt(data, pos, n - 1, if i < n - 1 then i else 0);
    }
    assert d.end == pos + DirEntrySize * (n - 1);
    var raw := ReadAt(data, d.end, DirEntrySize);
    assert raw == data[d.end .. d.end + DirEntrySize];
    assert Padded(raw, DirEntrySize) == raw;
  }

  /** The mask has a byte other than 0xFF. */
  predicate GoodMask(mask: seq<byte>)
  {
    exists i :: 0 <= i < |mask| && mask[i] != 255
  }

  function MaskBits(mask: seq<byte>, w: nat, h: nat): (b: seq<bool>)
    requires |mask| == MaskStride(w) * h
    ensures |b| == w * h && forall k :: 0 <= k < w * h ==> b[k] == MaskBit(mask, w, h, k)
  {
    seq(w * h, k requires 0 <= k < w * h => MaskBit(mask, w, h, k))
  }

  predicate AnyMasked(mask: seq<byte>, w: nat, h: nat)
    requires |mask| == MaskStride(w) * h
  {
    exists k :: 0 <= k < w * h && MaskBit(mask, w, h, k)
  }

  /** The alpha plane with every masked pixel made fully transparent. */
  function MaskAlpha(alpha: seq<byte>, mask: seq<byte>, w: nat, h: nat): (r: seq<byte>)
    requires |alpha| == w * h && |mask| == MaskStride(w) * h
    ensures |r| == |alpha|
    ensures forall k :: 0 <= k < |alpha| ==> r[k] == if MaskBit(mask, w, h, k) then 0 else alpha[k]
  {
    seq(|alpha|, k requires 0 <= k < |alpha| => if MaskBit(mask, w, h, k) then 0 else alpha[k])
  }

  /** The alpha step of a good mask: masked pixels get alpha 0 in the existing
      plane or in a new opaque one, and a new plane that no pixel needed is
      dropped again. */
  function ApplyMaskAlpha(img: Image, mask: seq<byte>): (r: Image)
    requires img.Wf() && |mask| == MaskStride(img.width) * img.height
    ensures r.Wf() && r == img.(alpha := r.alpha)
    ensures r.alpha.Some? <==> img.alpha.Some? || AnyMasked(mask, img.width, img.height)
  {
    var a := AlphaCreate(img).alpha.value;
    if img.alpha.Some? || AnyMasked(mask, img.width, img.height) then
      img.(alpha := Some(MaskAlpha(a, mask, img.width, img.height)))
    else img.(alpha := None)
  }

  /** The state of the "only one transparent colour" scan: how many masked
      pixels were counted, the index and colour of the first one. */
  datatype TransScan = TransScan(count: nat, index: int, color: Quad)

  /** The scan over the first n pixels: the first masked pixel is counted and
      remembered, every later masked pixel whose colour differs from it is
      counted too. */
  function ScanTrans(img: Image, mask: seq<byte>, n: nat): (s: TransScan)
    requires img.Wf() && |mask| == MaskStride(img.width) * img.height
    requires n <= img.width * img.height
  {
    if n == 0 then TransScan(0, 0, Black)
    else
      var s := ScanTrans(img, mask, n - 1);
      var k := n - 1;
      if !MaskBit(mask, img.width, img.height, k) then s
      else if s.count == 0 then TransScan(1, PixelIndex(img, k), PixelColor(img, k))
      else if PixelColor(img, k) != s.color then s.(count := s.count + 1)
      else s
  }

  predicate NoMaskedBefore(mask: seq<byte>, w: nat, h: nat, f: nat)
    requires |mask| == MaskStride(w) * h && f <= w * h
  {
    forall j :: 0 <= j < f ==> !MaskBit(mask, w, h, j)
  }

  /** The scan counts nothing exactly when no pixel among the first n is
      masked. */
  lemma {:induction false} ScanTransEmpty(img: Image, mask: seq<byte>, n: nat)
    requires img.Wf() && |mask| == MaskStride(img.width) * img.height
    requires n <= img.width * img.height
    ensures ScanTrans(img, mask, n).count == 0 <==> NoMaskedBefore(mask, img.width, img.height, n)
  {
    hide PixelColor;
    hide PixelIndex;
    hide MaskBit;
    if n > 0 {
      ScanTransEmpty(img, mask, n - 1);
    }
  }

  /** Once something is counted, the scan holds the index and colour of the
      first masked pixel. */
  lemma {:induction false} ScanTransFirst(img: Image, mask: seq<byte>, n: nat) returns (f: nat)
    requires img.Wf() && |mask| == MaskStride(img.width) * img.height
    requires n <= img.width * img.height
    requires ScanTrans(img, mask, n).count > 0
    ensures f < n && MaskBit(mask, img.width, img.height, f)
    ensures NoMaskedBefore(mask, img.width, img.height, f)
    ensures ScanTrans(img, mask, n).index == PixelIndex(img, f)
    ensures ScanTrans(img, mask, n).color == PixelColor(img, f)
  {
    hide PixelColor;
    hide PixelIndex;
    hide MaskBit;
    var s := ScanTrans(img, mask, n - 1);
    if s.count > 0 {
      f := ScanTransFirst(img, mask, n - 1);
    } else {
      ScanTransEmpty(img, mask, n - 1);
      f := n - 1;
    }
  }

  /** The scan ends with a count of 1 exactly when something was counted and
      every masked pixel has the colour of the first one. */
  lemma {:induction false} ScanTransSingle(img: Image, mask: seq<byte>, n: nat)
    requires img.Wf() && |mask| == MaskStride(img.width) * img.height
    requires n <= img.width * img.height
    ensures var s := ScanTrans(img, mask, n);
      s.count == 1 <==>
        s.count > 0 && forall j :: 0 <= j < n && MaskBit(mask, img.width, img.height, j) ==> PixelColor(img, j) == s.color
  {
    hide PixelColor;
    hide PixelIndex;
    hide MaskBit;
    if n > 0 {
      ScanTransSingle(img, mask, n - 1);
      var s := ScanTrans(img, mask, n - 1);
      if s.count == 0 {
        ScanTransEmpty(img, mask, n - 1);
      }
    }
  }

  /** colorsUsed after the first n pixels: entry i is set when some pixel has
      index i. */
  function ColorsUsed(img: Image, n: nat): (used: seq<bool>)
    requires img.Wf() && img.bpp <= 8 && n <= img.width * img.height
    ensures |used| == 256
  {
    if n == 0 then seq(256, _ => false)
    else ColorsUsed(img, n - 1)[IndexOf(img, n - 1) := true]
  }

  lemma {:induction false} ColorsUsedMeaning(img: Image, n: nat, i: nat)
    requires img.Wf() && img.bpp <= 8 && n <= img.width * img.height && i < 256
    ensures ColorsUsed(img, n)[i] <==> exists j :: 0 <= j < n && IndexOf(img, j) == i
  {
    hide IndexOf, RowBytes;
    if n > 0 {
      ColorsUsedMeaning(img, n - 1, i);
    }
  }

  /** The search from index n - 1 down to 0 for an entry no pixel uses: the
      highest unused index below n, or -1 when all are used. */
  function HighestUnused(used: seq<bool>, n: nat): (r: int)
    requires n <= |used|
    ensures -1 <= r < n
    ensures r >= 0 ==> !used[r]
    ensures forall i :: r < i < n ==> used[i]
  {
    if n == 0 then -1
    else if !used[n - 1] then n - 1
    else HighestUnused(used, n - 1)
  }

  /** The pixel buffer after every masked pixel is set to index t. */
  function Retrans(img: Image, mask: seq<byte>, t: byte): (r: seq<byte>)
    requires img.Wf() && img.bpp <= 8 && |mask| == MaskStride(img.width) * img.height
    ensures |r| == |img.pixels|
  {
    var w, h := img.width, img.height;
    Paint(img.pixels, img.bpp, w, h, MaskBits(mask, w, h), Repeat(t, w * h), w * h)
  }

  lemma RetransAt(img: Image, mask: seq<byte>, t: byte, k: nat)
    requires img.Wf() && img.bpp <= 8 && |mask| == MaskStride(img.width) * img.height
    requires t < Levels(img.bpp) && k < img.width * img.height
    ensures IndexOf(img.(pixels := Retrans(img, mask, t)), k)
         == if MaskBit(mask, img.width, img.height, k) then t else IndexOf(img, k)
  {
    var w, h := img.width, img.height;
    PaintAt(img.pixels, img.bpp, w, h, MaskBits(mask, w, h), Repeat(t, w * h), w * h, k);
  }

  /** The single-transparent-colour step: with exactly one colour among the
      masked pixels of a palette image, that colour and index become the
      transparent ones and the alpha plane goes. */
  function ApplyTransColor(img: Image, mask: seq<byte>, c: nat): (r: Image)
    requires img.Wf() && |mask| == MaskStride(img.width) * img.height
    ensures r.Wf()
  {
    var s := ScanTrans(img, mask, img.width * img.height);
    if s.count == 1 && c <= 8 then AlphaDelete(SetTransIndex(SetTransColor(img, s.color), s.index))
    else img
  }

  /** The unused-index step of a palette image: masked pixels move to the
      highest unused palette index, which becomes the transparent index when
      some pixel was masked; the alpha plane goes. */
  function ApplyUnusedIndex(img: Image, mask: seq<byte>): (r: Image)
    requires img.Wf() && img.bpp <= 8 && |mask| == MaskStride(img.width) * img.height
    ensures r.Wf()
  {
    var t := HighestUnused(ColorsUsed(img, img.width * img.height), img.clrUsed);
    if t < 0 then img
    else
      var i := img.(pixels := Retrans(img, mask, t));
      AlphaDelete(if AnyMasked(mask, img.width, img.height) then SetTransIndex(i, t) else i)
  }

  /** What the AND mask does to a freshly read image whose file bit count is c. */
  function ApplyMask(img: Image, mask: seq<byte>, c: nat): (r: Image)
    requires img.Wf() && |mask| == MaskStride(img.width) * img.height
    requires (c <= 8) == (img.bpp <= 8)
    ensures r.Wf()
  {
    if !GoodMask(mask) then Negative(SetTransIndex(img, 0))
    else
      var i1 := ApplyTransColor(ApplyMaskAlpha(img, mask), mask, c);
      if c <= 8 then ApplyUnusedIndex(i1, mask) else i1
  }

  /** An image and the cursor after it. */
  datatype Stage = Stage(image: Image, pos: nat)

  /** The palette read: bih.biClrUsed entries when the header names a count,
      the image's own count otherwise, into a 256-entry buffer of which the
      image takes its own count. */
  function ReadPalette(data: seq<byte>, pos: nat, img: Image, clrUsed: nat): (s: Stage)
    requires img.Wf()
    ensures s.image.Wf() && s.image == img.(palette := s.image.palette) && pos <= s.pos
  {
    var n := if clrUsed != 0 then clrUsed else img.clrUsed;
    var raw := ReadAt(data, pos, 4 * n);
    Stage(SetPalette(img, Quads(Padded(raw, 4 * 256)), img.clrUsed), pos + |raw|)
  }

  /** The pixel read: a bit count up to 24 reads biSizeImage bytes straight into
      the buffer; a larger one reads 4 bytes per pixel and splits them into the
      24-bit buffer and the alpha plane. */
  function ReadPixels(data: seq<byte>, pos: nat, img: Image, c: nat): (s: Stage)
    requires img.Wf() && (c > 24 ==> img.bpp == 24)
    ensures s.image.Wf() && pos <= s.pos
    ensures s.image == img.(pixels := s.image.pixels, alpha := s.image.alpha)
  {
    if c <= 24 then ReadRaw(data, pos, img) else ReadBgra(data, pos, img)
  }

  /** biSizeImage bytes read over the start of the pixel buffer. */
  function ReadRaw(data: seq<byte>, pos: nat, img: Image): (s: Stage)
    requires img.Wf()
    ensures s.image.Wf() && pos <= s.pos && s.image == img.(pixels := s.image.pixels)
  {
    var raw := ReadAt(data, pos, img.SizeImage());
    Stage(img.(pixels := Put(img.pixels, 0, raw)), pos + |raw|)
  }

  /** 4 * W * H bytes read into a zeroed buffer of that size, and split into the
      colour bytes of the 24-bit buffer and the alpha plane (created opaque when
      the image has none). */
  function ReadBgra(data: seq<byte>, pos: nat, img: Image): (s: Stage)
    requires img.Wf() && img.bpp == 24
    ensures s.image.Wf() && pos <= s.pos
    ensures s.image == img.(pixels := s.image.pixels, alpha := s.image.alpha) && s.image.alpha.Some?
  {
    var w, h := img.width, img.height;
    var raw := ReadAt(data, pos, 4 * (w * h));
    var buf := Padded(raw, 4 * (w * h));
    var i := AlphaCreate(img);
    Stage(i.(pixels := SplitPixels(i.pixels, buf, w, h, w * h), alpha := Some(SplitAlpha(i.alpha.value, buf, w * h))),
          pos + |raw|)
  }

  /** The AND-mask read: H rows of ((W + 31) / 32) * 4 bytes; only a complete,
      non-empty mask is applied. */
  function ReadMask(data: seq<byte>, pos: nat, img: Image, c: nat): (s: Stage)
    requires img.Wf() && (c <= 8) == (img.bpp <= 8)
    ensures s.image.Wf() && pos <= s.pos
  {
    var masksize := MaskStride(img.width) * img.height;
    var raw := ReadAt(data, pos, masksize);
    if masksize > 0 && |raw| == masksize then Stage(ApplyMask(img, raw, c), pos + |raw|)
    else Stage(img, pos + |raw|)
  }

  /** A standard (DIB) icon image at pos, for directory entry e: the
      BITMAPINFOHEADER, then the palette, the pixels and the mask. */
  function DecodeDib(data: seq<byte>, pos: nat, img: Image, e: DirEntry): (s: Stage)
    ensures s.image.Wf() && pos <= s.pos
  {
    var braw := ReadAt(data, pos, InfoHeaderSize);
    var bih := ParseInfoHeader(Padded(braw, InfoHeaderSize));
    var c := bih.bitCount;
    DibStages(data, pos + |braw|, Create(img, e.width, e.height, c), c, bih.clrUsed)
  }

  /** The palette, the pixels and the AND mask read one after another into an
      image created at bit count c. */
  function DibStages(data: seq<byte>, pos: nat, img: Image, c: nat, clrUsed: nat): (s: Stage)
    requires img.Wf() && img.bpp == NormalDepth(c)
    ensures s.image.Wf() && pos <= s.pos
  {
    var s2 := ReadPalette(data, pos, img, clrUsed);
    var s3 := ReadPixels(data, s2.pos, s2.image, c);
    ReadMask(data, s3.pos, s3.image, c)
  }

  /** CxImageICO::Decode on a file whose bytes are `data`, starting at cursor
      `start`, called on `img` with info.nFrame = page and info.nEscape =
      escape. */
  function DecodeIco(data: seq<byte>, start: nat, img: Image, page: int, escape: int, png: PngDecoder): (d: Decoded)
    ensures d.ok <==> IsIconHeader(HeaderAt(data, start)) && 0 <= page < HeaderAt(data, start).count
    ensures !IsIconHeader(HeaderAt(data, start)) ==> d.image == img
    ensures IsIconHeader(HeaderAt(data, start)) && !d.ok ==> d.image == img.(numFrames := HeaderAt(data, start).count)
  {
    var off := start % U32Mod;
    var hraw := ReadAt(data, start, IconHeaderSize);
    var hdr := ParseHeader(Padded(hraw, IconHeaderSize));
    var p0 := start + |hraw|;
    if !IsIconHeader(hdr) then Decoded(false, img, p0, false)
    else DecodeDirectory(data, p0, off, img, hdr.count, page, escape, png)
  }

  /** Decode after an icon header announcing count pages: the directory read
      at pos, then page `page` if there is one. */
  function DecodeDirectory(data: seq<byte>, pos: nat, off: nat, img: Image, count: nat, page: int, escape: int,
                           png: PngDecoder): (d: Decoded)
    ensures d.ok <==> 0 <= page < count
    ensures !d.ok ==> d.image == img.(numFrames := count) && !d.fromPng
  {
    var dir := ReadDirectory(data, pos, count);
    var img0 := img.(numFrames := count);
    if !(0 <= page < count) then Decoded(false, img0, dir.end, false)
    else DecodeEntry(data, off, img0, dir.entries[page], count, escape, dir.end, png)
  }

  /** Decode once the page's directory entry e is chosen: img0 already counts
      the pages, off is the (32-bit) cursor Decode started at and dirEnd the
      cursor after the directory. */
  function DecodeEntry(data: seq<byte>, off: nat, img0: Image, e: DirEntry, count: nat, escape: int,
                       dirEnd: nat, png: PngDecoder): (d: Decoded)
    ensures d.ok
    ensures d.fromPng ==> e.width == 0 && e.height == 0
    ensures !d.fromPng && escape == -1 ==> d.image == img0.(width := e.width, height := e.height)
  {
    var at := (off + e.imageOffset) % U32Mod;
    var isPng := e.width == 0 && e.height == 0;
    if escape == -1 then
      var dims := img0.(width := e.width, height := e.height);
      if isPng then
        var r := png(data, at, true);
        Decoded(true, if r.ok then r.image.(numFrames := count) else dims, r.pos, r.ok)
      else Decoded(true, dims, dirEnd, false)
    else if isPng then
      var r := png(data, at, false);
      Decoded(true, if r.ok then r.image.(numFrames := count) else img0, r.pos, r.ok)
    else
      var s := DecodeDib(data, at, img0, e);
      Decoded(true, s.image, s.pos, false)
  }
}
