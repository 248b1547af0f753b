/** The fixed-size structures of the Microsoft ICO layout as CxImageICO reads and
    writes them: ICONHEADER (6 bytes), ICONDIRENTRY (16 bytes) and the Windows
    BITMAPINFOHEADER (40 bytes) that starts every DIB body. Multi-byte fields are
    little-endian on the wire (see HostOrder). */
module IcoFormat {
  import opened Bytes

  const IconHeaderSize: nat := 6
  const DirEntrySize: nat := 16
  const InfoHeaderSize: nat := 40
  const QuadSize: nat := 4

  /** uint32_t arithmetic: sizes, offsets and cursors wrap at 2^32. */
  const U32Mod: nat := 0x1_0000_0000

  predicate U16Range(v: nat) { v < 0x1_0000 }
  predicate U32Range(v: nat) { v < 0x1_0000_0000 }

  /** ICONHEADER: idReserved, idType (1 = icon, 2 = cursor), idCount. */
  datatype IconHeader = IconHeader(reserved: nat, kind: nat, count: nat)
  {
    ghost predicate Wf() { U16Range(reserved) && U16Range(kind) && U16Range(count) }
  }

  /** ICONDIRENTRY: one per image. A width and height of 0 mark an embedded PNG
      stream. */
  datatype DirEntry = DirEntry(
    width: nat, height: nat, colorCount: nat, reserved: nat,
    planes: nat, bitCount: nat, bytesInRes: nat, imageOffset: nat)
  {
    ghost predicate Wf() {
      width < 0x100 && height < 0x100 && colorCount < 0x100 && reserved < 0x100
      && U16Range(planes) && U16Range(bitCount) && U32Range(bytesInRes) && U32Range(imageOffset)
    }
  }

  /** BITMAPINFOHEADER, every field as the unsigned value of its bits. */
  datatype InfoHeader = InfoHeader(
    size: nat, width: nat, height: nat, planes: nat, bitCount: nat,
    compression: nat, sizeImage: nat, xPelsPerMeter: nat, yPelsPerMeter: nat,
    clrUsed: nat, clrImportant: nat)
  {
    ghost predicate Wf() {
      U32Range(size) && U32Range(width) && U32Range(height) && U16Range(planes)
      && U16Range(bitCount) && U32Range(compression) && U32Range(sizeImage)
      && U32Range(xPelsPerMeter) && U32Range(yPelsPerMeter) && U32Range(clrUsed)
      && U32Range(clrImportant)
    }
  }

  function HeaderBytes(h: IconHeader): (s: seq<byte>)
    requires h.Wf()
    ensures |s| == IconHeaderSize
  {
    LE16(h.reserved) + LE16(h.kind) + LE16(h.count)
  }

  function ParseHeader(s: seq<byte>): (h: IconHeader)
    requires |s| == IconHeaderSize
    ensures h.Wf()
  {
    IconHeader(U16(s, 0), U16(s, 2), U16(s, 4))
  }

  function EntryBytes(e: DirEntry): (s: seq<byte>)
    requires e.Wf()
    ensures |s| == DirEntrySize
  {
    [e.width, e.height, e.colorCount, e.reserved]
      + LE16(e.planes) + LE16(e.bitCount) + LE32(e.bytesInRes) + LE32(e.imageOffset)
  }

  function ParseEntry(s: seq<byte>): (e: DirEntry)
    requires |s| == DirEntrySize
    ensures e.Wf()
  {
    DirEntry(s[0], s[1], s[2], s[3], U16(s, 4), U16(s, 6), U32(s, 8), U32(s, 12))
  }

  function InfoHeaderBytes(b: InfoHeader): (s: seq<byte>)
    requires b.Wf()
    ensures |s| == InfoHeaderSize
  {
    LE32(b.size) + LE32(b.width) + LE32(b.height) + LE16(b.planes) + LE16(b.bitCount)
      + LE32(b.compression) + LE32(b.sizeImage) + LE32(b.xPelsPerMeter)
      + LE32(b.yPelsPerMeter) + LE32(b.clrUsed) + LE32(b.clrImportant)
  }

  function ParseInfoHeader(s: seq<byte>): (b: InfoHeader)
    requires |s| == InfoHeaderSize
    ensures b.Wf()
  {
    InfoHeader(U32(s, 0), U32(s, 4), U32(s, 8), U16(s, 12), U16(s, 14), U32(s, 16),
               U32(s, 20), U32(s, 24), U32(s, 28), U32(s, 32), U32(s, 36))
  }

  /** Parsing the bytes of a header gives the header back. */
  lemma {:induction false} ParseHeaderBytes(h: IconHeader)
    requires h.Wf()
    ensures ParseHeader(HeaderBytes(h)) == h
  {
    var s := HeaderBytes(h);
    U16OfLE16(h.reserved, s, 0);
    U16OfLE16(h.kind, s, 2);
    U16OfLE16(h.count, s, 4);
  }

  /** Parsing the bytes of a directory entry gives the entry back. */
  lemma {:induction false} ParseEntryBytes(e: DirEntry)
    requires e.Wf()
    ensures ParseEntry(EntryBytes(e)) == e
  {
    var s := EntryBytes(e);
    U16OfLE16(e.planes, s, 4);
    U16OfLE16(e.bitCount, s, 6);
    U32OfLE32(e.bytesInRes, s, 8);
    U32OfLE32(e.imageOffset, s, 12);
  }

  /** Parsing the bytes of a BITMAPINFOHEADER gives it back. */
  lemma {:induction false} ParseInfoHeaderBytes(b: InfoHeader)
    requires b.Wf()
    ensures ParseInfoHeader(InfoHeaderBytes(b)) == b
  {
    var s := InfoHeaderBytes(b);
    U32OfLE32(b.size, s, 0);
    U32OfLE32(b.width, s, 4);
    U32OfLE32(b.height, s, 8);
    U16OfLE16(b.planes, s, 12);
    U16OfLE16(b.bitCount, s, 14);
    U32OfLE32(b.compression, s, 16);
    U32OfLE32(b.sizeImage, s, 20);
    U32OfLE32(b.xPelsPerMeter, s, 24);
    U32OfLE32(b.yPelsPerMeter, s, 28);
    U32OfLE32(b.clrUsed, s, 32);
    U32OfLE32(b.clrImportant, s, 36);
  }

  /** Every 16 bytes are the encoding of the entry they parse to, so the entry
      codec loses nothing in either direction. */
  lemma {:induction false} EntryBytesParse(s: seq<byte>)
    requires |s| == DirEntrySize
    ensures EntryBytes(ParseEntry(s)) == s
  {
    LE16OfU16(s, 4);
    LE16OfU16(s, 6);
    LE32OfU32(s, 8);
    LE32OfU32(s, 12);
    assert s == s[..4] + s[4..6] + s[6..8] + s[8..12] + s[12..16];
  }
}
