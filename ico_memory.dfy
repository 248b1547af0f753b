/** The ICO structures as CxImageICO moves them between memory and the file:
    read raw and then converted field by field with m_ntohs / m_ntohl (bihtoh for
    the BITMAPINFOHEADER), or converted and then written raw. Each conversion is
    shown to agree with the little-endian layout of IcoFormat on every host. */
module IcoMemory {
  import opened Bytes
  import opened HostOrder
  import opened IcoFormat

  /** A raw 16-bit field is zero exactly when its little-endian value is: the
      decoder tests idReserved without converting it. */
  lemma Load16Zero(h: Host, s: seq<byte>, i: nat)
    requires i + 2 <= |s|
    ensures Load16(h, s, i) == 0 <==> U16(s, i) == 0
  {}

  /** ICONHEADER read raw with idType and idCount converted: the fields the
      decoder uses; idReserved keeps its memory order. */
  function HeaderFromMemory(h: Host, s: seq<byte>): (r: IconHeader)
    requires |s| == IconHeaderSize
    ensures r.kind == ParseHeader(s).kind && r.count == ParseHeader(s).count
    ensures r.reserved == 0 <==> ParseHeader(s).reserved == 0
  {
    Load16Zero(h, s, 0);
    LoadThenNtoHS(h, s, 2);
    LoadThenNtoHS(h, s, 4);
    IconHeader(Load16(h, s, 0), NtoHS(h, Load16(h, s, 2)), NtoHS(h, Load16(h, s, 4)))
  }

  /** ICONDIRENTRY read raw with its 16- and 32-bit fields converted. */
  function EntryFromMemory(h: Host, s: seq<byte>): (e: DirEntry)
    requires |s| == DirEntrySize
    ensures e == ParseEntry(s)
  {
    LoadThenNtoHS(h, s, 4);
    LoadThenNtoHS(h, s, 6);
    LoadThenNtoHL(h, s, 8);
    LoadThenNtoHL(h, s, 12);
    DirEntry(s[0], s[1], s[2], s[3], NtoHS(h, Load16(h, s, 4)), NtoHS(h, Load16(h, s, 6)),
             NtoHL(h, Load32(h, s, 8)), NtoHL(h, Load32(h, s, 12)))
  }

  /** BITMAPINFOHEADER read raw and converted with bihtoh. */
  function InfoHeaderFromMemory(h: Host, s: seq<byte>): (b: InfoHeader)
    requires |s| == InfoHeaderSize
    ensures b == ParseInfoHeader(s)
  {
    LoadThenNtoHL(h, s, 0);
    LoadThenNtoHL(h, s, 4);
    LoadThenNtoHL(h, s, 8);
    LoadThenNtoHS(h, s, 12);
    LoadThenNtoHS(h, s, 14);
    LoadThenNtoHL(h, s, 16);
    LoadThenNtoHL(h, s, 20);
    LoadThenNtoHL(h, s, 24);
    LoadThenNtoHL(h, s, 28);
    LoadThenNtoHL(h, s, 32);
    LoadThenNtoHL(h, s, 36);
    InfoHeader(NtoHL(h, Load32(h, s, 0)), NtoHL(h, Load32(h, s, 4)), NtoHL(h, Load32(h, s, 8)),
               NtoHS(h, Load16(h, s, 12)), NtoHS(h, Load16(h, s, 14)), NtoHL(h, Load32(h, s, 16)),
               NtoHL(h, Load32(h, s, 20)), NtoHL(h, Load32(h, s, 24)), NtoHL(h, Load32(h, s, 28)),
               NtoHL(h, Load32(h, s, 32)), NtoHL(h, Load32(h, s, 36)))
  }

  lemma StoreZero16(h: Host)
    ensures Store16(h, 0) == LE16(0)
  {}

  /** ICONHEADER converted and written raw: idReserved 0 needs no conversion. */
  function HeaderToMemory(h: Host, hd: IconHeader): (s: seq<byte>)
    requires hd.Wf() && hd.reserved == 0
    ensures s == HeaderBytes(hd)
  {
    StoreZero16(h);
    NtoHSThenStore(h, hd.kind);
    NtoHSThenStore(h, hd.count);
    Store16(h, 0) + Store16(h, NtoHS(h, hd.kind)) + Store16(h, NtoHS(h, hd.count))
  }

  /** ICONDIRENTRY converted and written raw. */
  function EntryToMemory(h: Host, e: DirEntry): (s: seq<byte>)
    requires e.Wf()
    ensures s == EntryBytes(e)
  {
    NtoHSThenStore(h, e.planes);
    NtoHSThenStore(h, e.bitCount);
    NtoHLThenStore(h, e.bytesInRes);
    NtoHLThenStore(h, e.imageOffset);
    [e.width, e.height, e.colorCount, e.reserved]
      + Store16(h, NtoHS(h, e.planes)) + Store16(h, NtoHS(h, e.bitCount))
      + Store32(h, NtoHL(h, e.bytesInRes)) + Store32(h, NtoHL(h, e.imageOffset))
  }

  /** BITMAPINFOHEADER converted with bihtoh and written raw. */
  function InfoHeaderToMemory(h: Host, b: InfoHeader): (s: seq<byte>)
    requires b.Wf()
    ensures s == InfoHeaderBytes(b)
  {
    NtoHLThenStore(h, b.size);
    NtoHLThenStore(h, b.width);
    NtoHLThenStore(h, b.height);
    NtoHSThenStore(h, b.planes);
    NtoHSThenStore(h, b.bitCount);
    NtoHLThenStore(h, b.compression);
    NtoHLThenStore(h, b.sizeImage);
    NtoHLThenStore(h, b.xPelsPerMeter);
    NtoHLThenStore(h, b.yPelsPerMeter);
    NtoHLThenStore(h, b.clrUsed);
    NtoHLThenStore(h, b.clrImportant);
    Store32(h, NtoHL(h, b.size)) + Store32(h, NtoHL(h, b.width)) + Store32(h, NtoHL(h, b.height))
      + Store16(h, NtoHS(h, b.planes)) + Store16(h, NtoHS(h, b.bitCount))
      + Store32(h, NtoHL(h, b.compression)) + Store32(h, NtoHL(h, b.sizeImage))
      + Store32(h, NtoHL(h, b.xPelsPerMeter)) + Store32(h, NtoHL(h, b.yPelsPerMeter))
      + Store32(h, NtoHL(h, b.clrUsed)) + Store32(h, NtoHL(h, b.clrImportant))
  }
}
