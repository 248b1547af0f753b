/** CxImage reads and writes its file structures as raw memory images and then
    converts every 16- and 32-bit field with m_ntohs / m_ntohl, which leave a value
    alone on a little-endian host and swap its bytes on a big-endian one. This
    module models that convention and proves that the bytes on the wire are
    little-endian whatever the host. */
module HostOrder {
  import opened Bytes

  datatype Host = LittleEndianHost | BigEndianHost

  function Reverse2(s: seq<byte>): (r: seq<byte>)
    requires |s| == 2
    ensures |r| == 2
  {
    [s[1], s[0]]
  }

  function Reverse4(s: seq<byte>): (r: seq<byte>)
    requires |s| == 4
    ensures |r| == 4
  {
    [s[3], s[2], s[1], s[0]]
  }

  /** m_ntohs: the 16-bit host-order conversion. */
  function NtoHS(h: Host, w: nat): (r: nat)
    requires w < 0x1_0000
    ensures r < 0x1_0000
  {
    if h.LittleEndianHost? then w else U16(Reverse2(LE16(w)), 0)
  }

  /** m_ntohl: the 32-bit host-order conversion. */
  function NtoHL(h: Host, w: nat): (r: nat)
    requires w < 0x1_0000_0000
    ensures r < 0x1_0000_0000
  {
    if h.LittleEndianHost? then w else U32(Reverse4(LE32(w)), 0)
  }

  /** The value a host sees in a uint16_t whose memory holds s[i], s[i+1]. */
  function Load16(h: Host, s: seq<byte>, i: nat): (w: nat)
    requires i + 2 <= |s|
    ensures w < 0x1_0000
  {
    if h.LittleEndianHost? then U16(s, i) else U16(Reverse2(s[i..i + 2]), 0)
  }

  /** The value a host sees in a uint32_t whose memory holds s[i..i+4]. */
  function Load32(h: Host, s: seq<byte>, i: nat): (w: nat)
    requires i + 4 <= |s|
    ensures w < 0x1_0000_0000
  {
    if h.LittleEndianHost? then U32(s, i) else U32(Reverse4(s[i..i + 4]), 0)
  }

  /** The memory bytes of a uint16_t holding w. */
  function Store16(h: Host, w: nat): (s: seq<byte>)
    requires w < 0x1_0000
    ensures |s| == 2
  {
    if h.LittleEndianHost? then LE16(w) else Reverse2(LE16(w))
  }

  /** The memory bytes of a uint32_t holding w. */
  function Store32(h: Host, w: nat): (s: seq<byte>)
    requires w < 0x1_0000_0000
    ensures |s| == 4
  {
    if h.LittleEndianHost? then LE32(w) else Reverse4(LE32(w))
  }

  lemma NtoHSInvolution(h: Host, w: nat)
    requires w < 0x1_0000
    ensures NtoHS(h, NtoHS(h, w)) == w
  {
    if h.BigEndianHost? {
      var r := Reverse2(LE16(w));
      LE16OfU16(r, 0);
      assert r[0..2] == r;
      assert Reverse2(r) == LE16(w);
      U16OfLE16(w, LE16(w), 0);
    }
  }

  lemma NtoHLInvolution(h: Host, w: nat)
    requires w < 0x1_0000_0000
    ensures NtoHL(h, NtoHL(h, w)) == w
  {
    if h.BigEndianHost? {
      var r := Reverse4(LE32(w));
      LE32OfU32(r, 0);
      assert r[0..4] == r;
      assert Reverse4(r) == LE32(w);
      U32OfLE32(w, LE32(w), 0);
    }
  }

  /** Reading a uint16_t field raw and converting it with m_ntohs yields the
      little-endian value of its two file bytes on every host. */
  lemma LoadThenNtoHS(h: Host, s: seq<byte>, i: nat)
    requires i + 2 <= |s|
    ensures NtoHS(h, Load16(h, s, i)) == U16(s, i)
  {
    if h.BigEndianHost? {
      var r := Reverse2(s[i..i + 2]);
      LE16OfU16(r, 0);
      assert r[0..2] == r;
    }
  }

  /** Reading a uint32_t field raw and converting it with m_ntohl yields the
      little-endian value of its four file bytes on every host. */
  lemma LoadThenNtoHL(h: Host, s: seq<byte>, i: nat)
    requires i + 4 <= |s|
    ensures NtoHL(h, Load32(h, s, i)) == U32(s, i)
  {
    if h.BigEndianHost? {
      var r := Reverse4(s[i..i + 4]);
      LE32OfU32(r, 0);
      assert r[0..4] == r;
    }
  }

  /** Converting a uint16_t with m_ntohs and writing its memory puts the value on
      the wire little-endian on every host. */
  lemma NtoHSThenStore(h: Host, w: nat)
    requires w < 0x1_0000
    ensures Store16(h, NtoHS(h, w)) == LE16(w)
  {
    if h.BigEndianHost? {
      var r := Reverse2(LE16(w));
      LE16OfU16(r, 0);
      assert r[0..2] == r;
    }
  }

  /** Converting a uint32_t with m_ntohl and writing its memory puts the value on
      the wire little-endian on every host. */
  lemma NtoHLThenStore(h: Host, w: nat)
    requires w < 0x1_0000_0000
    ensures Store32(h, NtoHL(h, w)) == LE32(w)
  {
    if h.BigEndianHost? {
      var r := Reverse4(LE32(w));
      LE32OfU32(r, 0);
      assert r[0..4] == r;
    }
  }
}
