/** Byte buffers, little-endian fields and the cursor arithmetic of a CxFile. */
module Bytes {

  /** An unsigned 8-bit value, as stored in a file, a pixel buffer, a mask or an
      alpha plane. */
  type byte = x: int | 0 <= x < 256

  function Min(a: int, b: int): int { if a <= b then a else b }
  function Max(a: int, b: int): int { if a <= b then b else a }

  function Zeros(n: nat): (z: seq<byte>)
    ensures |z| == n
    ensures forall i :: 0 <= i < n ==> z[i] == 0
  {
    seq(n, _ => 0)
  }

  /** n copies of v. */
  function Repeat(v: byte, n: nat): (r: seq<byte>)
    ensures |r| == n
    ensures forall i :: 0 <= i < n ==> r[i] == v
  {
    seq(n, _ => v)
  }

  /** The first n bytes of s, with zero bytes standing for those s lacks. This is
      what a fixed-size buffer holds after a read that came up short. */
  function Padded(s: seq<byte>, n: nat): (r: seq<byte>)
    ensures |r| == n
    ensures forall i :: 0 <= i < n ==> r[i] == if i < |s| then s[i] else 0
  {
    if |s| >= n then s[..n] else s + Zeros(n - |s|)
  }

  /** How many of n requested bytes a read at position pos can deliver. */
  function Avail(data: seq<byte>, pos: nat, n: nat): (k: nat)
    ensures k <= n
    ensures pos + k <= |data| || k == 0
    ensures k == n <==> n == 0 || pos + n <= |data|
  {
    if pos >= |data| then 0 else Min(n, |data| - pos)
  }

  /** The bytes a read of n bytes at position pos delivers. */
  function ReadAt(data: seq<byte>, pos: nat, n: nat): (r: seq<byte>)
    ensures |r| == Avail(data, pos, n)
    ensures forall i :: 0 <= i < |r| ==> r[i] == data[pos + i]
  {
    if pos >= |data| then [] else data[pos..pos + Avail(data, pos, n)]
  }

  /** The content of a file after writing b at position p: the bytes before p are
      kept (a gap past the end reads as zeros), b replaces what was there, and the
      rest of the file is kept. */
  function Put(d: seq<byte>, p: nat, b: seq<byte>): (r: seq<byte>)
    ensures |r| == Max(|d|, p + |b|)
    ensures forall i :: 0 <= i < |r| ==>
      r[i] == if p <= i < p + |b| then b[i - p] else if i < |d| then d[i] else 0
  {
    var head := if p <= |d| then d[..p] else d + Zeros(p - |d|);
    head + b + (if p + |b| < |d| then d[p + |b|..] else [])
  }

  /** Two writes in a row are one write of both byte strings. */
  lemma PutPut(d: seq<byte>, p: nat, a: seq<byte>, b: seq<byte>)
    ensures Put(Put(d, p, a), p + |a|, b) == Put(d, p, a + b)
  {
    var l, r := Put(Put(d, p, a), p + |a|, b), Put(d, p, a + b);
    assert |l| == |r|;
    forall i | 0 <= i < |l| ensures l[i] == r[i] {
      if p + |a| <= i < p + |a| + |b| {
        assert (a + b)[i - p] == b[i - p - |a|];
      } else if p <= i < p + |a| {
        assert (a + b)[i - p] == a[i - p];
      }
    }
  }

  /** Writing at the end of a file appends. */
  lemma PutAtEnd(d: seq<byte>, b: seq<byte>)
    ensures Put(d, |d|, b) == d + b
  {
    var l := Put(d, |d|, b);
    assert |l| == |d + b|;
    forall i | 0 <= i < |l| ensures l[i] == (d + b)[i] {}
  }

  /** A read of r into a zeroed buffer of m bytes: its first n bytes are r
      padded with zeros, or the first n bytes of r. */
  lemma ReadIntoZeros(r: seq<byte>, n: nat, m: nat)
    requires n <= m && |r| <= m
    ensures Put(Zeros(m), 0, r)[..n] == Padded(r, n)
  {
    var l := Put(Zeros(m), 0, r)[..n];
    assert |l| == n;
    forall i | 0 <= i < n ensures l[i] == Padded(r, n)[i] {}
  }

  // Little-endian unsigned fields.

  function LE16(v: nat): (r: seq<byte>)
    requires v < 0x1_0000
    ensures |r| == 2
  {
    [v % 0x100, v / 0x100]
  }

  function LE32(v: nat): (r: seq<byte>)
    requires v < 0x1_0000_0000
    ensures |r| == 4
  {
    [v % 0x100, v / 0x100 % 0x100, v / 0x100 / 0x100 % 0x100, v / 0x100 / 0x100 / 0x100]
  }

  /** The unsigned 16-bit value stored little-endian at s[i], s[i+1]. */
  function U16(s: seq<byte>, i: nat): (v: nat)
    requires i + 2 <= |s|
    ensures v < 0x1_0000
  {
    s[i] as int + 0x100 * s[i + 1] as int
  }

  /** The unsigned 32-bit value stored little-endian at s[i..i+4]. */
  function U32(s: seq<byte>, i: nat): (v: nat)
    requires i + 4 <= |s|
    ensures v < 0x1_0000_0000
  {
    s[i] as int + 0x100 * s[i + 1] as int + 0x1_0000 * s[i + 2] as int
      + 0x100_0000 * s[i + 3] as int
  }

  lemma U16OfLE16(v: nat, s: seq<byte>, i: nat)
    requires v < 0x1_0000 && i + 2 <= |s| && s[i..i + 2] == LE16(v)
    ensures U16(s, i) == v
  {
    assert s[i] == s[i..i + 2][0] && s[i + 1] == s[i..i + 2][1];
  }

  lemma U32OfLE32(v: nat, s: seq<byte>, i: nat)
    requires v < 0x1_0000_0000 && i + 4 <= |s| && s[i..i + 4] == LE32(v)
    ensures U32(s, i) == v
  {
    assert s[i] == s[i..i + 4][0] && s[i + 1] == s[i..i + 4][1];
    assert s[i + 2] == s[i..i + 4][2] && s[i + 3] == s[i..i + 4][3];
    var q1 := v / 0x100;
    var q2 := q1 / 0x100;
    var q3 := q2 / 0x100;
    assert v == s[i] as int + 0x100 * q1;
    assert q1 == s[i + 1] as int + 0x100 * q2;
    assert q2 == s[i + 2] as int + 0x100 * q3;
    assert q3 == s[i + 3] as int;
  }

  lemma LE16OfU16(s: seq<byte>, i: nat)
    requires i + 2 <= |s|
    ensures LE16(U16(s, i)) == s[i..i + 2]
  {}

  lemma LE32OfU32(s: seq<byte>, i: nat)
    requires i + 4 <= |s|
    ensures LE32(U32(s, i)) == s[i..i + 4]
  {
    var v := U32(s, i);
    var b0, b1, b2, b3 := s[i] as int, s[i + 1] as int, s[i + 2] as int, s[i + 3] as int;
    assert v == b0 + 0x100 * (b1 + 0x100 * (b2 + 0x100 * b3));
    assert v / 0x100 == b1 + 0x100 * (b2 + 0x100 * b3);
    assert v / 0x100 / 0x100 == b2 + 0x100 * b3;
    assert v / 0x100 / 0x100 / 0x100 == b3;
  }
}
