/** CxFile as the ICO codec uses it: a byte stream with a cursor. Reads copy the
    bytes available at the cursor; writes overwrite or extend the stream. */
module CxFiles {
  import opened Bytes

  class CxFile {
    var data: seq<byte>
    var pos: nat

    constructor(d: seq<byte>, p: nat)
      ensures data == d && pos == p
    {
      data := d;
      pos := p;
    }

    /** Tell(): the cursor. */
    method Tell() returns (p: nat)
      ensures p == pos
    {
      p := pos;
    }

    /** Seek(p, SEEK_SET). */
    method Seek(p: nat)
      modifies this
      ensures data == old(data) && pos == p
    {
      pos := p;
    }

    /** Read(buf, n, 1): the bytes available at the cursor go to the front of
        buf, the cursor moves past them, and the result is the number of whole
        n-byte items read (0 for n == 0). */
    method Read(buf: array<byte>, n: nat) returns (items: nat)
      requires n <= buf.Length
      modifies this, buf
      ensures data == old(data)
      ensures buf[..] == Put(old(buf[..]), 0, ReadAt(old(data), old(pos), n))
      ensures pos == old(pos) + Avail(old(data), old(pos), n)
      ensures items == if n > 0 && Avail(old(data), old(pos), n) == n then 1 else 0
    {
      ghost var b0 := buf[..];
      var k := Avail(data, pos, n);
      var i := 0;
      while i < k
        modifies buf
        invariant 0 <= i <= k && (k == 0 || pos + k <= |data|)
        invariant forall j :: 0 <= j < buf.Length ==> buf[j] == if j < i then data[pos + j] else b0[j]
      {
        buf[i] := data[pos + i];
        i := i + 1;
      }
      ghost var r := ReadAt(data, pos, n);
      assert buf[..] == Put(b0, 0, r) by {
        assert |Put(b0, 0, r)| == buf.Length;
        forall j | 0 <= j < buf.Length ensures buf[j] == Put(b0, 0, r)[j] {}
      }
      pos := pos + k;
      items := if n > 0 && k == n then 1 else 0;
    }

    /** Write(b, |b|, 1). */
    method Write(b: seq<byte>)
      modifies this
      ensures data == Put(old(data), old(pos), b) && pos == old(pos) + |b|
    {
      data := Put(data, pos, b);
      pos := pos + |b|;
    }
  }
}
