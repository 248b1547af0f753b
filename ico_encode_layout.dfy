/** The file layout the multi-page ICO encoder produces: the header, the
    directory with its running offsets, and the bodies the offsets point to. */
module IcoEncodeLayout {
  import opened Wrappers
  import opened Bytes
  import opened IcoFormat
  import opened IcoImage
  import opened IcoEncodeSpec

  // What one call of the single-page encoder does in each of the three roles
  // the multi-page encoder gives it.

  /** The first page, not appending, with the page count as its frame count:
      the file header, with the running offset set past the directory. */
  lemma EncodeHeaderStep(g: Image, st: EncState, n: int, png: Option<PngEncoder>)
    requires g.Wf() && Encodable(g, png) && 1 <= n
    ensures EncodePage(g, st, false, n, png)
         == Some(Write(st.(offset := (IconHeaderSize + n * DirEntrySize) % U32Mod), HeaderBytes(HeaderFor(n))))
  {}

  /** A page appended with its own frame count: its directory entry. */
  lemma EncodeEntryStep(g: Image, st: EncState, png: Option<PngEncoder>)
    requires g.Wf() && Encodable(g, png)
    ensures EncodePage(g, st, true, g.numFrames, png) == Some(WriteEntry(st, g, png))
  {}

  /** A page appended with a page count below its frame count: its body. */
  lemma EncodeBodyStep(g: Image, st: EncState, k: int, png: Option<PngEncoder>)
    requires g.Wf() && Encodable(g, png) && k < g.numFrames
    ensures EncodePage(g, st, true, k, png) == Some(Write(st, Body(g, png)))
  {}

  /** Writing b right after a write of a is one write of a + b. */
  lemma WriteAfterPut(d: seq<byte>, p: nat, a: seq<byte>, b: seq<byte>, ab: seq<byte>, off: nat)
    requires ab == a + b
    ensures Write(EncState(Put(d, p, a), p + |a|, off), b) == EncState(Put(d, p, ab), p + |ab|, off)
  {
    PutPut(d, p, a, b);
  }

  /** The running offset after one more page, in terms of plain numbers. */
  lemma ModStep(o0: nat, o1: nat, base: nat, b0: nat, b1: nat, b: nat, r: nat)
    requires o0 == (base + b0) % U32Mod && o1 == (o0 + r) % U32Mod && r == b % U32Mod && b1 == b0 + b
    ensures o1 == (base + b1) % U32Mod
  {}

  /** One page more: its body extends the bodies, and the running offset grows
      by its truncated size. */
  lemma PageStep(pages: seq<Image>, i: nat, png: Option<PngEncoder>) returns (b: nat)
    requires AllWf(pages) && 0 < i <= |pages| && AllEncodable(pages, png)
    ensures b == |Body(Page(pages, i - 1, |pages|), png)|
    ensures Bodies(pages, i, png) == Bodies(pages, i - 1, png) + Body(Page(pages, i - 1, |pages|), png)
    ensures BytesInRes(Page(pages, i - 1, |pages|), png) == b % U32Mod
    ensures Offset(pages, i, png) == (Offset(pages, i - 1, png) + BytesInRes(Page(pages, i - 1, |pages|), png)) % U32Mod
  {
    hide DibBody;
    var g := Page(pages, i - 1, |pages|);
    assert Encodable(pages[i - 1], png);
    BodyLength(g, png);
    b := |Body(g, png)|;
  }

  /** Page i's directory offset is where its body starts in the file, counted
      from the file header and truncated to 32 bits. */
  lemma {:induction false} OffsetIsBodyStart(pages: seq<Image>, i: nat, png: Option<PngEncoder>)
    requires AllWf(pages) && i <= |pages| && AllEncodable(pages, png)
    ensures Offset(pages, i, png) == (IconHeaderSize + DirEntrySize * |pages| + |Bodies(pages, i, png)|) % U32Mod
  {
    hide DibBody;
    if i > 0 {
      OffsetIsBodyStart(pages, i - 1, png);
      OffsetAdvance(pages, i, png);
    }
  }

  lemma OffsetAdvance(pages: seq<Image>, i: nat, png: Option<PngEncoder>)
    requires AllWf(pages) && 0 < i <= |pages| && AllEncodable(pages, png)
    requires Offset(pages, i - 1, png) == (IconHeaderSize + DirEntrySize * |pages| + |Bodies(pages, i - 1, png)|) % U32Mod
    ensures Offset(pages, i, png) == (IconHeaderSize + DirEntrySize * |pages| + |Bodies(pages, i, png)|) % U32Mod
  {
    hide DibBody;
    var b := PageStep(pages, i, png);
    ModStep(Offset(pages, i - 1, png), Offset(pages, i, png), IconHeaderSize + DirEntrySize * |pages|,
            |Bodies(pages, i - 1, png)|, |Bodies(pages, i, png)|, b, BytesInRes(Page(pages, i - 1, |pages|), png));
  }

  /** The header loop's first round writes the file header and page 0's entry. */
  lemma HeaderPassFirst(pages: seq<Image>, st: EncState, png: Option<PngEncoder>)
    requires AllWf(pages) && 1 <= |pages| && AllEncodable(pages, png)
    ensures HeaderPass(pages, st, 1, png)
         == Pass(true, WriteEntry(Write(st.(offset := Offset(pages, 0, png)), HeaderBytes(HeaderFor(|pages|))),
                                  Page(pages, 0, |pages|), png))
  {
    hide DibBody;
    hide EntryBytes;
    hide EntryFor;
    hide HeaderBytes;
    hide BytesInRes;
    hide EncodePage;
    hide WriteEntry;
    hide Write;
    hide Body;
    var g := Page(pages, 0, |pages|);
    assert Encodable(pages[0], png);
    EncodeHeaderStep(g, st, |pages|, png);
    var st1 := Write(st.(offset := Offset(pages, 0, png)), HeaderBytes(HeaderFor(|pages|)));
    EncodeEntryStep(g, st1, png);
  }

  /** A later round of the header loop writes one more entry. */
  lemma HeaderPassNext(pages: seq<Image>, st: EncState, i: nat, png: Option<PngEncoder>)
    requires AllWf(pages) && 1 < i <= |pages| && AllEncodable(pages, png)
    requires HeaderPass(pages, st, i - 1, png).ok
    ensures HeaderPass(pages, st, i, png)
         == Pass(true, WriteEntry(HeaderPass(pages, st, i - 1, png).st, Page(pages, i - 1, |pages|), png))
  {
    hide DibBody;
    hide EntryBytes;
    hide EntryFor;
    hide HeaderBytes;
    hide BytesInRes;
    hide WriteEntry;
    hide Write;
    hide Body;
    var g := Page(pages, i - 1, |pages|);
    assert Encodable(pages[i - 1], png);
    EncodeEntryStep(g, HeaderPass(pages, st, i - 1, png).st, png);
  }

  /** Writing page i - 1's entry after the header and the entries before it. */
  lemma EntryAfterEntries(pages: seq<Image>, data: seq<byte>, pos: nat, i: nat, png: Option<PngEncoder>)
    requires AllWf(pages) && 1 <= i <= |pages|
    ensures var hb := HeaderBytes(HeaderFor(|pages|));
      WriteEntry(EncState(Put(data, pos, hb + Entries(pages, i - 1, png)),
                          pos + IconHeaderSize + DirEntrySize * (i - 1), Offset(pages, i - 1, png)),
                 Page(pages, i - 1, |pages|), png)
      == EncState(Put(data, pos, hb + Entries(pages, i, png)), pos + IconHeaderSize + DirEntrySize * i, Offset(pages, i, png))
  {
    hide DibBody;
    hide EntryBytes;
    hide EntryFor;
    hide HeaderBytes;
    hide BytesInRes;
    hide EncodePage;
    hide Body;
    hide Put;
    hide Page;
    hide Bodies;
    var hb := HeaderBytes(HeaderFor(|pages|));
    var prev := Entries(pages, i - 1, png);
    var e := EntryBytes(EntryFor(Page(pages, i - 1, |pages|), Offset(pages, i - 1, png), png));
    assert Entries(pages, i, png) == prev + e;
    WriteAfterPut(data, pos, hb + prev, e, hb + Entries(pages, i, png), Offset(pages, i - 1, png));
  }

  /** After the header loop over i >= 1 pages the file holds the header and i
      entries at pos, and the running offset is page i's offset. */
  lemma {:induction false} HeaderPassLayout(pages: seq<Image>, data: seq<byte>, pos: nat, i: nat, png: Option<PngEncoder>)
    requires AllWf(pages) && 1 <= i <= |pages| && AllEncodable(pages, png)
    ensures HeaderPass(pages, EncState(data, pos, 0), i, png)
         == Pass(true, EncState(Put(data, pos, HeaderBytes(HeaderFor(|pages|)) + Entries(pages, i, png)),
                                pos + IconHeaderSize + DirEntrySize * i, Offset(pages, i, png)))
  {
    hide DibBody;
    hide EntryBytes;
    hide EntryFor;
    hide HeaderBytes;
    hide BytesInRes;
    hide EncodePage;
    hide WriteEntry;
    hide HeaderPass;
    hide Body;
    var st := EncState(data, pos, 0);
    var hb := HeaderBytes(HeaderFor(|pages|));
    if i == 1 {
      HeaderPassFirst(pages, st, png);
      assert Write(st.(offset := Offset(pages, 0, png)), hb)
          == EncState(Put(data, pos, hb + Entries(pages, 0, png)), pos + IconHeaderSize, Offset(pages, 0, png));
    } else {
      HeaderPassLayout(pages, data, pos, i - 1, png);
      HeaderPassNext(pages, st, i, png);
    }
    EntryAfterEntries(pages, data, pos, i, png);
  }

  /** A round of the body loop writes one more body. */
  lemma BodyPassNext(pages: seq<Image>, st: EncState, i: nat, png: Option<PngEncoder>)
    requires AllWf(pages) && 0 < i <= |pages| && AllEncodable(pages, png)
    requires BodyPass(pages, st, i - 1, png).ok
    ensures BodyPass(pages, st, i, png)
         == Pass(true, Write(BodyPass(pages, st, i - 1, png).st, Body(Page(pages, i - 1, |pages|), png)))
  {
    hide DibBody;
    hide EntryBytes;
    hide EntryFor;
    hide HeaderBytes;
    hide BytesInRes;
    hide WriteEntry;
    hide Write;
    var g := Page(pages, i - 1, |pages|);
    assert Encodable(pages[i - 1], png);
    EncodeBodyStep(g, BodyPass(pages, st, i - 1, png).st, i - 1, png);
  }

  /** After the body loop over i pages the bodies follow the state it started
      from, in page order. */
  lemma {:induction false} BodyPassLayout(pages: seq<Image>, st: EncState, i: nat, png: Option<PngEncoder>)
    requires AllWf(pages) && i <= |pages| && AllEncodable(pages, png) && st.pos <= |st.data|
    ensures BodyPass(pages, st, i, png)
         == Pass(true, EncState(Put(st.data, st.pos, Bodies(pages, i, png)), st.pos + |Bodies(pages, i, png)|, st.offset))
  {
    hide DibBody;
    hide EntryBytes;
    hide EntryFor;
    hide HeaderBytes;
    hide BytesInRes;
    hide EncodePage;
    hide WriteEntry;
    hide Body;
    if i == 0 {
      PutEmpty(st.data, st.pos);
    } else {
      BodyPassLayout(pages, st, i - 1, png);
      BodyPassNext(pages, st, i, png);
      var _ := PageStep(pages, i, png);
      WriteAfterPut(st.data, st.pos, Bodies(pages, i - 1, png), Body(Page(pages, i - 1, |pages|), png),
                    Bodies(pages, i, png), st.offset);
    }
  }

  lemma PutEmpty(d: seq<byte>, p: nat)
    requires p <= |d|
    ensures Put(d, p, []) == d
  {}

  /** The multi-page encoder writes, at the cursor, the header {0, 1, N}, then
      the N directory entries with their running offsets, then the N bodies,
      when every page is allocated and encodable. */
  lemma EncodeAllLayout(pages: seq<Image>, data: seq<byte>, pos: nat, png: Option<PngEncoder>)
    requires AllWf(pages) && |pages| > 0 && AllEncodable(pages, png)
    ensures var out := HeaderBytes(HeaderFor(|pages|)) + Entries(pages, |pages|, png) + Bodies(pages, |pages|, png);
      EncodeAll(pages, data, pos, png) == Pass(true, EncState(Put(data, pos, out), pos + |out|, Offset(pages, |pages|, png)))
  {
    hide DibBody;
    hide EntryBytes;
    hide EntryFor;
    hide HeaderBytes;
    hide BytesInRes;
    hide EncodePage;
    hide WriteEntry;
    hide HeaderPass;
    hide BodyPass;
    hide Body;
    var n := |pages|;
    var hb := HeaderBytes(HeaderFor(n));
    var es := Entries(pages, n, png);
    var bs := Bodies(pages, n, png);
    assert !exists i :: 0 <= i < n && !pages[i].valid by {
      forall i | 0 <= i < n ensures pages[i].valid { assert Encodable(pages[i], png); }
    }
    HeaderPassLayout(pages, data, pos, n, png);
    var st := EncState(Put(data, pos, hb + es), pos + IconHeaderSize + DirEntrySize * n, Offset(pages, n, png));
    BodyPassLayout(pages, st, n, png);
    PutPut(data, pos, hb + es, bs);
  }
}
