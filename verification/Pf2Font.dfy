/** The PF2 font file: `write_string_section`, `write_be16_section` and
    `write_font_pf2` of grub/util/grub-mkfont.c, and the index entries and glyph records
    in it. */
module Pf2Font {
  import opened Bytes
  import opened GlyphSort
  import opened Options

  const TWO16: nat := 0x1_0000
  const TWO32: nat := 0x1_0000_0000

  function Ascii(s: string): (b: seq<byte>)
    ensures |b| == |s|
    ensures forall i :: 0 <= i < |s| ==> b[i] == s[i] as int % 256
  {
    if s == [] then [] else [s[0] as int % 256] + Ascii(s[1..])
  }

  function Be16(v: int): (s: seq<byte>)
    ensures |s| == 2
  {
    Encode(Big, v % TWO16, 2)
  }

  function Be32(v: nat): (s: seq<byte>)
    ensures |s| == 4
  {
    Encode(Big, v, 4)
  }

  /* ---- what is written ---- */

  // One section: a four-letter name, the length and the data.
  datatype FontSection = FontSection(name: string, data: seq<byte>)

  function SectionBytes(s: FontSection): (b: seq<byte>)
    ensures |b| == |s.name| + 4 + |s.data|
  {
    Ascii(s.name) + Be32(|s.data|) + s.data
  }

  function SectionsBytes(ss: seq<FontSection>): seq<byte> {
    if ss == [] then [] else SectionBytes(ss[0]) + SectionsBytes(ss[1..])
  }

  // struct grub_font_info, without the glyphs.  `fullName` is the name with style and
  // size appended.
  datatype FontInfo = FontInfo(
    fullName: string,
    name: string,
    bold: bool,
    italic: bool,
    size: nat,
    maxWidth: nat,
    maxHeight: nat,
    minY: int,
    maxY: int,
    asce: int,
    desc: int)

  // The measures that add_glyph keeps while glyphs come in.
  ghost predicate Measures(f: FontInfo, gs: seq<Glyph>) {
    && (forall i :: 0 <= i < |gs| ==> gs[i].width <= f.maxWidth && gs[i].height <= f.maxHeight)
    && (f.maxWidth == 0 || exists i :: 0 <= i < |gs| && gs[i].width == f.maxWidth)
    && (f.maxHeight == 0 || exists i :: 0 <= i < |gs| && gs[i].height == f.maxHeight)
    && (forall i :: 0 <= i < |gs| ==> gs[i].yOfs + gs[i].height <= f.maxY && (gs[i].yOfs + f.size > 0 ==> f.minY <= gs[i].yOfs))
    && f.minY <= 0 <= f.maxY
    && (f.minY == 0 || exists i :: 0 <= i < |gs| && gs[i].yOfs == f.minY && gs[i].yOfs + f.size > 0)
    && (f.maxY == 0 || exists i :: 0 <= i < |gs| && gs[i].yOfs + gs[i].height == f.maxY)
  }

  // One glyph more.
  function Measured(f: FontInfo, g: Glyph): FontInfo {
    f.(maxWidth := if g.width > f.maxWidth then g.width else f.maxWidth,
       maxHeight := if g.height > f.maxHeight then g.height else f.maxHeight,
       minY := if g.yOfs < f.minY && g.yOfs + f.size > 0 then g.yOfs else f.minY,
       maxY := if g.yOfs + g.height > f.maxY then g.yOfs + g.height else f.maxY)
  }

  lemma MeasuredNext(f: FontInfo, gs: seq<Glyph>, g: Glyph)
    requires Measures(f, gs)
    ensures Measures(Measured(f, g), gs + [g])
  {
    var f', all := Measured(f, g), gs + [g];
    assert all[|gs|] == g;
    assert forall i :: 0 <= i < |gs| ==> all[i] == gs[i];
    MeasuredWidths(f, gs, g);
    MeasuredHeights(f, gs, g);
  }

  lemma MeasuredWidths(f: FontInfo, gs: seq<Glyph>, g: Glyph)
    requires Measures(f, gs)
    ensures var f', all := Measured(f, g), gs + [g];
            && (f'.maxWidth == 0 || exists i :: 0 <= i < |all| && all[i].width == f'.maxWidth)
            && (f'.maxHeight == 0 || exists i :: 0 <= i < |all| && all[i].height == f'.maxHeight)
  {
    var f', all := Measured(f, g), gs + [g];
    assert all[|gs|] == g;
    if f'.maxWidth != 0 && f'.maxWidth == f.maxWidth {
      var i :| 0 <= i < |gs| && gs[i].width == f.maxWidth;
      assert all[i].width == f'.maxWidth;
    }
    if f'.maxHeight != 0 && f'.maxHeight == f.maxHeight {
      var i :| 0 <= i < |gs| && gs[i].height == f.maxHeight;
      assert all[i].height == f'.maxHeight;
    }
  }

  lemma MeasuredHeights(f: FontInfo, gs: seq<Glyph>, g: Glyph)
    requires Measures(f, gs)
    ensures var f', all := Measured(f, g), gs + [g];
            && (f'.minY == 0 || exists i :: 0 <= i < |all| && all[i].yOfs == f'.minY && all[i].yOfs + f'.size > 0)
            && (f'.maxY == 0 || exists i :: 0 <= i < |all| && all[i].yOfs + all[i].height == f'.maxY)
  {
    var f', all := Measured(f, g), gs + [g];
    assert all[|gs|] == g;
    if f'.minY != 0 && f'.minY == f.minY {
      var i :| 0 <= i < |gs| && gs[i].yOfs == f.minY && gs[i].yOfs + f.size > 0;
      assert all[i].yOfs == f'.minY;
    }
    if f'.maxY != 0 && f'.maxY == f.maxY {
      var i :| 0 <= i < |gs| && gs[i].yOfs + gs[i].height == f.maxY;
      assert all[i].yOfs + all[i].height == f'.maxY;
    }
  }

  // add_glyph's updates of the font, glyph after glyph.
  method Measure(f: FontInfo, gs: seq<Glyph>) returns (m: FontInfo)
    requires f.maxWidth == f.maxHeight == 0 && f.minY == f.maxY == 0
    ensures Measures(m, gs)
    ensures m == f.(maxWidth := m.maxWidth, maxHeight := m.maxHeight, minY := m.minY, maxY := m.maxY)
  {
    hide Measures, Measured;
    m := f;
    NothingMeasured(f);
    for i := 0 to |gs|
      invariant Measures(m, gs[..i])
      invariant m == f.(maxWidth := m.maxWidth, maxHeight := m.maxHeight, minY := m.minY, maxY := m.maxY)
    {
      MeasuredNext(m, gs[..i], gs[i]);
      assert gs[..i] + [gs[i]] == gs[..i + 1];
      m := MeasureOne(m, gs[i]);
    }
    assert gs[..|gs|] == gs;
  }

  lemma NothingMeasured(f: FontInfo)
    requires f.maxWidth == f.maxHeight == 0 && f.minY == f.maxY == 0
    ensures Measures(f, [])
  {
  }

  method MeasureOne(f: FontInfo, g: Glyph) returns (m: FontInfo)
    ensures m == Measured(f, g)
    ensures m == f.(maxWidth := m.maxWidth, maxHeight := m.maxHeight, minY := m.minY, maxY := m.maxY)
  {
    m := f;
    if g.width > m.maxWidth { m := m.(maxWidth := g.width); }
    if g.height > m.maxHeight { m := m.(maxHeight := g.height); }
    if g.yOfs < m.minY && g.yOfs + m.size > 0 { m := m.(minY := g.yOfs); }
    if g.yOfs + g.height > m.maxY { m := m.(maxY := g.yOfs + g.height); }
  }

  function Ascent(f: FontInfo): int {
    if f.asce != 0 then f.asce else if f.maxY <= 0 then 1 else f.maxY
  }

  function Descent(f: FontInfo): int {
    if f.desc != 0 then f.desc else if f.minY >= 0 then 1 else -f.minY
  }

  // Unless they are set by hand, ascent and descent are the least positive numbers that hold
  // every glyph above and below the base line (glyphs that hang lower than the font's size do
  // not count below).
  lemma LineHoldsGlyphs(f: FontInfo, gs: seq<Glyph>)
    requires Measures(f, gs)
    ensures f.asce != 0 ==> Ascent(f) == f.asce
    ensures f.desc != 0 ==> Descent(f) == f.desc
    ensures f.asce == 0 ==> Ascent(f) > 0 && forall i :: 0 <= i < |gs| ==> gs[i].yOfs + gs[i].height <= Ascent(f)
    ensures f.desc == 0 ==> Descent(f) > 0 && forall i :: 0 <= i < |gs| && gs[i].yOfs + f.size > 0 ==> -gs[i].yOfs <= Descent(f)
    ensures f.asce == 0 && Ascent(f) > 1 ==> exists i :: 0 <= i < |gs| && gs[i].yOfs + gs[i].height == Ascent(f)
    ensures f.desc == 0 && Descent(f) > 1 ==> exists i :: 0 <= i < |gs| && gs[i].yOfs + f.size > 0 && -gs[i].yOfs == Descent(f)
  {
    if f.desc == 0 && Descent(f) > 1 {
      var i :| 0 <= i < |gs| && gs[i].yOfs == f.minY && gs[i].yOfs + f.size > 0;
      assert -gs[i].yOfs == Descent(f);
    }
  }

  function StringSection(name: string, s: string): FontSection {
    FontSection(name, Ascii(s) + [0])
  }

  function ShortSection(name: string, v: int): FontSection {
    FontSection(name, Be16(v))
  }

  // The sections before the character index, in order.
  function Preamble(f: FontInfo): (p: seq<FontSection>)
    ensures |p| == 10
  {
    [ FontSection("FILE", Ascii("PFF2")),
      StringSection("NAME", f.fullName),
      StringSection("FAMI", f.name),
      StringSection("WEIG", if f.bold then "bold" else "normal"),
      StringSection("SLAN", if f.italic then "italic" else "normal"),
      ShortSection("PTSZ", f.size),
      ShortSection("MAXW", f.maxWidth),
      ShortSection("MAXH", f.maxHeight),
      ShortSection("ASCE", Ascent(f)),
      ShortSection("DESC", Descent(f)) ]
  }

  const ENTRY: nat := 9

  function EntryBytes(code: nat, offset: nat): (s: seq<byte>)
    ensures |s| == ENTRY
  {
    Be32(code) + [0] + Be32(offset)
  }

  function RecordBytes(g: Glyph): (s: seq<byte>)
    ensures |s| == 10 + |g.bitmap|
  {
    Be16(g.width) + Be16(g.height) + Be16(g.xOfs) + Be16(g.yOfs) + Be16(g.deviceWidth) + g.bitmap
  }

  // The index, with offsets computed before any glyph data is written.
  function IndexBytes(gs: seq<Glyph>, offset: nat): (s: seq<byte>)
    ensures |s| == ENTRY * |gs|
  {
    if gs == [] then []
    else EntryBytes(gs[0].charCode, offset) + IndexBytes(gs[1..], offset + 10 + |gs[0].bitmap|)
  }

  function DataBytes(gs: seq<Glyph>): seq<byte> {
    if gs == [] then [] else RecordBytes(gs[0]) + DataBytes(gs[1..])
  }

  function PreambleBytes(f: FontInfo): seq<byte> {
    SectionsBytes(Preamble(f))
  }

  // First byte of glyph data: behind the preamble, the index with its header, and the
  // header of the DATA section.
  function DataStart(f: FontInfo, gs: seq<Glyph>): nat {
    |PreambleBytes(f)| + 8 + ENTRY * |gs| + 8
  }

  function FontBytes(f: FontInfo, gs: seq<Glyph>): seq<byte> {
    PreambleBytes(f) + Ascii("CHIX") + Be32(ENTRY * |gs|) + IndexBytes(gs, DataStart(f, gs))
    + Ascii("DATA") + Be32(0xffff_ffff) + DataBytes(gs)
  }

  /* ---- the writer ---- */

  class FontWriter {
    var file: seq<byte>
    var offset: nat

    constructor ()
      ensures file == [] && offset == 0
    {
      file, offset := [], 0;
    }

    method WriteImage(b: seq<byte>)
      modifies this`file
      ensures file == old(file) + b
    {
      file := file + b;
    }

    // The first `k` sections of `p` are written, and `offset` counts their bytes.
    ghost predicate Wrote(p: seq<FontSection>, k: nat)
      requires k <= |p|
      reads this
    {
      file == SectionsBytes(p[..k]) && offset == |file|
    }

    // The three writes every section starts with and consists of.
    method WriteSection(name: string, data: seq<byte>)
      modifies this`file
      ensures file == old(file) + SectionBytes(FontSection(name, data))
    {
      hide Ascii, Be32;
      WriteImage(Ascii(name));
      WriteImage(Be32(|data|));
      WriteImage(data);
      assert file == old(file) + (Ascii(name) + Be32(|data|) + data);
    }

    method WriteStringSection(name: string, s: string, ghost p: seq<FontSection>, ghost k: nat)
      requires |name| == 4 && k < |p| && p[k] == StringSection(name, s) && Wrote(p, k)
      modifies this
      ensures Wrote(p, k + 1)
    {
      SectionsNext(p, k);
      hide SectionsBytes, Ascii, SectionBytes;
      WriteSection(name, Ascii(s) + [0]);
      offset := offset + 8 + (|s| + 1);
    }

    method WriteBe16Section(name: string, data: int, ghost p: seq<FontSection>, ghost k: nat)
      requires |name| == 4 && k < |p| && p[k] == ShortSection(name, data) && Wrote(p, k)
      modifies this
      ensures Wrote(p, k + 1)
    {
      SectionsNext(p, k);
      hide SectionsBytes, Ascii, SectionBytes, Be16;
      WriteSection(name, Be16(data));
      offset := offset + 10;
    }

    method WriteFileSection(ghost p: seq<FontSection>)
      requires 0 < |p| && p[0] == FontSection("FILE", Ascii("PFF2")) && file == [] && offset == 0
      modifies this
      ensures Wrote(p, 1)
    {
      SectionsNext(p, 0);
      assert SectionsBytes(p[..0]) == [];
      hide SectionsBytes, Ascii, SectionBytes;
      WriteSection("FILE", Ascii("PFF2"));
      offset := offset + 12;
    }

    method WritePreamble(f: FontInfo)
      requires file == [] && offset == 0
      modifies this
      ensures file == PreambleBytes(f) && offset == |file|
    {
      hide SectionsBytes, Ascii, Be16, Wrote, StringSection, ShortSection;
      ghost var p := Preamble(f);
      WriteFileSection(p);
      WriteStringSection("NAME", f.fullName, p, 1);
      WriteStringSection("FAMI", f.name, p, 2);
      WriteStringSection("WEIG", if f.bold then "bold" else "normal", p, 3);
      WriteStringSection("SLAN", if f.italic then "italic" else "normal", p, 4);
      WriteBe16Section("PTSZ", f.size, p, 5);
      WriteBe16Section("MAXW", f.maxWidth, p, 6);
      WriteBe16Section("MAXH", f.maxHeight, p, 7);
      WriteBe16Section("ASCE", Ascent(f), p, 8);
      WriteBe16Section("DESC", Descent(f), p, 9);
      WroteAll(p);
    }

    lemma WroteAll(p: seq<FontSection>)
      requires Wrote(p, |p|)
      ensures file == SectionsBytes(p) && offset == |file|
    {
      assert p[..|p|] == p;
    }

    // The index entries; `offset` runs ahead over data that is not written yet.
    method WriteIndex(gs: seq<Glyph>)
      modifies this
      ensures file == old(file) + IndexBytes(gs, old(offset))
    {
      hide EntryBytes;
      for i := 0 to |gs|
        invariant file + IndexBytes(gs[i..], offset) == old(file) + IndexBytes(gs, old(offset))
      {
        assert gs[i..][1..] == gs[i + 1..];
        WriteImage(EntryBytes(gs[i].charCode, offset));
        offset := offset + 10 + |gs[i].bitmap|;
      }
    }

    method WriteData(gs: seq<Glyph>)
      modifies this`file
      ensures file == old(file) + DataBytes(gs)
    {
      hide RecordBytes;
      for i := 0 to |gs|
        invariant file + DataBytes(gs[i..]) == old(file) + DataBytes(gs)
      {
        assert gs[i..][1..] == gs[i + 1..];
        WriteImage(RecordBytes(gs[i]));
      }
    }

    // write_font_pf2
    method WriteFont(f: FontInfo, gs: seq<Glyph>)
      requires file == [] && offset == 0
      modifies this
      ensures file == FontBytes(f, gs)
    {
      hide PreambleBytes, IndexBytes, DataBytes, Ascii, Be32;
      WritePreamble(f);
      WriteImage(Ascii("CHIX"));
      WriteImage(Be32(ENTRY * |gs|));
      offset := offset + 8 + |gs| * ENTRY + 8;
      assert offset == DataStart(f, gs);
      WriteIndex(gs);
      WriteImage(Ascii("DATA"));
      WriteImage(Be32(0xffff_ffff));
      WriteData(gs);
    }
  }

  lemma SectionsNext(p: seq<FontSection>, k: nat)
    requires k < |p|
    ensures SectionsBytes(p[..k + 1]) == SectionsBytes(p[..k]) + SectionBytes(p[k])
  {
    SectionsAppend(p[..k], p[k]);
    assert p[..k + 1] == p[..k] + [p[k]];
  }

  lemma {:induction false} SectionsAppend(ss: seq<FontSection>, s: FontSection)
    ensures SectionsBytes(ss + [s]) == SectionsBytes(ss) + SectionBytes(s)
    decreases |ss|
  {
    hide SectionBytes;
    if ss == [] {
      assert ss + [s] == [s];
      assert SectionsBytes([s][1..]) == [];
    } else {
      assert (ss + [s])[1..] == ss[1..] + [s];
      SectionsAppend(ss[1..], s);
    }
  }

  /* ---- the reader ---- */

  datatype Entry = Entry(code: nat, offset: nat)

  function ReadEntry(file: seq<byte>, at: nat): Entry
    requires at + ENTRY <= |file|
  {
    Entry(Decode(Big, file[at..at + 4]), Decode(Big, file[at + 5..at + 9]))
  }

  function ReadEntries(file: seq<byte>, at: nat, n: nat): (es: seq<Entry>)
    requires at + ENTRY * n <= |file|
    ensures |es| == n
    ensures forall i :: 0 <= i < n ==> es[i] == ReadEntry(file, at + ENTRY * i)
    decreases n
  {
    if n == 0 then [] else ReadEntries(file, at, n - 1) + [ReadEntry(file, at + ENTRY * (n - 1))]
  }

  ghost predicate Ascending(es: seq<Entry>) {
    forall i, j :: 0 <= i < j < |es| ==> es[i].code < es[j].code
  }

  function Signed16(v: nat): int {
    if v < 0x8000 then v else v - TWO16
  }

  // The record at a file offset.
  function ReadGlyph(file: seq<byte>, code: nat, at: nat): Option<Glyph> {
    if at + 10 > |file| then None
    else
      var width := Decode(Big, file[at..at + 2]);
      var height := Decode(Big, file[at + 2..at + 4]);
      var len := (width * height + 7) / 8;
      if at + 10 + len > |file| then None
      else Some(Glyph(code, width, height,
                      Signed16(Decode(Big, file[at + 4..at + 6])),
                      Signed16(Decode(Big, file[at + 6..at + 8])),
                      Signed16(Decode(Big, file[at + 8..at + 10])),
                      file[at + 10..at + 10 + len]))
  }

  /* ---- reading back ---- */

  ghost predicate ValidGlyph(g: Glyph) {
    && g.charCode < TWO32
    && g.width < TWO16 && g.height < TWO16
    && -0x8000 <= g.xOfs < 0x8000 && -0x8000 <= g.yOfs < 0x8000 && -0x8000 <= g.deviceWidth < 0x8000
    && |g.bitmap| == (g.width * g.height + 7) / 8
  }

  ghost predicate ValidFont(f: FontInfo, gs: seq<Glyph>) {
    && (forall i :: 0 <= i < |gs| ==> ValidGlyph(gs[i]))
    && |FontBytes(f, gs)| < TWO32
  }

  lemma Be16Back(v: int)
    ensures Decode(Big, Be16(v)) == v % TWO16
    ensures 0 <= v < TWO16 ==> Decode(Big, Be16(v)) == v
    ensures -0x8000 <= v < 0x8000 ==> Signed16(Decode(Big, Be16(v))) == v
  {
    Powers();
    DecodeEncode(Big, v % TWO16, 2);
  }

  lemma Be32Back(v: nat)
    requires v < TWO32
    ensures Decode(Big, Be32(v)) == v
  {
    Powers();
    DecodeEncode(Big, v, 4);
  }

  // A record read where it was written.
  lemma RecordBack(pre: seq<byte>, g: Glyph, post: seq<byte>)
    requires ValidGlyph(g)
    ensures ReadGlyph(pre + RecordBytes(g) + post, g.charCode, |pre|) == Some(g)
  {
    hide Decode, Be16, Signed16;
    var file := pre + RecordBytes(g) + post;
    var at := |pre|;
    Be16Back(g.width);
    Be16Back(g.height);
    Be16Back(g.xOfs);
    Be16Back(g.yOfs);
    Be16Back(g.deviceWidth);
    assert file[at..at + 2] == Be16(g.width);
    assert file[at + 2..at + 4] == Be16(g.height);
    assert file[at + 4..at + 6] == Be16(g.xOfs);
    assert file[at + 6..at + 8] == Be16(g.yOfs);
    assert file[at + 8..at + 10] == Be16(g.deviceWidth);
    assert file[at + 10..at + 10 + |g.bitmap|] == g.bitmap;
  }

  lemma EntryBack(pre: seq<byte>, code: nat, offset: nat, post: seq<byte>)
    requires code < TWO32 && offset < TWO32
    ensures ReadEntry(pre + EntryBytes(code, offset) + post, |pre|) == Entry(code, offset)
  {
    hide Decode, Be32;
    var file := pre + EntryBytes(code, offset) + post;
    var at := |pre|;
    Be32Back(code);
    Be32Back(offset);
    assert file[at..at + 4] == Be32(code);
    assert file[at + 5..at + 9] == Be32(offset);
  }

  // Where glyph `i` starts: behind the records of the glyphs before it.
  function Offset(gs: seq<Glyph>, start: nat, i: nat): nat
    requires i <= |gs|
  {
    start + |DataBytes(gs[..i])|
  }

  lemma {:induction false} DataSplit(gs: seq<Glyph>, i: nat)
    requires i < |gs|
    ensures DataBytes(gs) == DataBytes(gs[..i]) + RecordBytes(gs[i]) + DataBytes(gs[i + 1..])
    decreases |gs|
  {
    hide RecordBytes;
    if i == 0 {
      assert gs[..0] == [];
    } else {
      DataSplit(gs[1..], i - 1);
      assert gs[..i][1..] == gs[1..][..i - 1] && gs[1..][i..] == gs[i + 1..];
    }
  }

  lemma {:induction false} IndexSplit(gs: seq<Glyph>, start: nat, i: nat) returns (pre: seq<byte>, post: seq<byte>)
    requires i < |gs|
    ensures |pre| == ENTRY * i
    ensures IndexBytes(gs, start) == pre + EntryBytes(gs[i].charCode, Offset(gs, start, i)) + post
    decreases |gs|
  {
    hide EntryBytes, RecordBytes;
    var next := start + 10 + |gs[0].bitmap|;
    if i == 0 {
      assert gs[..0] == [];
      pre, post := [], IndexBytes(gs[1..], next);
    } else {
      pre, post := IndexSplit(gs[1..], next, i - 1);
      assert gs[..i][1..] == gs[1..][..i - 1];
      assert Offset(gs[1..], next, i - 1) == Offset(gs, start, i);
      pre := EntryBytes(gs[0].charCode, start) + pre;
    }
  }

  function IndexStart(f: FontInfo): nat {
    |PreambleBytes(f)| + 8
  }

  // The file around the index, and around the data.
  lemma AroundIndex(f: FontInfo, gs: seq<Glyph>) returns (head: seq<byte>, tail: seq<byte>)
    ensures |head| == IndexStart(f) && |tail| >= 8
    ensures FontBytes(f, gs) == head + IndexBytes(gs, DataStart(f, gs)) + tail
  {
    hide PreambleBytes, IndexBytes, DataBytes, Ascii, Be32;
    head := PreambleBytes(f) + Ascii("CHIX") + Be32(ENTRY * |gs|);
    tail := Ascii("DATA") + Be32(0xffff_ffff) + DataBytes(gs);
  }

  lemma AroundData(f: FontInfo, gs: seq<Glyph>) returns (head: seq<byte>)
    ensures |head| == DataStart(f, gs)
    ensures FontBytes(f, gs) == head + DataBytes(gs)
  {
    hide PreambleBytes, IndexBytes, DataBytes, Ascii, Be32;
    head := PreambleBytes(f) + Ascii("CHIX") + Be32(ENTRY * |gs|) + IndexBytes(gs, DataStart(f, gs))
            + Ascii("DATA") + Be32(0xffff_ffff);
  }

  // Index correctness.  Entry `i` names the code of glyph `i` and the position at
  // which its record begins; reading there gives the glyph back.
  lemma EntryPointsAtRecord(f: FontInfo, gs: seq<Glyph>, i: nat)
    requires ValidFont(f, gs) && i < |gs|
    ensures var file := FontBytes(f, gs);
            && IndexStart(f) + ENTRY * |gs| <= |file|
            && ReadEntry(file, IndexStart(f) + ENTRY * i) == Entry(gs[i].charCode, Offset(gs, DataStart(f, gs), i))
            && ReadGlyph(file, gs[i].charCode, Offset(gs, DataStart(f, gs), i)) == Some(gs[i])
  {
    hide PreambleBytes, IndexBytes, DataBytes, FontBytes, ReadGlyph, ReadEntry, RecordBytes, EntryBytes, Ascii, Be32;
    assert ValidGlyph(gs[i]);
    RecordAt(f, gs, i);
    EntryAt(f, gs, i);
  }

  lemma RecordAt(f: FontInfo, gs: seq<Glyph>, i: nat)
    requires i < |gs| && ValidGlyph(gs[i])
    ensures ReadGlyph(FontBytes(f, gs), gs[i].charCode, Offset(gs, DataStart(f, gs), i)) == Some(gs[i])
    ensures Offset(gs, DataStart(f, gs), i) <= |FontBytes(f, gs)|
  {
    hide PreambleBytes, IndexBytes, DataBytes, FontBytes, ReadGlyph, RecordBytes, Ascii, Be32;
    var head := AroundData(f, gs);
    DataSplit(gs, i);
    RecordBack(head + DataBytes(gs[..i]), gs[i], DataBytes(gs[i + 1..]));
    assert head + DataBytes(gs) == (head + DataBytes(gs[..i])) + RecordBytes(gs[i]) + DataBytes(gs[i + 1..]);
  }

  lemma EntryAt(f: FontInfo, gs: seq<Glyph>, i: nat)
    requires ValidFont(f, gs) && i < |gs|
    ensures IndexStart(f) + ENTRY * |gs| <= |FontBytes(f, gs)|
    ensures ReadEntry(FontBytes(f, gs), IndexStart(f) + ENTRY * i) == Entry(gs[i].charCode, Offset(gs, DataStart(f, gs), i))
  {
    hide PreambleBytes, IndexBytes, DataBytes, FontBytes, ReadEntry, EntryBytes, Ascii, Be32, ValidGlyph, Offset;
    assert ValidGlyph(gs[i]);
    RecordAt(f, gs, i);
    CodeBound(gs[i]);
    var head, tail := AroundIndex(f, gs);
    EntryInIndex(head, gs, DataStart(f, gs), tail, i);
  }

  lemma EntryInIndex(head: seq<byte>, gs: seq<Glyph>, start: nat, tail: seq<byte>, i: nat)
    requires i < |gs| && gs[i].charCode < TWO32 && Offset(gs, start, i) < TWO32
    ensures |head| + ENTRY * i + ENTRY <= |head + IndexBytes(gs, start) + tail|
    ensures ReadEntry(head + IndexBytes(gs, start) + tail, |head| + ENTRY * i) == Entry(gs[i].charCode, Offset(gs, start, i))
  {
    hide IndexBytes, EntryBytes, ReadEntry, Offset;
    var pre, post := IndexSplit(gs, start, i);
    var e := EntryBytes(gs[i].charCode, Offset(gs, start, i));
    Regroup(head, pre, e, post, tail);
    EntryBack(head + pre, gs[i].charCode, Offset(gs, start, i), post + tail);
  }

  lemma Regroup(a: seq<byte>, b: seq<byte>, c: seq<byte>, d: seq<byte>, e: seq<byte>)
    ensures a + (b + c + d) + e == (a + b) + c + (d + e)
  {
  }

  lemma CodeBound(g: Glyph)
    requires ValidGlyph(g)
    ensures g.charCode < TWO32
  {
  }
}
