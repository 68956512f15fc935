/** Loading a PF2 font and looking glyphs up in it: `open_section`, `load_font_index`,
    `grub_font_load`, `find_glyph` and `grub_font_get_glyph_internal` of
    grub/grub-core/font/font.c, against the file that grub-mkfont writes. */
module Pf2Load {
  import opened Bytes
  import opened Counting
  import opened GlyphSort
  import opened Options
  import opened Pf2Font

  /* ---- sections ---- */

  // A section name compared as four bytes.
  function FourCc(name: seq<byte>): nat
    requires |name| == 4
  {
    var a: int, b: int, c: int, d: int := name[0], name[1], name[2], name[3];
    a * 0x100_0000 + b * 0x1_0000 + c * 0x100 + d
  }

  const NAME: nat := 0x4e41_4d45
  const PTSZ: nat := 0x5054_535a
  const WEIG: nat := 0x5745_4947
  const MAXW: nat := 0x4d41_5857
  const MAXH: nat := 0x4d41_5848
  const ASCE: nat := 0x4153_4345
  const DESC: nat := 0x4445_5343
  const CHIX: nat := 0x4348_4958
  const DATA: nat := 0x4441_5441

  // The fields of struct grub_font that loading sets and tests.
  datatype Font = Font(named: bool, maxWidth: int, maxHeight: int, ascent: int, descent: int, index: Option<seq<Entry>>)

  const NEW_FONT := Font(false, 0, 0, 0, 0, None)

  // read_section_as_short
  function ReadShort(data: seq<byte>): Option<int> {
    if |data| == 2 then Some(Signed16(Decode(Big, data))) else None
  }

  // load_font_index on a whole index: None unless it is whole entries with ascending codes.
  ghost function IndexIn(data: seq<byte>): Option<seq<Entry>> {
    if |data| % ENTRY != 0 then None
    else
      var es := ReadEntries(data, 0, |data| / ENTRY);
      if Ascending(es) then Some(es) else None
  }

  // What one whole section does to the font; None is a failed load.
  ghost function Handle(font: Font, tag: nat, data: seq<byte>): Option<Font> {
    if tag == NAME then if font.named then None else Some(font.(named := true))
    else if tag == CHIX then
      match IndexIn(data) case None => None case Some(es) => Some(font.(index := Some(es)))
    else if tag == PTSZ || tag == MAXW || tag == MAXH || tag == ASCE || tag == DESC then
      match ReadShort(data) case None => None case Some(v) => Some(SetShort(font, tag, v))
    else Some(font)
  }

  function SetShort(font: Font, tag: nat, v: int): Font {
    if tag == MAXW then font.(maxWidth := v)
    else if tag == MAXH then font.(maxHeight := v)
    else if tag == ASCE then font.(ascent := v)
    else if tag == DESC then font.(descent := v)
    else font
  }

  // The loop of grub_font_load from position `pos` on.  It ends at the DATA section or the end
  // of the file; a section that is cut off fails, except for the weight, which is optional.
  ghost function LoadSections(file: seq<byte>, pos: nat, font: Font): Option<Font>
    decreases |file| - pos
  {
    if pos + 8 > |file| then Some(font)
    else
      var tag, length := FourCc(file[pos..pos + 4]), Decode(Big, file[pos + 4..pos + 8]);
      if tag == DATA then Some(font)
      else if pos + 8 + length > |file| then if tag == WEIG then Some(font) else None
      else
        match Handle(font, tag, file[pos + 8..pos + 8 + length])
        case None => None
        case Some(next) => LoadSections(file, pos + 8 + length, next)
  }

  // "missing some required data"
  predicate Complete(font: Font) {
    font.maxWidth > 0 && font.maxHeight > 0 && font.index.Some? && font.index.value != [] && font.ascent != 0 && font.descent != 0
  }

  function Magic(): (m: seq<byte>)
    ensures |m| == 12
  {
    Ascii("FILE") + Be32(4) + Ascii("PFF2")
  }

  ghost function Load(file: seq<byte>): Option<Font> {
    if |file| < 12 || file[..12] != Magic() then None
    else
      match LoadSections(file, 12, NEW_FONT)
      case None => None
      case Some(font) => if Complete(font) then Some(font) else None
  }

  function IndexOf(es: seq<Entry>, code: nat): (r: Option<nat>)
    ensures r.Some? ==> r.value < |es| && es[r.value].code == code
    ensures r.None? ==> forall i :: 0 <= i < |es| ==> es[i].code != code
  {
    if es == [] then None
    else if es[|es| - 1].code == code then Some(|es| - 1)
    else IndexOf(es[..|es| - 1], code)
  }

  // The glyph a loaded font shows for a code: nothing for one larger than the font's maxima.
  ghost function Get(file: seq<byte>, code: nat): Option<Glyph> {
    match Load(file)
    case None => None
    case Some(font) => Lookup(file, font, code)
  }

  function Lookup(file: seq<byte>, font: Font, code: nat): Option<Glyph> {
    if font.index.None? then None
    else
      match IndexOf(font.index.value, code)
      case None => None
      case Some(i) => Sized(font, ReadGlyph(file, code, font.index.value[i].offset))
  }

  function Sized(font: Font, g: Option<Glyph>): Option<Glyph> {
    if g.Some? && (g.value.width > font.maxWidth || g.value.height > font.maxHeight) then None else g
  }

  /* ---- the loader as it runs ---- */

  // bmp_idx: position of each code of the basic plane, 0xffff if it has none.
  ghost predicate BmpFor(es: seq<Entry>, bmp: seq<nat>, n: nat)
    requires n <= |es|
  {
    && |bmp| == TWO16
    && (forall c :: 0 <= c < TWO16 && bmp[c] < 0xffff ==> bmp[c] < n && es[bmp[c]].code == c)
  }

  // load_font_index: reads the entries, checks their order, fills the quick index.
  method LoadIndex(data: seq<byte>) returns (ok: bool, es: seq<Entry>, bmp: array<nat>)
    ensures ok <==> IndexIn(data).Some?
    ensures ok ==> es == IndexIn(data).value
    ensures fresh(bmp) && bmp.Length == TWO16 && (ok ==> BmpFor(es, bmp[..], |es|))
  {
    bmp := new nat[TWO16](i => 0xffff);
    es := [];
    if |data| % ENTRY != 0 {
      return false, [], bmp;
    }
    var n := |data| / ENTRY;
    hide ReadEntry, ReadEntries, Ascending, BmpFor;
    NoEntries(data, 0, bmp[..]);
    for i := 0 to n
      invariant fresh(bmp) && bmp.Length == TWO16 && |es| == i && BmpFor(es, bmp[..], i)
      invariant es == ReadEntries(data, 0, i) && Ascending(es)
    {
      var e := ReadEntry(data, ENTRY * i);
      EntriesNext(data, 0, i);
      if i != 0 && e.code <= es[i - 1].code {
        Unordered(data, 0, i, n);
        return false, [], bmp;
      }
      AscendingNext(es, e);
      BmpNext(es, bmp[..], e);
      if e.code < TWO16 && i < 0xffff {
        bmp[e.code] := i;
      }
      es := es + [e];
    }
    ok := true;
  }

  lemma NoEntries(file: seq<byte>, at: nat, bmp: seq<nat>)
    requires at <= |file| && |bmp| == TWO16 && forall c :: 0 <= c < TWO16 ==> bmp[c] == 0xffff
    ensures ReadEntries(file, at, 0) == [] && Ascending([]) && BmpFor([], bmp, 0)
  {
  }

  lemma EntriesNext(file: seq<byte>, at: nat, i: nat)
    requires at + ENTRY * (i + 1) <= |file|
    ensures ReadEntries(file, at, i + 1) == ReadEntries(file, at, i) + [ReadEntry(file, at + ENTRY * i)]
  {
  }

  lemma Unordered(file: seq<byte>, at: nat, i: nat, n: nat)
    requires 0 < i < n && at + ENTRY * n <= |file|
    requires ReadEntry(file, at + ENTRY * i).code <= ReadEntries(file, at, i)[i - 1].code
    ensures !Ascending(ReadEntries(file, at, n))
  {
    hide ReadEntry;
    assert ReadEntries(file, at, n)[i - 1] == ReadEntries(file, at, i)[i - 1];
    assert ReadEntries(file, at, n)[i] == ReadEntry(file, at + ENTRY * i);
  }

  lemma AscendingNext(es: seq<Entry>, e: Entry)
    requires Ascending(es) && (es != [] ==> es[|es| - 1].code < e.code)
    ensures Ascending(es + [e])
  {
  }

  lemma BmpNext(es: seq<Entry>, bmp: seq<nat>, e: Entry)
    requires BmpFor(es, bmp, |es|)
    ensures BmpFor(es + [e], bmp, |es| + 1)
    ensures e.code < TWO16 ==> BmpFor(es + [e], bmp[e.code := |es|], |es| + 1)
  {
  }

  // find_glyph: the quick index, else a binary search.
  method FindGlyph(es: seq<Entry>, bmp: array<nat>, code: nat) returns (r: Option<nat>)
    requires Ascending(es) && BmpFor(es, bmp[..], |es|)
    ensures r == IndexOf(es, code)
  {
    if code < TWO16 && bmp[code] < 0xffff {
      assert es[bmp[..][code]].code == code;
      UniqueIndex(es, code, bmp[code]);
      return Some(bmp[code]);
    }
    var first, len := 0, |es|;
    while len > 0
      invariant 0 <= first && 0 <= len && first + len <= |es|
      invariant forall i :: 0 <= i < first ==> es[i].code < code
      invariant forall i :: first + len <= i < |es| ==> code <= es[i].code
    {
      var half := len / 2;
      if es[first + half].code < code {
        first, len := first + half + 1, len - half - 1;
      } else {
        len := half;
      }
    }
    if first < |es| && es[first].code == code {
      UniqueIndex(es, code, first);
      r := Some(first);
    } else {
      assert forall i :: 0 <= i < |es| ==> es[i].code != code;
      r := None;
    }
  }

  lemma UniqueIndex(es: seq<Entry>, code: nat, i: nat)
    requires Ascending(es) && i < |es| && es[i].code == code
    ensures IndexOf(es, code) == Some(i)
  {
    var j := IndexOf(es, code).value;
    assert es[j].code == es[i].code;
  }

  // One section of the loop; `bmp` is the quick index of the font's index.
  method HandleSection(font: Font, tag: nat, data: seq<byte>, bmp: array<nat>) returns (next: Option<Font>, bmp': array<nat>)
    requires font.index.Some? ==> BmpFor(font.index.value, bmp[..], |font.index.value|)
    ensures next == Handle(font, tag, data) && (bmp' == bmp || fresh(bmp'))
    ensures next.Some? && next.value.index.Some? ==> BmpFor(next.value.index.value, bmp'[..], |next.value.index.value|)
  {
    hide BmpFor, IndexIn;
    bmp' := bmp;
    if tag == NAME {
      next := if font.named then None else Some(font.(named := true));
    } else if tag == CHIX {
      var ok, es, quick := LoadIndex(data);
      next := if ok then Some(font.(index := Some(es))) else None;
      bmp' := quick;
    } else if tag == PTSZ || tag == MAXW || tag == MAXH || tag == ASCE || tag == DESC {
      var v := ReadShort(data);
      next := if v.Some? then Some(SetShort(font, tag, v.value)) else None;
    } else {
      next := Some(font);
    }
  }

  // grub_font_load
  method LoadFont(file: seq<byte>) returns (r: Option<Font>, bmp: array<nat>)
    ensures r == Load(file) && fresh(bmp)
    ensures r.Some? ==> r.value.index.Some? && BmpFor(r.value.index.value, bmp[..], |r.value.index.value|)
  {
    hide Handle, FourCc, Decode, BmpFor;
    bmp := new nat[0];
    if |file| < 12 || file[..12] != Magic() {
      return None, bmp;
    }
    var pos, font := 12, NEW_FONT;
    while pos + 8 <= |file|
      invariant fresh(bmp) && LoadSections(file, 12, NEW_FONT) == LoadSections(file, pos, font)
      invariant font.index.Some? ==> BmpFor(font.index.value, bmp[..], |font.index.value|)
      decreases |file| - pos
    {
      var tag, length := FourCc(file[pos..pos + 4]), Decode(Big, file[pos + 4..pos + 8]);
      if tag == DATA {
        break;
      }
      if pos + 8 + length > |file| {
        if tag != WEIG {
          return None, bmp;
        }
        break;
      }
      var next;
      next, bmp := HandleSection(font, tag, file[pos + 8..pos + 8 + length], bmp);
      if next.None? {
        return None, bmp;
      }
      font, pos := next.value, pos + 8 + length;
    }
    r := if Complete(font) then Some(font) else None;
  }

  // Loading a font and asking it for one code.
  method GetGlyph(file: seq<byte>, code: nat) returns (g: Option<Glyph>)
    ensures g == Get(file, code)
  {
    hide Load, ReadGlyph, BmpFor;
    var font, bmp := LoadFont(file);
    if font.None? {
      return None;
    }
    LoadedAscends(file);
    var es := font.value.index.value;
    var i := FindGlyph(es, bmp, code);
    if i.None? {
      return None;
    }
    g := Sized(font.value, ReadGlyph(file, code, es[i.value].offset));
  }

  lemma LoadedAscends(file: seq<byte>)
    ensures Load(file).Some? && Load(file).value.index.Some? ==> Ascending(Load(file).value.index.value)
  {
    hide Ascending, Handle, FourCc, Decode;
    if |file| >= 12 { SectionsAscend(file, 12, NEW_FONT); }
  }

  lemma {:induction false} SectionsAscend(file: seq<byte>, pos: nat, font: Font)
    requires font.index.Some? ==> Ascending(font.index.value)
    ensures var r := LoadSections(file, pos, font); r.Some? && r.value.index.Some? ==> Ascending(r.value.index.value)
    decreases |file| - pos
  {
    hide Ascending, Handle, FourCc, Decode;
    if pos + 8 <= |file| {
      var tag, length := FourCc(file[pos..pos + 4]), Decode(Big, file[pos + 4..pos + 8]);
      if pos + 8 + length <= |file| {
        var data := file[pos + 8..pos + 8 + length];
        HandleAscends(font, tag, data);
        if Handle(font, tag, data).Some? { SectionsAscend(file, pos + 8 + length, Handle(font, tag, data).value); }
      }
    }
  }

  lemma HandleAscends(font: Font, tag: nat, data: seq<byte>)
    requires font.index.Some? ==> Ascending(font.index.value)
    ensures var r := Handle(font, tag, data); r.Some? && r.value.index.Some? ==> Ascending(r.value.index.value)
  {
  }

  /* ---- loading what was written ---- */

  lemma WalkOne(pre: seq<byte>, s: FontSection, rest: seq<byte>, font: Font)
    requires |s.name| == 4 && |s.data| < TWO32 && FourCc(Ascii(s.name)) != DATA && Handle(font, FourCc(Ascii(s.name)), s.data).Some?
    ensures var file := pre + SectionBytes(s) + rest;
            LoadSections(file, |pre|, font)
            == LoadSections(file, |pre| + |SectionBytes(s)|, Handle(font, FourCc(Ascii(s.name)), s.data).value)
  {
    hide Ascii, Be32, Decode, Handle, FourCc, LoadSections;
    Be32Back(|s.data|);
    var file := pre + SectionBytes(s) + rest;
    SectionParts(pre, Ascii(s.name), Be32(|s.data|), s.data, rest);
    LoadStep(file, |pre|, font, s.data);
  }

  lemma LoadStep(file: seq<byte>, pos: nat, font: Font, data: seq<byte>)
    requires pos + 8 + |data| <= |file| && FourCc(file[pos..pos + 4]) != DATA
    requires Decode(Big, file[pos + 4..pos + 8]) == |data| && file[pos + 8..pos + 8 + |data|] == data
    ensures var next := Handle(font, FourCc(file[pos..pos + 4]), data);
            LoadSections(file, pos, font) == if next.None? then None else LoadSections(file, pos + 8 + |data|, next.value)
  {
    hide Decode, Handle, FourCc;
  }

  lemma SectionParts(pre: seq<byte>, a: seq<byte>, b: seq<byte>, c: seq<byte>, rest: seq<byte>)
    requires |a| == 4 && |b| == 4
    ensures var file, at := pre + (a + b + c) + rest, |pre|;
            file[at..at + 4] == a && file[at + 4..at + 8] == b && file[at + 8..at + 8 + |c|] == c
  {
  }

  lemma {:induction false} SectionsSplit(ss: seq<FontSection>, k: nat)
    requires k < |ss|
    ensures SectionsBytes(ss) == SectionsBytes(ss[..k]) + SectionBytes(ss[k]) + SectionsBytes(ss[k + 1..])
    decreases |ss|
  {
    hide SectionBytes;
    if k == 0 {
      assert ss[..0] == [];
    } else {
      SectionsSplit(ss[1..], k - 1);
      assert ss[..k][1..] == ss[1..][..k - 1] && ss[1..][k..] == ss[k + 1..];
    }
  }

  // Where section k of a list starts.
  function At(ss: seq<FontSection>, k: nat): nat
    requires k <= |ss|
  {
    |SectionsBytes(ss[..k])|
  }

  lemma WalkSection(ss: seq<FontSection>, rest: seq<byte>, k: nat, font: Font, next: Font)
    requires k < |ss| && |ss[k].name| == 4 && |ss[k].data| < TWO32
    requires FourCc(Ascii(ss[k].name)) != DATA && Handle(font, FourCc(Ascii(ss[k].name)), ss[k].data) == Some(next)
    ensures LoadSections(SectionsBytes(ss) + rest, At(ss, k), font) == LoadSections(SectionsBytes(ss) + rest, At(ss, k + 1), next)
  {
    hide SectionBytes, SectionsBytes, LoadSections, Handle, Ascii, FourCc;
    SectionsSplit(ss, k);
    SectionsNext(ss, k);
    var pre, s, post := SectionsBytes(ss[..k]), SectionBytes(ss[k]), SectionsBytes(ss[k + 1..]) + rest;
    WalkOne(pre, ss[k], post, font);
    assert SectionsBytes(ss) + rest == pre + s + post;
  }

  lemma WalkEnds(pre: seq<byte>, rest: seq<byte>, font: Font)
    ensures LoadSections(pre + (Ascii("DATA") + Be32(0xffff_ffff) + rest), |pre|, font) == Some(font)
  {
    Tags();
    hide Ascii, Be32, Decode, Handle, FourCc;
    var file := pre + (Ascii("DATA") + Be32(0xffff_ffff) + rest);
    assert file[|pre|..|pre| + 4] == Ascii("DATA");
  }

  lemma TagOf(name: string)
    requires |name| == 4 && forall i :: 0 <= i < 4 ==> name[i] as int < 256
    ensures FourCc(Ascii(name)) == name[0] as int * 0x100_0000 + name[1] as int * 0x1_0000 + name[2] as int * 0x100 + name[3] as int
  {
    hide Ascii;
    var b := Ascii(name);
    forall i | 0 <= i < 4 ensures b[i] == name[i] as int {
      SmallByte(name[i] as int);
    }
  }

  lemma SmallByte(x: int)
    requires 0 <= x < 256
    ensures x % 256 == x
  {
  }

  lemma Tags()
    ensures FourCc(Ascii("NAME")) == NAME && FourCc(Ascii("FAMI")) == 0x4641_4d49 && FourCc(Ascii("WEIG")) == WEIG
    ensures FourCc(Ascii("SLAN")) == 0x534c_414e && FourCc(Ascii("PTSZ")) == PTSZ && FourCc(Ascii("MAXW")) == MAXW
    ensures FourCc(Ascii("MAXH")) == MAXH && FourCc(Ascii("ASCE")) == ASCE && FourCc(Ascii("DESC")) == DESC
    ensures FourCc(Ascii("CHIX")) == CHIX && FourCc(Ascii("DATA")) == DATA
  {
    hide Ascii, FourCc;
    TagOf("NAME"); TagOf("FAMI"); TagOf("WEIG"); TagOf("SLAN"); TagOf("PTSZ"); TagOf("MAXW");
    TagOf("MAXH"); TagOf("ASCE"); TagOf("DESC"); TagOf("CHIX"); TagOf("DATA");
  }

  // All sections up to the index.
  function UpToIndex(f: FontInfo, gs: seq<Glyph>): (ss: seq<FontSection>)
    ensures |ss| == 11 && ss[..10] == Preamble(f) && ss[10] == FontSection("CHIX", IndexBytes(gs, DataStart(f, gs)))
  {
    Preamble(f) + [FontSection("CHIX", IndexBytes(gs, DataStart(f, gs)))]
  }

  lemma FileIsSections(f: FontInfo, gs: seq<Glyph>)
    ensures FontBytes(f, gs) == SectionsBytes(UpToIndex(f, gs)) + (Ascii("DATA") + Be32(0xffff_ffff) + DataBytes(gs))
    ensures At(UpToIndex(f, gs), 1) == 12 && |FontBytes(f, gs)| >= 12 && FontBytes(f, gs)[..12] == Magic()
  {
    hide Ascii, Be32, IndexBytes, DataBytes, Preamble;
    var ss := UpToIndex(f, gs);
    SectionsAppend(Preamble(f), ss[10]);
    FirstSection(f, gs);
    SectionsSplit(ss, 0);
  }

  lemma FirstSection(f: FontInfo, gs: seq<Glyph>)
    ensures var ss := UpToIndex(f, gs);
            SectionBytes(ss[0]) == Magic() && SectionsBytes(ss[..0]) == [] && SectionsBytes(ss[..1]) == Magic()
  {
    hide Ascii, Be32, IndexBytes, StringSection, ShortSection;
    var ss := UpToIndex(f, gs);
    assert ss[0] == ss[..10][0];
    SectionsNext(ss, 0);
    assert ss[..0] == [];
  }

  function Short(v: int): int { Signed16(v % TWO16) }

  // The font in memory once the sections before the index are read.
  function Described(f: FontInfo): Font {
    Font(true, Short(f.maxWidth), Short(f.maxHeight), Short(Ascent(f)), Short(Descent(f)), None)
  }

  lemma ShortBack(v: int)
    ensures ReadShort(Be16(v)) == Some(Short(v))
  {
    Be16Back(v);
  }

  // The nine sections between the file header and the index.
  lemma WalkPreamble(f: FontInfo, gs: seq<Glyph>)
    requires |FontBytes(f, gs)| < TWO32
    ensures LoadSections(FontBytes(f, gs), 12, NEW_FONT) == LoadSections(FontBytes(f, gs), At(UpToIndex(f, gs), 10), Described(f))
  {
    hide LoadSections, FontBytes, DataBytes, Ascii, Be32, Be16, At, FourCc, Short, IndexIn;
    var ss := UpToIndex(f, gs);
    var rest := Ascii("DATA") + Be32(0xffff_ffff) + DataBytes(gs);
    FileIsSections(f, gs);
    Tags();
    SmallData(ss, rest);
    PreambleParts(f, gs);
    hide UpToIndex, Preamble, SectionsBytes;
    ShortBack(f.size);
    var f1 := NEW_FONT.(named := true);
    WalkSection(ss, rest, 1, NEW_FONT, f1);
    WalkSection(ss, rest, 2, f1, f1);
    WalkSection(ss, rest, 3, f1, f1);
    WalkSection(ss, rest, 4, f1, f1);
    WalkSection(ss, rest, 5, f1, f1);
    WalkMeasures(f, gs);
  }

  lemma WalkMeasures(f: FontInfo, gs: seq<Glyph>)
    requires |FontBytes(f, gs)| < TWO32
    ensures LoadSections(FontBytes(f, gs), At(UpToIndex(f, gs), 6), NEW_FONT.(named := true))
            == LoadSections(FontBytes(f, gs), At(UpToIndex(f, gs), 10), Described(f))
  {
    hide LoadSections, FontBytes, DataBytes, Ascii, Be32, Be16, At, FourCc, Short, IndexIn;
    var ss := UpToIndex(f, gs);
    var rest := Ascii("DATA") + Be32(0xffff_ffff) + DataBytes(gs);
    FileIsSections(f, gs);
    Tags();
    SmallData(ss, rest);
    PreambleParts(f, gs);
    hide UpToIndex, Preamble, SectionsBytes;
    ShortBack(f.maxWidth);
    ShortBack(f.maxHeight);
    ShortBack(Ascent(f));
    ShortBack(Descent(f));
    var f1 := NEW_FONT.(named := true);
    var f2 := f1.(maxWidth := Short(f.maxWidth));
    var f3 := f2.(maxHeight := Short(f.maxHeight));
    var f4 := f3.(ascent := Short(Ascent(f)));
    WalkSection(ss, rest, 6, f1, f2);
    WalkSection(ss, rest, 7, f2, f3);
    WalkSection(ss, rest, 8, f3, f4);
    WalkSection(ss, rest, 9, f4, Described(f));
  }

  /* ---- what a reader finds under each name ---- */

  // The data of the first section with this name, from position `pos` on.
  function SectionIn(file: seq<byte>, pos: nat, tag: nat): Option<seq<byte>>
    decreases |file| - pos
  {
    if pos + 8 > |file| then None
    else
      var length := Decode(Big, file[pos + 4..pos + 8]);
      if pos + 8 + length > |file| then None
      else if FourCc(file[pos..pos + 4]) == tag then Some(file[pos + 8..pos + 8 + length])
      else SectionIn(file, pos + 8 + length, tag)
  }

  lemma SectionInStep(file: seq<byte>, pos: nat, data: seq<byte>, tag: nat)
    requires pos + 8 + |data| <= |file|
    requires Decode(Big, file[pos + 4..pos + 8]) == |data| && file[pos + 8..pos + 8 + |data|] == data
    ensures SectionIn(file, pos, tag) == if FourCc(file[pos..pos + 4]) == tag then Some(data) else SectionIn(file, pos + 8 + |data|, tag)
  {
    hide Decode, FourCc;
  }

  lemma {:induction false} SectionFound(ss: seq<FontSection>, rest: seq<byte>, k: nat, m: nat, tag: nat)
    requires k <= m < |ss| && (forall x :: 0 <= x < |ss| ==> |ss[x].name| == 4 && |ss[x].data| < TWO32)
    requires FourCc(Ascii(ss[m].name)) == tag && forall x :: k <= x < m ==> FourCc(Ascii(ss[x].name)) != tag
    ensures SectionIn(SectionsBytes(ss) + rest, At(ss, k), tag) == Some(ss[m].data)
    decreases m - k
  {
    hide SectionBytes, SectionsBytes, SectionIn, Ascii, FourCc;
    SectionsSplit(ss, k);
    SectionsNext(ss, k);
    var pre, s, post := SectionsBytes(ss[..k]), SectionBytes(ss[k]), SectionsBytes(ss[k + 1..]) + rest;
    assert SectionsBytes(ss) + rest == pre + s + post;
    SectionInOne(pre, ss[k], post, tag);
    if k < m { SectionFound(ss, rest, k + 1, m, tag); }
  }

  lemma SectionInOne(pre: seq<byte>, s: FontSection, rest: seq<byte>, tag: nat)
    requires |s.name| == 4 && |s.data| < TWO32
    ensures var file := pre + SectionBytes(s) + rest;
            SectionIn(file, |pre|, tag)
            == if FourCc(Ascii(s.name)) == tag then Some(s.data) else SectionIn(file, |pre| + |SectionBytes(s)|, tag)
  {
    hide Ascii, Be32, Decode, FourCc, SectionIn;
    Be32Back(|s.data|);
    var file := pre + SectionBytes(s) + rest;
    SectionParts(pre, Ascii(s.name), Be32(|s.data|), s.data, rest);
    SectionInStep(file, |pre|, s.data, tag);
  }

  // A reader of the written file finds the font's full name, family, weight and slant under
  // their names.
  lemma FontDescribesItself(f: FontInfo, gs: seq<Glyph>)
    requires |FontBytes(f, gs)| < TWO32
    ensures var file := FontBytes(f, gs);
            && SectionIn(file, 0, 0x4649_4c45) == Some(Ascii("PFF2"))                                        // FILE
            && SectionIn(file, 0, 0x4e41_4d45) == Some(Ascii(f.fullName) + [0])                              // NAME
            && SectionIn(file, 0, 0x4641_4d49) == Some(Ascii(f.name) + [0])                                  // FAMI
            && SectionIn(file, 0, 0x5745_4947) == Some(Ascii(if f.bold then "bold" else "normal") + [0])     // WEIG
            && SectionIn(file, 0, 0x534c_414e) == Some(Ascii(if f.italic then "italic" else "normal") + [0]) // SLAN
  {
    hide FontBytes, Ascii, Be16, FourCc, SectionIn;
    Tags();
    TagOf("FILE");
    PreambleFirst(f, gs);
    ShortNames(f, gs);
    hide UpToIndex;
    SectionHeld(f, gs, 0, 0x4649_4c45);
    SectionHeld(f, gs, 1, 0x4e41_4d45);
    SectionHeld(f, gs, 2, 0x4641_4d49);
    SectionHeld(f, gs, 3, 0x5745_4947);
    SectionHeld(f, gs, 4, 0x534c_414e);
  }

  // And its point size and measures.
  lemma FontMeasuresItself(f: FontInfo, gs: seq<Glyph>)
    requires |FontBytes(f, gs)| < TWO32
    ensures var file := FontBytes(f, gs);
            && HoldsShort(SectionIn(file, 0, 0x5054_535a), f.size)      // PTSZ
            && HoldsShort(SectionIn(file, 0, 0x4d41_5857), f.maxWidth)  // MAXW
            && HoldsShort(SectionIn(file, 0, 0x4d41_5848), f.maxHeight) // MAXH
            && HoldsShort(SectionIn(file, 0, 0x4153_4345), Ascent(f))   // ASCE
            && HoldsShort(SectionIn(file, 0, 0x4445_5343), Descent(f))  // DESC
  {
    hide FontBytes, Ascii, Be16, FourCc, SectionIn, Ascent, Descent, HoldsShort;
    Tags();
    TagOf("FILE");
    PreambleFirst(f, gs);
    ShortNames(f, gs);
    hide UpToIndex;
    SectionHeld(f, gs, 5, 0x5054_535a);
    SectionHeld(f, gs, 6, 0x4d41_5857);
    SectionHeld(f, gs, 7, 0x4d41_5848);
    SectionHeld(f, gs, 8, 0x4153_4345);
    SectionHeld(f, gs, 9, 0x4445_5343);
    ShortHeld(f.size);
    ShortHeld(f.maxWidth);
    ShortHeld(f.maxHeight);
    ShortHeld(Ascent(f));
    ShortHeld(Descent(f));
  }

  lemma PreambleFirst(f: FontInfo, gs: seq<Glyph>)
    ensures forall x :: 0 <= x < 10 ==> UpToIndex(f, gs)[x] == Preamble(f)[x]
  {
    hide Preamble, UpToIndex;
    var ss := UpToIndex(f, gs);
    forall x | 0 <= x < 10 ensures ss[x] == Preamble(f)[x] { assert ss[x] == ss[..10][x]; }
  }

  // Section m is the first with this name.
  ghost predicate FirstNamed(ss: seq<FontSection>, m: nat, tag: nat) {
    && m < |ss|
    && (forall x :: 0 <= x < |ss| ==> |ss[x].name| == 4)
    && FourCc(Ascii(ss[m].name)) == tag
    && forall x :: 0 <= x < m ==> FourCc(Ascii(ss[x].name)) != tag
  }

  lemma SectionHeld(f: FontInfo, gs: seq<Glyph>, m: nat, tag: nat)
    requires |FontBytes(f, gs)| < TWO32 && m < 11 && FirstNamed(UpToIndex(f, gs), m, tag)
    ensures SectionIn(FontBytes(f, gs), 0, tag) == Some(UpToIndex(f, gs)[m].data)
  {
    hide *;
    var ss := UpToIndex(f, gs);
    var rest := Ascii("DATA") + Be32(0xffff_ffff) + DataBytes(gs);
    FileIsSections(f, gs);
    SmallData(ss, rest);
    NamedFound(ss, rest, m, tag);
  }

  lemma NamedFound(ss: seq<FontSection>, rest: seq<byte>, m: nat, tag: nat)
    requires FirstNamed(ss, m, tag) && forall x :: 0 <= x < |ss| ==> |ss[x].data| < TWO32
    ensures SectionIn(SectionsBytes(ss) + rest, 0, tag) == Some(ss[m].data)
  {
    hide SectionIn, SectionsBytes, Ascii, FourCc;
    StartOfFile(ss);
    SectionFound(ss, rest, 0, m, tag);
  }

  lemma ShortNames(f: FontInfo, gs: seq<Glyph>)
    ensures forall x :: 0 <= x < 11 ==> |UpToIndex(f, gs)[x].name| == 4
  {
    hide Ascii, Be16, IndexBytes, UpToIndex;
    PreambleFirst(f, gs);
  }

  // Two bytes, high byte first, of a number modulo 2^16.
  ghost predicate HoldsShort(data: Option<seq<byte>>, v: int) {
    data.Some? && |data.value| == 2 && data.value[0] as int * 256 + data.value[1] as int == v % TWO16
  }

  lemma ShortHeld(v: int)
    ensures HoldsShort(Some(Be16(v)), v)
  {
  }

  lemma StartOfFile(ss: seq<FontSection>)
    ensures At(ss, 0) == 0
  {
    assert ss[..0] == [];
  }

  lemma PreambleParts(f: FontInfo, gs: seq<Glyph>)
    ensures var ss := UpToIndex(f, gs);
            && ss[1].name == "NAME" && ss[2].name == "FAMI" && ss[3].name == "WEIG" && ss[4].name == "SLAN"
            && ss[5] == ShortSection("PTSZ", f.size) && ss[6] == ShortSection("MAXW", f.maxWidth)
            && ss[7] == ShortSection("MAXH", f.maxHeight) && ss[8] == ShortSection("ASCE", Ascent(f))
            && ss[9] == ShortSection("DESC", Descent(f))
  {
    hide Ascii, Be16, IndexBytes;
    var ss := UpToIndex(f, gs);
    assert forall i :: 0 <= i < 10 ==> ss[i] == Preamble(f)[i];
  }

  lemma SmallData(ss: seq<FontSection>, rest: seq<byte>)
    requires |SectionsBytes(ss) + rest| < TWO32
    ensures forall i :: 0 <= i < |ss| ==> |ss[i].data| < TWO32
  {
    hide SectionsBytes;
    forall i | 0 <= i < |ss| ensures |ss[i].data| < TWO32 { SectionDataBound(ss, i); }
  }

  lemma {:induction false} SectionDataBound(ss: seq<FontSection>, i: nat)
    requires i < |ss|
    ensures |ss[i].data| <= |SectionsBytes(ss)|
    decreases |ss|
  {
    if i > 0 {
      SectionDataBound(ss[1..], i - 1);
    }
  }

  ghost predicate CodesAscend(gs: seq<Glyph>) {
    forall i, j :: 0 <= i < j < |gs| ==> gs[i].charCode < gs[j].charCode
  }

  // The index as the loader reads it.
  ghost function EntriesOf(f: FontInfo, gs: seq<Glyph>): (es: seq<Entry>)
    ensures |es| == |gs|
    ensures forall i :: 0 <= i < |gs| ==> es[i] == Entry(gs[i].charCode, Offset(gs, DataStart(f, gs), i))
  {
    seq(|gs|, i requires 0 <= i < |gs| => Entry(gs[i].charCode, Offset(gs, DataStart(f, gs), i)))
  }

  lemma IndexIsRead(f: FontInfo, gs: seq<Glyph>)
    requires ValidFont(f, gs)
    ensures IndexIn(IndexBytes(gs, DataStart(f, gs))) == if CodesAscend(gs) then Some(EntriesOf(f, gs)) else None
  {
    hide IndexBytes, ReadEntry, DataStart, Offset, ValidGlyph, FontBytes;
    WholeEntries(|gs|);
    var data, es := IndexBytes(gs, DataStart(f, gs)), EntriesOf(f, gs);
    var read := ReadEntries(data, 0, |gs|);
    forall i | 0 <= i < |gs| ensures read[i] == es[i] {
      EntryInBytes(f, gs, i);
    }
    assert read == es;
    assert Ascending(es) <==> CodesAscend(gs);
  }

  lemma EntryInBytes(f: FontInfo, gs: seq<Glyph>, i: nat)
    requires ValidFont(f, gs) && i < |gs|
    ensures ENTRY * i + ENTRY <= |IndexBytes(gs, DataStart(f, gs))|
    ensures ReadEntry(IndexBytes(gs, DataStart(f, gs)), ENTRY * i) == Entry(gs[i].charCode, Offset(gs, DataStart(f, gs), i))
  {
    hide IndexBytes, ReadEntry, DataStart, Offset, FontBytes, ReadGlyph;
    assert ValidGlyph(gs[i]);
    RecordAt(f, gs, i);
    var data := IndexBytes(gs, DataStart(f, gs));
    EntryInIndex([], gs, DataStart(f, gs), [], i);
    assert [] + data + [] == data;
  }

  lemma WholeEntries(n: nat)
    ensures ENTRY * n % ENTRY == 0 && ENTRY * n / ENTRY == n
  {
  }

  // Index and end: the whole load.
  lemma LoadsAs(f: FontInfo, gs: seq<Glyph>)
    requires ValidFont(f, gs)
    ensures LoadSections(FontBytes(f, gs), 12, NEW_FONT)
            == if CodesAscend(gs) then Some(Described(f).(index := Some(EntriesOf(f, gs)))) else None
  {
    hide FontBytes, DataBytes, Ascii, Be32, FourCc, Described, IndexBytes, EntriesOf, SectionsBytes, CodesAscend, LoadSections, IndexIn;
    hide Preamble, ValidGlyph, ReadShort, At;
    var ss := UpToIndex(f, gs);
    var rest := Ascii("DATA") + Be32(0xffff_ffff) + DataBytes(gs);
    FileIsSections(f, gs);
    Tags();
    SmallData(ss, rest);
    WalkPreamble(f, gs);
    IndexIsRead(f, gs);
    var font := Described(f);
    if CodesAscend(gs) {
      var full := font.(index := Some(EntriesOf(f, gs)));
      WalkSection(ss, rest, 10, font, full);
      AtEnd(ss);
      WalkEnds(SectionsBytes(ss), DataBytes(gs), full);
    } else {
      WalkFails(ss, rest, font);
    }
  }

  lemma AtEnd(ss: seq<FontSection>)
    ensures At(ss, |ss|) == |SectionsBytes(ss)|
  {
    assert ss[..|ss|] == ss;
  }

  // A section that cannot be handled fails the load.
  lemma WalkFails(ss: seq<FontSection>, rest: seq<byte>, font: Font)
    requires |ss| == 11 && |ss[10].name| == 4 && |ss[10].data| < TWO32
    requires FourCc(Ascii(ss[10].name)) != DATA && Handle(font, FourCc(Ascii(ss[10].name)), ss[10].data).None?
    ensures LoadSections(SectionsBytes(ss) + rest, At(ss, 10), font) == None
  {
    hide Ascii, Be32, Decode, Handle, FourCc, SectionsBytes, LoadSections;
    SectionsSplit(ss, 10);
    var pre, s, post := SectionsBytes(ss[..10]), ss[10], SectionsBytes(ss[11..]) + rest;
    var file := SectionsBytes(ss) + rest;
    assert file == pre + SectionBytes(s) + post;
    Be32Back(|s.data|);
    SectionParts(pre, Ascii(s.name), Be32(|s.data|), s.data, post);
    LoadStep(file, |pre|, font, s.data);
  }

  /* ---- when a font loads, and what it shows ---- */

  // A value that a signed 16-bit field keeps positive.
  predicate Positive16(v: int) { 0 < v % TWO16 < 0x8000 }

  // A written font loads if and only if it has a glyph, its codes strictly ascend, and its
  // maxima, ascent and descent survive being stored in 16 bits.
  lemma LoadsIff(f: FontInfo, gs: seq<Glyph>)
    requires ValidFont(f, gs)
    ensures Load(FontBytes(f, gs)).Some?
            <==> CodesAscend(gs) && gs != [] && Positive16(f.maxWidth) && Positive16(f.maxHeight)
                 && Ascent(f) % TWO16 != 0 && Descent(f) % TWO16 != 0
    ensures Load(FontBytes(f, gs)).Some? ==>
              Load(FontBytes(f, gs)) == Some(Described(f).(index := Some(EntriesOf(f, gs))))
  {
    hide FontBytes, LoadSections, EntriesOf, CodesAscend, ValidFont, Magic, Short, Positive16, Ascent, Descent, UpToIndex, At, SectionsBytes, Ascii, Be32;
    FileIsSections(f, gs);
    LoadsAs(f, gs);
    ShortFacts(f.maxWidth);
    ShortFacts(f.maxHeight);
    ShortFacts(Ascent(f));
    ShortFacts(Descent(f));
  }

  lemma ShortFacts(v: int)
    ensures Short(v) > 0 <==> Positive16(v)
    ensures Short(v) == 0 <==> v % TWO16 == 0
  {
  }

  // In a font that loads, every glyph that is no larger than the maxima comes back under its
  // code, all five fields and the bitmap; a larger one is not shown, and no other code finds
  // anything.
  lemma EveryGlyphIsFound(f: FontInfo, gs: seq<Glyph>, code: nat)
    requires ValidFont(f, gs) && Load(FontBytes(f, gs)).Some?
    ensures forall i :: 0 <= i < |gs| && gs[i].charCode == code ==>
              Get(FontBytes(f, gs), code)
              == if gs[i].width <= Short(f.maxWidth) && gs[i].height <= Short(f.maxHeight) then Some(gs[i]) else None
    ensures (forall i :: 0 <= i < |gs| ==> gs[i].charCode != code) ==> Get(FontBytes(f, gs), code) == None
  {
    hide FontBytes, ReadGlyph, ValidGlyph, Load, Offset, IndexOf, Short;
    LoadsIff(f, gs);
    var file := FontBytes(f, gs);
    var es := EntriesOf(f, gs);
    assert Ascending(es);
    forall i | 0 <= i < |gs| && gs[i].charCode == code
      ensures Lookup(file, Load(file).value, code)
              == if gs[i].width <= Short(f.maxWidth) && gs[i].height <= Short(f.maxHeight) then Some(gs[i]) else None
    {
      GlyphIsFound(f, gs, i);
    }
  }

  lemma GlyphIsFound(f: FontInfo, gs: seq<Glyph>, i: nat)
    requires ValidFont(f, gs) && CodesAscend(gs) && i < |gs|
    ensures Lookup(FontBytes(f, gs), Described(f).(index := Some(EntriesOf(f, gs))), gs[i].charCode)
            == if gs[i].width <= Short(f.maxWidth) && gs[i].height <= Short(f.maxHeight) then Some(gs[i]) else None
  {
    hide FontBytes, ReadGlyph, ValidGlyph, Offset, IndexOf, Short;
    var es := EntriesOf(f, gs);
    assert Ascending(es);
    EntryPointsAtRecord(f, gs, i);
    UniqueIndex(es, gs[i].charCode, i);
  }

  ghost predicate DistinctCodes(gs: seq<Glyph>) {
    forall i, j :: 0 <= i < j < |gs| ==> gs[i].charCode != gs[j].charCode
  }

  lemma SortedAscendsIffDistinct(gs: seq<Glyph>, sorted: seq<Glyph>, at: seq<nat>)
    requires Arrangement(gs, sorted, at) && StablyOrdered(gs, at)
    ensures CodesAscend(sorted) <==> DistinctCodes(gs)
  {
    OrderedMeansSorted(gs, sorted, at);
    if DistinctCodes(gs) {
      forall a, b | 0 <= a < b < |sorted| ensures sorted[a].charCode < sorted[b].charCode {
        InjectionFills(at, |gs|, a);
        InjectionFills(at, |gs|, b);
        var i :| 0 <= i < |gs| && at[i] == a;
        var j :| 0 <= j < |gs| && at[j] == b;
        assert i != j && gs[i].charCode != gs[j].charCode;
      }
    } else {
      var i, j :| 0 <= i < j < |gs| && gs[i].charCode == gs[j].charCode;
      assert at[i] < at[j] && sorted[at[i]].charCode == sorted[at[j]].charCode;
    }
  }

  // Main result, from the glyphs as they were added to the screen.  The font, measured,
  // sorted and written, loads exactly when it has a glyph, no two glyphs share a code, some
  // glyph is not empty, none reaches 0x8000 pixels, and ascent and descent are not zero in 16
  // bits; and then it shows every glyph under its code.
  lemma SortedFontShowsAll(f: FontInfo, gs: seq<Glyph>, sorted: seq<Glyph>, at: seq<nat>)
    requires Arrangement(gs, sorted, at) && StablyOrdered(gs, at) && Measures(f, gs) && ValidFont(f, sorted)
    ensures Load(FontBytes(f, sorted)).Some?
            <==> DistinctCodes(gs) && 0 < f.maxWidth < 0x8000 && 0 < f.maxHeight < 0x8000
                 && Ascent(f) % TWO16 != 0 && Descent(f) % TWO16 != 0
    ensures Load(FontBytes(f, sorted)).Some? ==>
              forall i :: 0 <= i < |gs| ==> Get(FontBytes(f, sorted), gs[i].charCode) == Some(gs[i])
  {
    hide FontBytes, Get, Load, StablyOrdered, Short, ValidFont, Measures, Positive16, CodesAscend, DistinctCodes, Ascent, Descent;
    SortedAscendsIffDistinct(gs, sorted, at);
    LoadsIff(f, sorted);
    MaximaAreSmall(f, gs, sorted, at);
    if Load(FontBytes(f, sorted)).Some? {
      forall i | 0 <= i < |gs| ensures Get(FontBytes(f, sorted), gs[i].charCode) == Some(gs[i]) {
        GlyphIsShown(f, gs, sorted, at, i);
      }
    }
  }

  lemma GlyphIsShown(f: FontInfo, gs: seq<Glyph>, sorted: seq<Glyph>, at: seq<nat>, i: nat)
    requires Arrangement(gs, sorted, at) && Measures(f, gs) && ValidFont(f, sorted) && i < |gs|
    requires f.maxWidth < 0x8000 && f.maxHeight < 0x8000 && Load(FontBytes(f, sorted)).Some?
    ensures Get(FontBytes(f, sorted), gs[i].charCode) == Some(gs[i])
  {
    hide FontBytes, Get, Load, Short, ValidFont;
    EveryGlyphIsFound(f, sorted, gs[i].charCode);
    ShortOfSmall(f.maxWidth);
    ShortOfSmall(f.maxHeight);
    assert sorted[at[i]] == gs[i];
  }

  lemma ShortOfSmall(v: nat)
    requires v < 0x8000
    ensures Short(v) == v
  {
  }

  lemma MaximaAreSmall(f: FontInfo, gs: seq<Glyph>, sorted: seq<Glyph>, at: seq<nat>)
    requires Arrangement(gs, sorted, at) && Measures(f, gs) && ValidFont(f, sorted)
    ensures Positive16(f.maxWidth) <==> 0 < f.maxWidth < 0x8000
    ensures Positive16(f.maxHeight) <==> 0 < f.maxHeight < 0x8000
    ensures f.maxWidth > 0 ==> sorted != []
  {
    hide FontBytes, Positive16;
    if f.maxWidth > 0 {
      var i :| 0 <= i < |gs| && gs[i].width == f.maxWidth;
      assert sorted[at[i]] == gs[i] && ValidGlyph(sorted[at[i]]);
    }
    if f.maxHeight > 0 {
      var i :| 0 <= i < |gs| && gs[i].height == f.maxHeight;
      assert sorted[at[i]] == gs[i] && ValidGlyph(sorted[at[i]]);
    }
    hide Measures, ValidFont;
    PositiveIfSmall(f.maxWidth);
    PositiveIfSmall(f.maxHeight);
  }

  lemma PositiveIfSmall(v: nat)
    ensures v < TWO16 ==> (Positive16(v) <==> 0 < v < 0x8000)
  {
  }

  // So a font of nothing but empty glyphs, such as blanks cropped to nothing, is refused.
  lemma EmptyGlyphsAreRefused(f: FontInfo, gs: seq<Glyph>, sorted: seq<Glyph>, at: seq<nat>)
    requires Arrangement(gs, sorted, at) && StablyOrdered(gs, at) && Measures(f, gs) && ValidFont(f, sorted)
    requires (forall i :: 0 <= i < |gs| ==> gs[i].width == 0) || (forall i :: 0 <= i < |gs| ==> gs[i].height == 0)
    ensures Load(FontBytes(f, sorted)) == None
  {
    hide FontBytes, Load, StablyOrdered;
    SortedFontShowsAll(f, gs, sorted, at);
  }
}
