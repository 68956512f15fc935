/** From rendered pictures to the screen: grub-mkfont crops, packs, sorts and writes, the
    booted GRUB loads and looks up. */
module FontPipeline {
  import opened Bytes
  import opened GlyphBitmap
  import opened GlyphSort
  import opened Options
  import opened Pf2Font
  import opened Pf2Load

  function ToByte(b: bv8): byte { b as int }
  function ToBits(b: byte): bv8 { b as bv8 }

  lemma BitsBack(b: bv8)
    ensures ToBits(ToByte(b)) == b
  {
  }

  // The glyph record made of a packed box, and the box a record stands for.
  function Labelled(code: nat, deviceWidth: int, b: Box): Glyph {
    Glyph(code, b.width, b.height, b.xOfs, b.yOfs, deviceWidth, seq(|b.bitmap|, i requires 0 <= i < |b.bitmap| => ToByte(b.bitmap[i])))
  }

  function BoxOf(g: Glyph): Box {
    Box(g.width, g.height, g.xOfs, g.yOfs, seq(|g.bitmap|, i requires 0 <= i < |g.bitmap| => ToBits(g.bitmap[i])))
  }

  lemma BoxBack(code: nat, deviceWidth: int, b: Box)
    ensures BoxOf(Labelled(code, deviceWidth, b)) == b
  {
    hide ToByte, ToBits;
    var bits := BoxOf(Labelled(code, deviceWidth, b)).bitmap;
    forall i | 0 <= i < |bits| ensures bits[i] == b.bitmap[i] { BitsBack(b.bitmap[i]); }
    assert bits == b.bitmap;
  }

  // A rendered picture with its code and advance, and what add_glyph made of it.
  datatype Drawn = Drawn(code: nat, deviceWidth: int, picture: Picture, box: Box)

  ghost predicate Packed(d: Drawn) {
    ValidPicture(d.picture) && exists c :: IsBoxOf(d.picture, c, d.box)
  }

  function GlyphsOf(ds: seq<Drawn>): (gs: seq<Glyph>)
    ensures |gs| == |ds| && forall i :: 0 <= i < |ds| ==> gs[i] == Labelled(ds[i].code, ds[i].deviceWidth, ds[i].box)
  {
    seq(|ds|, i requires 0 <= i < |ds| => Labelled(ds[i].code, ds[i].deviceWidth, ds[i].box))
  }

  // A pixel of the glyph that came back, and of the picture it was made from.
  ghost predicate OnScreen(g: Option<Glyph>, x: int, y: int) {
    g.Some? && |g.value.bitmap| * 8 >= g.value.width * g.value.height && Shows(BoxOf(g.value), x, y)
  }

  ghost predicate InPicture(d: Drawn, x: int, y: int) {
    ValidPicture(d.picture) && Source(d.picture, x, y)
  }

  // Every picture goes through the font file unchanged: whatever is drawn, if the font loads,
  // asking it for a picture's code gives a glyph whose pixels are the picture's, at every
  // point of the plane.
  lemma PicturesReachTheScreen(f: FontInfo, ds: seq<Drawn>, sorted: seq<Glyph>, at: seq<nat>, i: nat, x: int, y: int)
    requires (forall k :: 0 <= k < |ds| ==> Packed(ds[k])) && i < |ds|
    requires Arrangement(GlyphsOf(ds), sorted, at) && StablyOrdered(GlyphsOf(ds), at)
    requires Measures(f, GlyphsOf(ds)) && ValidFont(f, sorted) && Load(FontBytes(f, sorted)).Some?
    ensures Get(FontBytes(f, sorted), ds[i].code).Some?
    ensures OnScreen(Get(FontBytes(f, sorted), ds[i].code), x, y) <==> InPicture(ds[i], x, y)
  {
    hide FontBytes, Get, Load, StablyOrdered, Measures, ValidFont, Labelled, OnScreen, InPicture, Arrangement, Packed;
    SortedFontShowsAll(f, GlyphsOf(ds), sorted, at);
    LabelKeepsCode(ds[i]);
    assert Packed(ds[i]);
    BoxShowsPicture(ds[i], x, y);
  }

  lemma LabelKeepsCode(d: Drawn)
    ensures Labelled(d.code, d.deviceWidth, d.box).charCode == d.code
  {
  }

  lemma BoxShowsPicture(d: Drawn, x: int, y: int)
    requires Packed(d)
    ensures OnScreen(Some(Labelled(d.code, d.deviceWidth, d.box)), x, y) <==> InPicture(d, x, y)
  {
    hide Shows, Source, IsBoxOf, BoxOf;
    var c :| IsBoxOf(d.picture, c, d.box);
    PackedGlyphShowsPicture(d.picture, c, d.box, x, y);
    BoxBack(d.code, d.deviceWidth, d.box);
  }

  // When every picture is blank and cropping is on, all boxes are empty and the font is
  // refused.
  lemma BlankFontIsRefused(f: FontInfo, ds: seq<Drawn>, sorted: seq<Glyph>, at: seq<nat>)
    requires forall k :: 0 <= k < |ds| ==> ValidPicture(ds[k].picture) && Blank(ds[k].picture) && IsCropped(ds[k])
    requires Arrangement(GlyphsOf(ds), sorted, at) && StablyOrdered(GlyphsOf(ds), at)
    requires Measures(f, GlyphsOf(ds)) && ValidFont(f, sorted)
    ensures Load(FontBytes(f, sorted)) == None
  {
    hide FontBytes, Load, StablyOrdered, Measures, ValidFont, Arrangement, Blank, IsCropped;
    forall k | 0 <= k < |ds| ensures GlyphsOf(ds)[k].height == 0 { BlankIsEmpty(ds[k]); }
    EmptyGlyphsAreRefused(f, GlyphsOf(ds), sorted, at);
  }

  ghost predicate IsCropped(d: Drawn)
    requires ValidPicture(d.picture)
  {
    exists c :: Tight(d.picture, c) && IsBoxOf(d.picture, c, d.box)
  }

  lemma BlankIsEmpty(d: Drawn)
    requires ValidPicture(d.picture) && Blank(d.picture) && IsCropped(d)
    ensures d.box.height == 0
  {
    var c :| Tight(d.picture, c) && IsBoxOf(d.picture, c, d.box);
  }
}
