/** Cropping and packing a rendered glyph: `add_pixel`, the second half of `add_glyph`
    and the bit reader of `print_glyphs` in grub/util/grub-mkfont.c. */
module GlyphBitmap {

  /* ---- bits ---- */

  // 1 << (7 - j)
  function Weight(j: nat): bv8
    requires j < 8
  {
    if j == 0 then 0x80 else if j == 1 then 0x40 else if j == 2 then 0x20 else if j == 3 then 0x10
    else if j == 4 then 0x08 else if j == 5 then 0x04 else if j == 6 then 0x02 else 0x01
  }

  predicate BitSet(b: bv8, j: nat)
    requires j < 8
  {
    b & Weight(j) != 0
  }

  // Bits from `j` on are clear.
  predicate ClearFrom(b: bv8, j: nat)
    requires j < 8
  {
    b & (Weight(j) | (Weight(j) - 1)) == 0
  }

  lemma SetNext(b: bv8, j: nat, i: nat)
    requires j < 8 && ClearFrom(b, j) && i < 8
    ensures BitSet(b | Weight(j), i) <==> i == j || BitSet(b, i)
    ensures !BitSet(b, j)
    ensures j < 7 ==> ClearFrom(b | Weight(j), j + 1) && ClearFrom(b, j + 1)
  {
  }

  lemma NextMask(j: nat)
    requires j < 8
    ensures Weight(j) >> 1 == if j == 7 then 0 else Weight(j + 1)
    ensures Weight(j) != 0
  {
  }

  /* ---- the source picture ---- */

  // FT_Bitmap in monochrome mode, with the position of its upper left corner.
  datatype Picture = Picture(width: nat, rows: nat, pitch: nat, buffer: seq<bv8>, left: int, top: int)

  ghost predicate ValidPicture(p: Picture) {
    && p.width <= 8 * p.pitch
    && |p.buffer| == p.rows * p.pitch
  }

  lemma InBuffer(p: Picture, i: nat, j: nat)
    requires ValidPicture(p) && i < p.width && j < p.rows
    ensures i / 8 + j * p.pitch < |p.buffer|
  {
    assert i / 8 < p.pitch;
    assert (j + 1) * p.pitch <= p.rows * p.pitch;
    assert (j + 1) * p.pitch == j * p.pitch + p.pitch;
  }

  // Pixel in column `i` of row `j`.
  predicate Pixel(p: Picture, i: nat, j: nat)
    requires ValidPicture(p) && i < p.width && j < p.rows
  {
    InBuffer(p, i, j);
    BitSet(p.buffer[i / 8 + j * p.pitch], i % 8)
  }

  ghost predicate BlankRow(p: Picture, j: nat)
    requires ValidPicture(p) && j < p.rows
  {
    forall i :: 0 <= i < p.width ==> !Pixel(p, i, j)
  }

  ghost predicate BlankColumn(p: Picture, i: nat)
    requires ValidPicture(p) && i < p.width
  {
    forall j :: 0 <= j < p.rows ==> !Pixel(p, i, j)
  }

  ghost predicate Blank(p: Picture)
    requires ValidPicture(p)
  {
    forall j :: 0 <= j < p.rows ==> BlankRow(p, j)
  }

  /* ---- cropping ---- */

  datatype Cut = Cut(top: nat, bottom: nat, left: nat, right: nat)

  function Width(p: Picture, c: Cut): int {
    p.width - c.left - c.right
  }

  function Height(p: Picture, c: Cut): int {
    p.rows - c.bottom - c.top
  }

  // Only blank rows and columns are cut, and no more could be: either the picture is
  // blank and the box empty, or each edge of the box touches a pixel.
  ghost predicate Tight(p: Picture, c: Cut)
    requires ValidPicture(p)
  {
    && c.top + c.bottom <= p.rows && c.left + c.right <= p.width
    && (forall j :: 0 <= j < p.rows && !(c.top <= j < p.rows - c.bottom) ==> BlankRow(p, j))
    && (forall i :: 0 <= i < p.width && !(c.left <= i < p.width - c.right) ==> BlankColumn(p, i))
    && (if Blank(p) then Width(p, c) == 0 && Height(p, c) == 0
        else
          && Width(p, c) > 0 && Height(p, c) > 0
          && !BlankRow(p, c.top) && !BlankRow(p, p.rows - 1 - c.bottom)
          && !BlankColumn(p, c.left) && !BlankColumn(p, p.width - 1 - c.right))
  }

  method RowIsBlank(p: Picture, j: nat) returns (blank: bool)
    requires ValidPicture(p) && j < p.rows
    ensures blank == BlankRow(p, j)
  {
    hide Pixel;
    var i := 0;
    while i < p.width && !Pixel(p, i, j)
      invariant 0 <= i <= p.width
      invariant forall k :: 0 <= k < i ==> !Pixel(p, k, j)
    {
      i := i + 1;
    }
    blank := i == p.width;
  }

  method ColumnIsBlank(p: Picture, i: nat) returns (blank: bool)
    requires ValidPicture(p) && i < p.width
    ensures blank == BlankColumn(p, i)
  {
    hide Pixel;
    var j := 0;
    while j < p.rows && !Pixel(p, i, j)
      invariant 0 <= j <= p.rows
      invariant forall k :: 0 <= k < j ==> !Pixel(p, i, k)
    {
      j := j + 1;
    }
    blank := j == p.rows;
  }

  method CutRows(p: Picture) returns (top: nat, bottom: nat)
    requires ValidPicture(p)
    ensures top + bottom <= p.rows
    ensures forall j :: 0 <= j < p.rows && !(top <= j < p.rows - bottom) ==> BlankRow(p, j)
    ensures if Blank(p) then top == p.rows && bottom == 0
            else top + bottom < p.rows && !BlankRow(p, top) && !BlankRow(p, p.rows - 1 - bottom)
  {
    hide BlankRow;
    top := 0;
    var blank := true;
    while top < p.rows && blank
      invariant top <= p.rows && (!blank ==> top < p.rows && !BlankRow(p, top))
      invariant forall j :: 0 <= j < top ==> BlankRow(p, j)
      decreases p.rows - top, blank
    {
      blank := RowIsBlank(p, top);
      if blank {
        top := top + 1;
      }
    }
    var last := p.rows - 1;
    blank := true;
    while last >= 0 && blank
      invariant -1 <= last < p.rows && (!blank ==> 0 <= last && !BlankRow(p, last))
      invariant forall j :: last < j < p.rows ==> BlankRow(p, j)
      decreases last + 1, blank
    {
      blank := RowIsBlank(p, last);
      if blank {
        last := last - 1;
      }
    }
    bottom := p.rows - 1 - last;
    if bottom + top >= p.rows {
      bottom := 0;
    }
  }

  method CutColumns(p: Picture) returns (left: nat, right: nat)
    requires ValidPicture(p)
    ensures left + right <= p.width
    ensures forall i :: 0 <= i < p.width && !(left <= i < p.width - right) ==> BlankColumn(p, i)
    ensures if forall i :: 0 <= i < p.width ==> BlankColumn(p, i) then left == p.width && right == 0
            else left + right < p.width && !BlankColumn(p, left) && !BlankColumn(p, p.width - 1 - right)
  {
    hide BlankColumn;
    left := 0;
    var blank := true;
    while left < p.width && blank
      invariant left <= p.width && (!blank ==> left < p.width && !BlankColumn(p, left))
      invariant forall i :: 0 <= i < left ==> BlankColumn(p, i)
      decreases p.width - left, blank
    {
      blank := ColumnIsBlank(p, left);
      if blank {
        left := left + 1;
      }
    }
    var last := p.width - 1;
    blank := true;
    while last >= 0 && blank
      invariant -1 <= last < p.width && (!blank ==> 0 <= last && !BlankColumn(p, last))
      invariant forall i :: last < i < p.width ==> BlankColumn(p, i)
      decreases last + 1, blank
    {
      blank := ColumnIsBlank(p, last);
      if blank {
        last := last - 1;
      }
    }
    right := p.width - 1 - last;
    if right + left >= p.width {
      right := 0;
    }
  }

  lemma BlankEitherWay(p: Picture)
    requires ValidPicture(p)
    ensures Blank(p) <==> forall i :: 0 <= i < p.width ==> BlankColumn(p, i)
  {
    hide Pixel;
    if forall i :: 0 <= i < p.width ==> BlankColumn(p, i) {
      forall j | 0 <= j < p.rows ensures BlankRow(p, j) {
        forall i | 0 <= i < p.width ensures !Pixel(p, i, j) {
          assert BlankColumn(p, i);
        }
      }
    }
    if Blank(p) {
      forall i | 0 <= i < p.width ensures BlankColumn(p, i) {
        forall j | 0 <= j < p.rows ensures !Pixel(p, i, j) {
          assert BlankRow(p, j);
        }
      }
    }
  }

  // The crop part of add_glyph.
  method Crop(p: Picture) returns (c: Cut)
    requires ValidPicture(p)
    ensures Tight(p, c)
  {
    hide Pixel, BlankRow, BlankColumn;
    var top, bottom := CutRows(p);
    var left, right := CutColumns(p);
    BlankEitherWay(p);
    c := Cut(top, bottom, left, right);
  }

  // A cut that stays inside the picture; with `nocut` it is all zeros.
  ghost predicate Inside(p: Picture, c: Cut) {
    c.top + c.bottom <= p.rows && c.left + c.right <= p.width
  }

  /* ---- packing ---- */

  // Bit `k` of a packed bitmap, most significant bit of each byte first.
  predicate Bit(bitmap: seq<bv8>, k: nat)
    requires k / 8 < |bitmap|
  {
    BitSet(bitmap[k / 8], k % 8)
  }

  function ByteCount(n: nat): nat {
    (n + 7) / 8
  }

  // The packed form of `bits`: the bits in order, the last byte filled up with zeros.
  ghost predicate Packs(bitmap: seq<bv8>, bits: seq<bool>) {
    && |bitmap| == ByteCount(|bits|)
    && (forall k :: 0 <= k < |bits| ==> Bit(bitmap, k) == bits[k])
    && (|bits| % 8 != 0 ==> ClearFrom(bitmap[|bitmap| - 1], |bits| % 8))
  }

  // The mask of the next pixel after `n`, zero if its byte is not open yet.
  function MaskFor(n: nat): bv8 {
    if n % 8 == 0 then 0 else Weight(n % 8)
  }

  // The state of add_pixel: the byte being filled and the mask of the next pixel in
  // it, zero when a new byte has to be started.
  class Packer {
    var bitmap: array<bv8>
    var data: int
    var mask: bv8
    ghost var bits: seq<bool>

    ghost predicate Valid()
      reads this, bitmap
    {
      && 0 <= data + 1 <= bitmap.Length
      && data + 1 == ByteCount(|bits|)
      && mask == MaskFor(|bits|)
      && Packs(bitmap[..data + 1], bits)
    }

    constructor (size: nat)
      ensures Valid() && bits == [] && bitmap.Length == size && fresh(bitmap)
    {
      bitmap := new bv8[size](i => 0);
      data, mask, bits := -1, 0, [];
    }

    // A byte is open for the next pixel, and `mask` points at it.
    ghost predicate Ready()
      reads this, bitmap
    {
      && data == |bits| / 8 && data < bitmap.Length
      && mask == Weight(|bits| % 8)
      && Room(bitmap[..data + 1], bits)
    }

    // Starts a new byte when the mask has run out.
    method NextByte()
      requires Valid() && |bits| < 8 * bitmap.Length
      modifies this`data, this`mask, bitmap
      ensures Ready()
    {
      hide Packs, Weight, Room, MaskFor, ByteCount;
      ghost var before := bitmap[..data + 1];
      if mask == 0 {
        MaskIsZero(|bits|, mask);
        FirstWeight();
        StartByte(before, bits);
        data := data + 1;
        bitmap[data] := 0;
        mask := 128;
        assert bitmap[..data + 1] == before + [0];
      } else {
        MaskIsSet(|bits|, mask);
        OpenByte(before, bits);
      }
    }

    method AddPixel(notBlank: bool)
      requires Valid() && |bits| < 8 * bitmap.Length
      modifies this, bitmap
      ensures Valid() && bits == old(bits) + [notBlank] && bitmap == old(bitmap)
    {
      hide Packs, Weight, Room, MaskFor, ByteCount;
      NextByte();
      Fill(notBlank);
      MaskAfter(|bits|);
      mask := mask >> 1;
      bits := bits + [notBlank];
    }

    method SetMask()
      requires 0 <= data < bitmap.Length
      modifies bitmap
      ensures bitmap[..data + 1] == WithMask(old(bitmap[..data + 1]), data, mask)
    {
      bitmap[data] := bitmap[data] | mask;
    }

    // Puts the pixel into the open byte.
    method Fill(notBlank: bool)
      requires Ready()
      modifies bitmap
      ensures Packs(bitmap[..data + 1], bits + [notBlank])
    {
      hide Packs, Weight, Room, WithMask;
      ghost var current := bitmap[..data + 1];
      FillBit(current, bits, notBlank);
      if notBlank {
        SetMask();
      }
    }
  }

  // One byte is open and has room for the next bit.
  ghost predicate Room(bitmap: seq<bv8>, bits: seq<bool>) {
    && |bitmap| == |bits| / 8 + 1
    && (forall k :: 0 <= k < |bits| ==> Bit(bitmap, k) == bits[k])
    && ClearFrom(bitmap[|bitmap| - 1], |bits| % 8)
  }

  lemma MaskAfter(n: nat)
    ensures MaskFor(n + 1) == Weight(n % 8) >> 1
    ensures ByteCount(n + 1) == n / 8 + 1
  {
    hide Weight;
    NextIndex(n);
    NextMask(n % 8);
  }

  lemma FirstWeight()
    ensures Weight(0) == 128
  {
  }

  lemma MaskIsZero(n: nat, mask: bv8)
    requires mask == 0 && mask == MaskFor(n)
    ensures n % 8 == 0 && ByteCount(n) == n / 8
  {
  }

  lemma MaskIsSet(n: nat, mask: bv8)
    requires mask != 0 && mask == MaskFor(n)
    ensures n % 8 != 0 && ByteCount(n) == n / 8 + 1 && mask == Weight(n % 8)
  {
  }

  lemma StartByte(bitmap: seq<bv8>, bits: seq<bool>)
    requires Packs(bitmap, bits) && |bits| % 8 == 0
    ensures Room(bitmap + [0], bits)
  {
    hide BitSet;
  }

  lemma OpenByte(bitmap: seq<bv8>, bits: seq<bool>)
    requires Packs(bitmap, bits) && |bits| % 8 != 0
    ensures Room(bitmap, bits)
  {
  }

  lemma NextIndex(n: nat)
    ensures (n + 1 + 7) / 8 == n / 8 + 1
    ensures (n + 1) % 8 == if n % 8 == 7 then 0 else n % 8 + 1
  {
  }

  function WithMask(bitmap: seq<bv8>, k: nat, mask: bv8): seq<bv8>
    requires k < |bitmap|
  {
    bitmap[k := bitmap[k] | mask]
  }

  lemma FillBit(bitmap: seq<bv8>, bits: seq<bool>, on: bool)
    requires Room(bitmap, bits)
    ensures |bitmap| == |bits| / 8 + 1
    ensures var last := |bitmap| - 1;
            Packs(if on then WithMask(bitmap, last, Weight(|bits| % 8)) else bitmap, bits + [on])
  {
    hide Weight, BitSet, ClearFrom, Bit;
    var n := |bits|;
    var bitmap' := if on then bitmap[n / 8 := bitmap[n / 8] | Weight(n % 8)] else bitmap;
    NextIndex(n);
    FillKeepsClear(bitmap[n / 8], n, on);
    forall k | 0 <= k < n + 1 ensures Bit(bitmap', k) == (bits + [on])[k] {
      FillBitAt(bitmap, n, on, k);
    }
  }

  lemma FillKeepsClear(b: bv8, n: nat, on: bool)
    requires ClearFrom(b, n % 8)
    ensures (n + 1) % 8 != 0 ==> ClearFrom(if on then b | Weight(n % 8) else b, (n + 1) % 8)
  {
    hide Weight, ClearFrom, BitSet;
    NextIndex(n);
    SetNext(b, n % 8, n % 8);
  }

  lemma FillBitAt(bitmap: seq<bv8>, n: nat, on: bool, k: nat)
    requires |bitmap| == n / 8 + 1 && k <= n && ClearFrom(bitmap[n / 8], n % 8)
    ensures var bitmap' := if on then bitmap[n / 8 := bitmap[n / 8] | Weight(n % 8)] else bitmap;
            Bit(bitmap', k) == if k == n then on else Bit(bitmap, k)
  {
    hide Weight, BitSet, ClearFrom;
    SetNext(bitmap[n / 8], n % 8, k % 8);
    SamePlace(k, n);
  }

  lemma SamePlace(k: nat, n: nat)
    requires k <= n
    ensures k / 8 <= n / 8 && (k / 8 == n / 8 && k % 8 == n % 8 <==> k == n)
  {
  }

  /* ---- the packed glyph ---- */

  // The part of struct grub_glyph_info that describes the picture: its place and the packed
  // bits, before a code and an advance are put to it.
  datatype Box = Box(width: nat, height: nat, xOfs: int, yOfs: int, bitmap: seq<bv8>)

  // The first `n` pixels of row `y` of the cropped box.
  ghost function RowBits(p: Picture, c: Cut, y: nat, n: nat): (bits: seq<bool>)
    requires ValidPicture(p) && Inside(p, c) && y < Height(p, c) && n <= Width(p, c)
    ensures |bits| == n
    ensures forall x :: 0 <= x < n ==> bits[x] == Pixel(p, c.left + x, c.top + y)
  {
    if n == 0 then [] else RowBits(p, c, y, n - 1) + [Pixel(p, c.left + n - 1, c.top + y)]
  }

  // The first `n` rows of the box, one after the other.
  ghost function BoxBits(p: Picture, c: Cut, n: nat): (bits: seq<bool>)
    requires ValidPicture(p) && Inside(p, c) && n <= Height(p, c)
    ensures |bits| == n * Width(p, c)
  {
    if n == 0 then [] else BoxBits(p, c, n - 1) + RowBits(p, c, n - 1, Width(p, c))
  }

  // The number of a pixel in a box of width w, row by row.
  function PlaceIn(w: nat, x: nat, y: nat): nat { y * w + x }

  ghost predicate BoxBitIs(p: Picture, c: Cut, n: nat, x: nat, y: nat)
    requires ValidPicture(p) && Inside(p, c) && n <= Height(p, c) && x < Width(p, c) && y < n
  {
    var k := PlaceIn(Width(p, c), x, y);
    k < |BoxBits(p, c, n)| && BoxBits(p, c, n)[k] == Pixel(p, c.left + x, c.top + y)
  }

  lemma {:induction false} BoxBitAt(p: Picture, c: Cut, n: nat, x: nat, y: nat)
    requires ValidPicture(p) && Inside(p, c) && n <= Height(p, c)
    requires x < Width(p, c) && y < n
    ensures BoxBitIs(p, c, n, x, y)
    decreases n
  {
    hide Pixel;
    InBox(Width(p, c), n, x, y);
    if y < n - 1 {
      BoxBitAt(p, c, n - 1, x, y);
    }
  }

  // What the cropped and packed glyph says about the point (x, y), x to the right and
  // y upwards from the origin.
  predicate Shows(g: Box, x: int, y: int)
    requires |g.bitmap| * 8 >= g.width * g.height
  {
    && g.xOfs <= x < g.xOfs + g.width
    && g.yOfs <= y < g.yOfs + g.height
    && (InBox(g.width, g.height, x - g.xOfs, g.yOfs + g.height - 1 - y);
        Bit(g.bitmap, PlaceIn(g.width, x - g.xOfs, g.yOfs + g.height - 1 - y)))
  }

  lemma InBox(w: nat, h: nat, x: nat, y: nat)
    requires x < w && y < h
    ensures PlaceIn(w, x, y) < w * h
  {
    RowFits(w, h, y);
  }

  // What the source picture says about it.
  ghost predicate Source(p: Picture, x: int, y: int)
    requires ValidPicture(p)
  {
    && p.left <= x < p.left + p.width
    && p.top - p.rows <= y < p.top
    && Pixel(p, x - p.left, p.top - 1 - y)
  }

  // What add_glyph makes of a picture with a cut.
  ghost predicate IsBoxOf(p: Picture, c: Cut, g: Box)
    requires ValidPicture(p)
  {
    && Inside(p, c) && (Tight(p, c) || c == Cut(0, 0, 0, 0))
    && g.width == Width(p, c) && g.height == Height(p, c)
    && g.xOfs == p.left + c.left && g.yOfs == p.top - g.height - c.top
    && Packs(g.bitmap, BoxBits(p, c, g.height))
  }

  // The second half of add_glyph: crop unless told not to, and pack row by row.
  method AddGlyph(p: Picture, nocut: bool) returns (g: Box, ghost c: Cut)
    requires ValidPicture(p)
    ensures IsBoxOf(p, c, g) && (if nocut then c == Cut(0, 0, 0, 0) else Tight(p, c))
    ensures |g.bitmap| == ByteCount(g.width * g.height)
  {
    hide Pixel, Packs, Tight;
    var cut := Cut(0, 0, 0, 0);
    if !nocut {
      cut := Crop(p);
      TightIsInside(p, cut);
    }
    c := cut;
    var width, height := p.width - cut.left - cut.right, p.rows - cut.bottom - cut.top;
    var bitmap := PackBox(p, cut, width, height);
    g := Box(width, height, p.left + cut.left, p.top - height - cut.top, bitmap);
  }

  lemma TightIsInside(p: Picture, c: Cut)
    requires ValidPicture(p) && Tight(p, c)
    ensures Inside(p, c)
  {
  }

  // The two nested loops that pack the box.
  method PackBox(p: Picture, c: Cut, width: nat, height: nat) returns (bitmap: seq<bv8>)
    requires ValidPicture(p) && Inside(p, c) && width == Width(p, c) && height == Height(p, c)
    ensures |bitmap| == ByteCount(width * height)
    ensures Packs(bitmap, BoxBits(p, c, height))
  {
    hide Packs, MaskFor, ByteCount, BoxBits;
    BoxSize(p, c);
    var size := ByteCount(width * height);
    var packer := new Packer(size);
    for j := 0 to height
      invariant packer.Valid() && fresh(packer) && fresh(packer.bitmap) && packer.bitmap.Length == size
      invariant packer.bits == BoxBits(p, c, j)
    {
      PackRow(packer, p, c, width, height, j);
    }
    FullBitmap(packer, width * height);
    bitmap := packer.bitmap[..];
  }

  lemma BoxSize(p: Picture, c: Cut)
    requires ValidPicture(p) && Inside(p, c)
    ensures BoxBits(p, c, 0) == [] && |BoxBits(p, c, Height(p, c))| == Width(p, c) * Height(p, c)
  {
  }

  // One line of the box.
  method PackRow(packer: Packer, p: Picture, c: Cut, width: nat, height: nat, j: nat)
    requires ValidPicture(p) && Inside(p, c) && width == Width(p, c) && height == Height(p, c) && j < height
    requires packer.Valid() && packer.bitmap.Length == ByteCount(width * height) && packer.bits == BoxBits(p, c, j)
    modifies packer, packer.bitmap
    ensures packer.Valid() && packer.bitmap == old(packer.bitmap) && packer.bits == BoxBits(p, c, j + 1)
  {
    hide Pixel, Packs, MaskFor, ByteCount, PlaceIn;
    for i := 0 to width
      invariant packer.Valid() && packer.bitmap == old(packer.bitmap)
      invariant packer.bits == BoxBits(p, c, j) + RowBits(p, c, j, i)
    {
      PixelFits(width, height, i, j, packer.bitmap.Length);
      BitsSoFar(p, c, i, j);
      packer.AddPixel(Pixel(p, c.left + i, c.top + j));
    }
  }

  lemma BitsSoFar(p: Picture, c: Cut, i: nat, j: nat)
    requires ValidPicture(p) && Inside(p, c) && j < Height(p, c) && i <= Width(p, c)
    ensures |BoxBits(p, c, j) + RowBits(p, c, j, i)| == PlaceIn(Width(p, c), i, j)
  {
    hide Pixel;
  }

  lemma FullBitmap(packer: Packer, n: nat)
    requires packer.Valid() && |packer.bits| == n && packer.bitmap.Length == ByteCount(n)
    ensures Packs(packer.bitmap[..], packer.bits)
  {
    assert packer.bitmap[..packer.data + 1] == packer.bitmap[..];
  }

  lemma PixelFits(w: nat, h: nat, x: nat, y: nat, size: nat)
    requires x < w && y < h && size == ByteCount(w * h)
    ensures PlaceIn(w, x, y) < 8 * size
  {
    InBox(w, h, x, y);
    PackSize(w * h);
  }

  lemma PackSize(n: nat)
    ensures 8 * ByteCount(n) >= n
  {
  }

  lemma RowFits(w: nat, h: nat, j: nat)
    requires j < h
    ensures j * w + w == (j + 1) * w <= w * h
  {
    Distribute(h - (j + 1), j + 1, w);
    Distribute(j, 1, w);
  }

  lemma Distribute(a: nat, b: nat, w: nat)
    ensures (a + b) * w == a * w + b * w && a * w >= 0
  {
  }

  // Main result.  Reading the packed glyph back, with its offsets, gives exactly the
  // pixels of the source picture, at every point of the plane.
  lemma PackedGlyphShowsPicture(p: Picture, c: Cut, g: Box, x: int, y: int)
    requires ValidPicture(p) && IsBoxOf(p, c, g)
    ensures |g.bitmap| * 8 >= g.width * g.height
    ensures Shows(g, x, y) <==> Source(p, x, y)
  {
    hide Pixel, Bit, Tight, Source, Shows;
    PackSize(g.width * g.height);
    var i, j := x - p.left, p.top - 1 - y;
    if c.left <= i < p.width - c.right && c.top <= j < p.rows - c.bottom {
      InsideShows(p, c, g, x, y);
    } else {
      OutsideShowsNothing(g, x, y);
      OutsideIsBlank(p, c, x, y);
    }
  }

  lemma OutsideShowsNothing(g: Box, x: int, y: int)
    requires |g.bitmap| * 8 >= g.width * g.height
    requires !(g.xOfs <= x < g.xOfs + g.width && g.yOfs <= y < g.yOfs + g.height)
    ensures !Shows(g, x, y)
  {
  }

  lemma InsideShows(p: Picture, c: Cut, g: Box, x: int, y: int)
    requires ValidPicture(p) && Inside(p, c)
    requires g.width == Width(p, c) && g.height == Height(p, c)
    requires g.xOfs == p.left + c.left && g.yOfs == p.top - g.height - c.top
    requires Packs(g.bitmap, BoxBits(p, c, g.height)) && |g.bitmap| * 8 >= g.width * g.height
    requires c.left <= x - p.left < p.width - c.right && c.top <= p.top - 1 - y < p.rows - c.bottom
    ensures Shows(g, x, y) <==> Source(p, x, y)
  {
    hide Pixel, Bit, BoxBits, PlaceIn;
    var i, j := x - p.left - c.left, p.top - 1 - y - c.top;
    BoxBitAt(p, c, g.height, i, j);
    assert g.yOfs + g.height - 1 - y == j && x - g.xOfs == i;
    PackedBit(g.bitmap, BoxBits(p, c, g.height), PlaceIn(g.width, i, j));
  }

  lemma PackedBit(bitmap: seq<bv8>, bits: seq<bool>, k: nat)
    requires Packs(bitmap, bits) && k < |bits|
    ensures k / 8 < |bitmap| && Bit(bitmap, k) == bits[k]
  {
    hide BitSet, ClearFrom;
  }

  lemma OutsideIsBlank(p: Picture, c: Cut, x: int, y: int)
    requires ValidPicture(p) && (Tight(p, c) || c == Cut(0, 0, 0, 0))
    requires var i, j := x - p.left, p.top - 1 - y;
             !(c.left <= i < p.width - c.right && c.top <= j < p.rows - c.bottom)
    ensures !Source(p, x, y)
  {
    hide Pixel;
    var i, j := x - p.left, p.top - 1 - y;
    if 0 <= i < p.width && 0 <= j < p.rows {
      if !(c.top <= j < p.rows - c.bottom) {
        assert BlankRow(p, j);
      } else {
        assert BlankColumn(p, i);
      }
    }
  }

  /* ---- printing ---- */

  // One character of print_glyphs' picture.
  function Symbol(g: Box, deviceWidth: int, asce: int, desc: int, x: int, y: int): char
    requires |g.bitmap| * 8 >= g.width * g.height
  {
    if g.xOfs <= x < g.xOfs + g.width && g.yOfs <= y < g.yOfs + g.height then
      if Shows(g, x, y) then '#' else '_'
    else if 0 <= x < deviceWidth && -desc <= y < asce then
      if x == 0 || y == 0 then '+' else '.'
    else '*'
  }

  function Min(a: int, b: int): int { if a < b then a else b }
  function Max(a: int, b: int): int { if a > b then a else b }

  // How many glyph pixels come before column `x` of its row.
  function Before(g: Box, x: int): nat {
    Max(0, Min(x - g.xOfs, g.width))
  }

  // How many glyph rows lie above `y`.
  function Above(g: Box, y: int): nat {
    Max(0, Min(g.yOfs + g.height - 1 - y, g.height))
  }

  // print_glyphs for one glyph: from the top line down, left to right, taking the next
  // bit of the bitmap at every point of the box.
  method PrintGlyph(g: Box, deviceWidth: int, asce: int, desc: int) returns (lines: seq<string>)
    requires |g.bitmap| * 8 >= g.width * g.height
    ensures |lines| == Max(0, Max(g.yOfs + g.height, asce) - Min(g.yOfs, -desc))
    ensures forall r :: 0 <= r < |lines| ==>
              |lines[r]| == Max(0, Max(g.xOfs + g.width, deviceWidth) - Min(g.xOfs, 0))
    ensures forall r, k :: 0 <= r < |lines| && 0 <= k < |lines[r]| ==>
              lines[r][k] == Symbol(g, deviceWidth, asce, desc, Min(g.xOfs, 0) + k, Max(g.yOfs + g.height, asce) - 1 - r)
  {
    hide Symbol, Shows;
    var right := Max(g.xOfs + g.width, deviceWidth);
    var left := Min(g.xOfs, 0);
    var up := Max(g.yOfs + g.height, asce);
    var down := Min(g.yOfs, -desc);
    lines := [];
    var pos, mask := 0, 0x80;
    var y := up - 1;
    while y > down - 1
      invariant down - 1 <= y <= up - 1 || (y == up - 1 && up <= down)
      invariant |lines| == up - 1 - y && ReaderAt(pos, mask, Above(g, y) * g.width)
      invariant forall r :: 0 <= r < |lines| ==> |lines[r]| == Max(0, right - left)
      invariant forall r, k :: 0 <= r < |lines| && 0 <= k < |lines[r]| ==>
                  lines[r][k] == Symbol(g, deviceWidth, asce, desc, left + k, up - 1 - r)
    {
      var line;
      line, pos, mask := PrintLine(g, deviceWidth, asce, desc, left, right, y, pos, mask);
      lines := lines + [line];
      y := y - 1;
    }
  }

  // The reader has consumed `n` bits.
  ghost predicate ReaderAt(pos: nat, mask: bv8, n: nat) {
    pos == n / 8 && mask == Weight(n % 8)
  }

  lemma ReaderStep(pos: nat, mask: bv8, n: nat)
    requires ReaderAt(pos, mask, n)
    ensures if mask >> 1 == 0 then ReaderAt(pos + 1, 0x80, n + 1) else ReaderAt(pos, mask >> 1, n + 1)
  {
    NextMask(n % 8);
    if n % 8 < 7 { NextMask(n % 8 + 1); }
    FirstWeight();
    hide Weight;
    assert n % 8 == 7 ==> (n + 1) / 8 == n / 8 + 1 && (n + 1) % 8 == 0;
    assert n % 8 < 7 ==> (n + 1) / 8 == n / 8 && (n + 1) % 8 == n % 8 + 1;
  }

  method PrintLine(g: Box, deviceWidth: int, asce: int, desc: int, left: int, right: int, y: int, pos0: nat, mask0: bv8)
    returns (line: string, pos: nat, mask: bv8)
    requires |g.bitmap| * 8 >= g.width * g.height && left <= g.xOfs && g.xOfs + g.width <= right
    requires ReaderAt(pos0, mask0, Above(g, y) * g.width)
    ensures |line| == Max(0, right - left)
    ensures forall k :: 0 <= k < |line| ==> line[k] == Symbol(g, deviceWidth, asce, desc, left + k, y)
    ensures ReaderAt(pos, mask, Above(g, y - 1) * g.width)
  {
    hide ReaderAt, Weight, Shows, Before, Above;
    line, pos, mask := [], pos0, mask0;
    var inRow := g.yOfs <= y < g.yOfs + g.height;
    var x := left;
    BeforeEnds(g, left, right);
    while x < right
      invariant left <= x <= right && |line| == x - left
      invariant forall k :: 0 <= k < |line| ==> line[k] == Symbol(g, deviceWidth, asce, desc, left + k, y)
      invariant ReaderAt(pos, mask, Above(g, y) * g.width + if inRow then Before(g, x) else 0)
    {
      BeforeStep(g, x);
      if g.xOfs <= x < g.xOfs + g.width && inRow {
        ghost var n := Above(g, y) * g.width + Before(g, x);
        ReadsBit(g, x, y, pos, mask);
        var c := if g.bitmap[pos] & mask != 0 then '#' else '_';
        line := line + [c];
        ReaderStep(pos, mask, n);
        mask := mask >> 1;
        if mask == 0 {
          mask, pos := 0x80, pos + 1;
        }
      } else if 0 <= x < deviceWidth && -desc <= y < asce {
        line := line + [if x == 0 || y == 0 then '+' else '.'];
      } else {
        line := line + ['*'];
      }
      x := x + 1;
    }
    RowDone(g, y);
  }

  lemma BeforeEnds(g: Box, left: int, right: int)
    requires left <= g.xOfs && g.xOfs + g.width <= right
    ensures Before(g, left) == 0 && Before(g, right) == g.width
  {
  }

  lemma BeforeStep(g: Box, x: int)
    ensures Before(g, x + 1) == Before(g, x) + if g.xOfs <= x < g.xOfs + g.width then 1 else 0
  {
  }

  lemma RowDone(g: Box, y: int)
    ensures Above(g, y - 1) * g.width
         == Above(g, y) * g.width + if g.yOfs <= y < g.yOfs + g.height then g.width else 0
  {
    if g.yOfs <= y < g.yOfs + g.height {
      assert Above(g, y - 1) == Above(g, y) + 1;
      assert (Above(g, y) + 1) * g.width == Above(g, y) * g.width + g.width;
    } else {
      assert Above(g, y - 1) == Above(g, y);
    }
  }

  // Inside the box the reader stands at the bit of the point it prints.
  lemma ReadsBit(g: Box, x: int, y: int, pos: nat, mask: bv8)
    requires |g.bitmap| * 8 >= g.width * g.height
    requires g.xOfs <= x < g.xOfs + g.width && g.yOfs <= y < g.yOfs + g.height
    requires ReaderAt(pos, mask, Above(g, y) * g.width + Before(g, x))
    ensures pos < |g.bitmap|
    ensures g.bitmap[pos] & mask != 0 <==> Shows(g, x, y)
  {
    hide Weight;
    assert Above(g, y) == g.yOfs + g.height - 1 - y && Before(g, x) == x - g.xOfs;
    InBox(g.width, g.height, x - g.xOfs, g.yOfs + g.height - 1 - y);
  }
}
