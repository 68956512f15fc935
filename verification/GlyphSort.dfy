/** Sorting glyphs by character code: the two counting-sort passes at the end of
    `main` in grub/util/grub-mkfont.c. */
module GlyphSort {
  import opened Bytes
  import opened Counting

  // struct grub_glyph_info
  datatype Glyph = Glyph(charCode: nat, width: nat, height: nat, xOfs: int, yOfs: int, deviceWidth: int, bitmap: seq<byte>)

  const RADIX: nat := 0x10000

  // The digit a pass sorts by: the low 16 bits first, then the high 16 bits.
  function Digit(high: bool, g: Glyph): nat {
    if high then g.charCode / RADIX else g.charCode % RADIX
  }

  ghost predicate ValidGlyphs(gs: seq<Glyph>) {
    forall i :: 0 <= i < |gs| ==> gs[i].charCode < 0x1_0000_0000
  }

  lemma DigitBound(high: bool, g: Glyph)
    requires g.charCode < 0x1_0000_0000
    ensures Digit(high, g) < RADIX
  {
  }

  lemma DigitsOrderCodes(g: Glyph, h: Glyph)
    ensures g.charCode < h.charCode <==>
            Digit(true, g) < Digit(true, h) || (Digit(true, g) == Digit(true, h) && Digit(false, g) < Digit(false, h))
    ensures g.charCode == h.charCode <==> Digit(true, g) == Digit(true, h) && Digit(false, g) == Digit(false, h)
  {
  }

  /* ---- counting ---- */

  // How many of the first `n` glyphs have a digit below `v`.
  ghost function Less(high: bool, gs: seq<Glyph>, v: nat, n: nat): nat
    requires n <= |gs|
  {
    if n == 0 then 0 else Less(high, gs, v, n - 1) + if Digit(high, gs[n - 1]) < v then 1 else 0
  }

  // How many of the first `n` glyphs have digit `v`.
  ghost function Same(high: bool, gs: seq<Glyph>, v: nat, n: nat): nat
    requires n <= |gs|
  {
    if n == 0 then 0 else Same(high, gs, v, n - 1) + if Digit(high, gs[n - 1]) == v then 1 else 0
  }

  lemma {:induction false} LessNext(high: bool, gs: seq<Glyph>, v: nat, n: nat)
    requires n <= |gs|
    ensures Less(high, gs, v + 1, n) == Less(high, gs, v, n) + Same(high, gs, v, n)
    decreases n
  {
    hide Digit;
    if n > 0 { LessNext(high, gs, v, n - 1); }
  }

  lemma {:induction false} LessZero(high: bool, gs: seq<Glyph>, n: nat)
    requires n <= |gs|
    ensures Less(high, gs, 0, n) == 0
    decreases n
  {
    if n > 0 { LessZero(high, gs, n - 1); }
  }

  lemma {:induction false} LessMonotone(high: bool, gs: seq<Glyph>, v: nat, w: nat, n: nat)
    requires n <= |gs| && v <= w
    ensures Less(high, gs, v, n) <= Less(high, gs, w, n) <= n
    decreases n
  {
    hide Digit;
    if n > 0 { LessMonotone(high, gs, v, w, n - 1); }
  }

  lemma {:induction false} SameMonotone(high: bool, gs: seq<Glyph>, v: nat, m: nat, n: nat)
    requires m <= n <= |gs|
    ensures Same(high, gs, v, m) <= Same(high, gs, v, n)
    decreases n
  {
    hide Digit;
    if m < n { SameMonotone(high, gs, v, m, n - 1); }
  }

  /* ---- one pass ---- */

  // Where a pass puts glyph `i`: behind all smaller digits, and behind equal digits
  // that come earlier.
  ghost function Pos(high: bool, gs: seq<Glyph>, i: nat): nat
    requires i < |gs|
  {
    Less(high, gs, Digit(high, gs[i]), |gs|) + Same(high, gs, Digit(high, gs[i]), i)
  }

  // The slots are used in the order of the digits, then of the input.
  lemma PosOrder(high: bool, gs: seq<Glyph>, i: nat, j: nat)
    requires i < |gs| && j < |gs| && i != j
    ensures Pos(high, gs, i) < Pos(high, gs, j) <==>
            Digit(high, gs[i]) < Digit(high, gs[j]) || (Digit(high, gs[i]) == Digit(high, gs[j]) && i < j)
    ensures Pos(high, gs, i) != Pos(high, gs, j)
  {
    hide Digit;
    var d, e := Digit(high, gs[i]), Digit(high, gs[j]);
    if d < e {
      SmallerDigitFirst(high, gs, i, j);
    } else if e < d {
      SmallerDigitFirst(high, gs, j, i);
    } else if i < j {
      SameMonotone(high, gs, d, i + 1, j);
    } else {
      SameMonotone(high, gs, d, j + 1, i);
    }
  }

  lemma SmallerDigitFirst(high: bool, gs: seq<Glyph>, i: nat, j: nat)
    requires i < |gs| && j < |gs| && Digit(high, gs[i]) < Digit(high, gs[j])
    ensures Pos(high, gs, i) < Pos(high, gs, j)
  {
    hide Digit;
    var d := Digit(high, gs[i]);
    SameMonotone(high, gs, d, i + 1, |gs|);
    LessNext(high, gs, d, |gs|);
    LessMonotone(high, gs, d + 1, Digit(high, gs[j]), |gs|);
  }

  lemma PosInRange(high: bool, gs: seq<Glyph>, i: nat)
    requires i < |gs|
    ensures Pos(high, gs, i) < |gs|
  {
    hide Digit;
    var d := Digit(high, gs[i]);
    SameMonotone(high, gs, d, i + 1, |gs|);
    LessNext(high, gs, d, |gs|);
    LessMonotone(high, gs, d + 1, d + 1, |gs|);
  }

  // One counting sort: count, sum up, distribute.
  method Pass(high: bool, gs: seq<Glyph>) returns (out: array<Glyph>)
    requires ValidGlyphs(gs)
    ensures fresh(out) && out.Length == |gs|
    ensures forall i :: 0 <= i < |gs| ==> Pos(high, gs, i) < |gs| && out[Pos(high, gs, i)] == gs[i]
  {
    hide Digit, Pos;
    var counter := Starts(high, gs);
    out := new Glyph[|gs|](i => Glyph(0, 0, 0, 0, 0, 0, []));
    for i := 0 to |gs|
      invariant counter.Length == RADIX + 1 && fresh(counter) && fresh(out) && out.Length == |gs|
      invariant forall b :: 0 <= b < RADIX ==> counter[b] == Less(high, gs, b, |gs|) + Same(high, gs, b, i)
      invariant forall j :: 0 <= j < i ==> Pos(high, gs, j) < |gs| && out[Pos(high, gs, j)] == gs[j]
    {
      DigitBound(high, gs[i]);
      PosInRange(high, gs, i);
      PosIs(high, gs, i);
      forall j | 0 <= j < i ensures Pos(high, gs, j) != Pos(high, gs, i) {
        PosOrder(high, gs, j, i);
      }
      var d := Digit(high, gs[i]);
      out[counter[d]] := gs[i];
      counter[d] := counter[d] + 1;
    }
  }

  lemma PosIs(high: bool, gs: seq<Glyph>, i: nat)
    requires i < |gs|
    ensures Pos(high, gs, i) == Less(high, gs, Digit(high, gs[i]), |gs|) + Same(high, gs, Digit(high, gs[i]), i)
  {
  }

  // The first two loops: counter[b] becomes the first slot for digit b.
  method Starts(high: bool, gs: seq<Glyph>) returns (counter: array<nat>)
    requires ValidGlyphs(gs)
    ensures fresh(counter) && counter.Length == RADIX + 1
    ensures forall b :: 0 <= b <= RADIX ==> counter[b] == Less(high, gs, b, |gs|)
  {
    hide Digit, Less;
    counter := new nat[RADIX + 1](i => 0);
    for i := 0 to |gs|
      invariant fresh(counter) && counter.Length == RADIX + 1 && counter[0] == 0
      invariant forall b :: 0 < b <= RADIX ==> counter[b] == Same(high, gs, b - 1, i)
    {
      DigitBound(high, gs[i]);
      var d := Digit(high, gs[i]);
      counter[d + 1] := counter[d + 1] + 1;
    }
    LessZero(high, gs, |gs|);
    for i := 0 to RADIX
      invariant fresh(counter) && counter.Length == RADIX + 1
      invariant forall b :: 0 <= b <= i ==> counter[b] == Less(high, gs, b, |gs|)
      invariant forall b :: i < b <= RADIX ==> counter[b] == Same(high, gs, b - 1, |gs|)
    {
      LessNext(high, gs, i, |gs|);
      counter[i + 1] := counter[i + 1] + counter[i];
    }
  }

  /* ---- both passes ---- */

  // `out` holds the glyphs of `gs`, glyph `i` at slot `at[i]`: every slot filled by
  // exactly one glyph.
  ghost predicate Arrangement(gs: seq<Glyph>, out: seq<Glyph>, at: seq<nat>) {
    && |out| == |at| == |gs|
    && (forall i :: 0 <= i < |gs| ==> at[i] < |gs| && out[at[i]] == gs[i])
    && (forall i, j :: 0 <= i < j < |gs| ==> at[i] != at[j])
  }

  // Smaller codes first, equal codes in the order of the input.
  ghost predicate StablyOrdered(gs: seq<Glyph>, at: seq<nat>)
    requires |at| == |gs|
  {
    forall i, j :: 0 <= i < |gs| && 0 <= j < |gs| && i != j ==>
      (at[i] < at[j] <==> gs[i].charCode < gs[j].charCode || (gs[i].charCode == gs[j].charCode && i < j))
  }

  ghost predicate Sorted(out: seq<Glyph>) {
    forall a, b :: 0 <= a < b < |out| ==> out[a].charCode <= out[b].charCode
  }

  ghost function Slots(high: bool, gs: seq<Glyph>): (at: seq<nat>)
    ensures |at| == |gs|
    ensures forall i :: 0 <= i < |gs| ==> at[i] == Pos(high, gs, i)
  {
    seq(|gs|, i requires 0 <= i < |gs| => Pos(high, gs, i))
  }

  // First by low digit, then by high digit: together the order of the full code.
  lemma TwoPassOrder(gs: seq<Glyph>, tmp: seq<Glyph>, i: nat, j: nat)
    requires |tmp| == |gs| && i < |gs| && j < |gs| && i != j
    requires forall k :: 0 <= k < |gs| ==> Pos(false, gs, k) < |gs| && tmp[Pos(false, gs, k)] == gs[k]
    ensures var a, b := Pos(false, gs, i), Pos(false, gs, j);
            && Pos(true, tmp, a) != Pos(true, tmp, b)
            && (Pos(true, tmp, a) < Pos(true, tmp, b) <==>
                gs[i].charCode < gs[j].charCode || (gs[i].charCode == gs[j].charCode && i < j))
  {
    hide Digit, Pos;
    PosOrder(false, gs, i, j);
    PosOrder(true, tmp, Pos(false, gs, i), Pos(false, gs, j));
    DigitsOrderCodes(gs[i], gs[j]);
  }

  lemma OrderedMeansSorted(gs: seq<Glyph>, out: seq<Glyph>, at: seq<nat>)
    requires Arrangement(gs, out, at) && StablyOrdered(gs, at)
    ensures Sorted(out)
  {
    forall a, b | 0 <= a < b < |out| ensures out[a].charCode <= out[b].charCode {
      InjectionFills(at, |gs|, a);
      InjectionFills(at, |gs|, b);
      var i :| 0 <= i < |gs| && at[i] == a;
      var j :| 0 <= j < |gs| && at[j] == b;
      assert at[i] < at[j];
    }
  }

  // Main result: for any glyph list the two passes give the glyphs sorted by their
  // full 32-bit code, every slot written for exactly one glyph, and glyphs with equal
  // codes in their original order.
  method SortGlyphs(gs: seq<Glyph>) returns (sorted: seq<Glyph>, ghost at: seq<nat>)
    requires ValidGlyphs(gs)
    ensures Arrangement(gs, sorted, at) && StablyOrdered(gs, at) && Sorted(sorted)
  {
    hide Pos, Digit, ValidGlyphs;
    var tmp := Pass(false, gs);
    PassKeepsValid(gs, tmp[..]);
    var out := Pass(true, tmp[..]);
    sorted := out[..];
    at := Compose(gs, tmp[..]);
    BothPasses(gs, tmp[..], sorted);
    OrderedMeansSorted(gs, sorted, at);
  }

  ghost function Compose(gs: seq<Glyph>, tmp: seq<Glyph>): (at: seq<nat>)
    requires |tmp| == |gs| && forall k :: 0 <= k < |gs| ==> Pos(false, gs, k) < |gs|
    ensures |at| == |gs|
    ensures forall i :: 0 <= i < |gs| ==> at[i] == Pos(true, tmp, Pos(false, gs, i))
  {
    seq(|gs|, i requires 0 <= i < |gs| => Pos(true, tmp, Pos(false, gs, i)))
  }

  lemma PassKeepsValid(gs: seq<Glyph>, tmp: seq<Glyph>)
    requires ValidGlyphs(gs) && |tmp| == |gs|
    requires forall k :: 0 <= k < |gs| ==> Pos(false, gs, k) < |gs| && tmp[Pos(false, gs, k)] == gs[k]
    ensures ValidGlyphs(tmp)
  {
    hide Pos;
    var at := Slots(false, gs);
    forall i, j | 0 <= i < j < |gs| ensures at[i] != at[j] {
      PosOrder(false, gs, i, j);
    }
    forall a | 0 <= a < |tmp| ensures tmp[a].charCode < 0x1_0000_0000 {
      InjectionFills(at, |gs|, a);
      var i :| 0 <= i < |gs| && at[i] == a;
      assert tmp[Pos(false, gs, i)] == gs[i];
    }
  }

  lemma BothPasses(gs: seq<Glyph>, tmp: seq<Glyph>, out: seq<Glyph>)
    requires |tmp| == |out| == |gs|
    requires forall k :: 0 <= k < |gs| ==> Pos(false, gs, k) < |gs| && tmp[Pos(false, gs, k)] == gs[k]
    requires forall k :: 0 <= k < |tmp| ==> Pos(true, tmp, k) < |tmp| && out[Pos(true, tmp, k)] == tmp[k]
    ensures Arrangement(gs, out, Compose(gs, tmp)) && StablyOrdered(gs, Compose(gs, tmp))
  {
    hide Pos;
    var at := Compose(gs, tmp);
    forall i, j | 0 <= i < |gs| && 0 <= j < |gs| && i != j
      ensures at[i] != at[j]
      ensures at[i] < at[j] <==> gs[i].charCode < gs[j].charCode || (gs[i].charCode == gs[j].charCode && i < j)
    {
      TwoPassOrder(gs, tmp, i, j);
    }
  }
}
