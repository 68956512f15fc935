/** Adding to little-endian words inside a byte image: what both the linker's
    relocations and the loader's fixups do. */
module WordPatch {
  import opened Align
  import opened Bytes

  function WordAt(img: seq<byte>, at: nat, w: nat): nat
    requires at + w <= |img|
  {
    DecodeLE(img[at..at + w])
  }

  // What a store to a word of `w` bytes keeps of `x`.
  function Wrap(x: int, w: nat): (r: nat)
    ensures r < Pow256(w)
  {
    x % Pow256(w)
  }

  // *(uintN_t *) (img + at) += d, with N = 8 * w.
  function AddAt(img: seq<byte>, at: nat, w: nat, d: int): (r: seq<byte>)
    requires at + w <= |img|
    ensures |r| == |img|
    ensures forall i :: 0 <= i < |img| && !(at <= i < at + w) ==> r[i] == img[i]
  {
    Splice(img, at, EncodeLE(Wrap(WordAt(img, at, w) + d, w), w))
  }

  lemma ModShift(x: int, y: int, m: int)
    requires m > 0
    requires (x - y) % m == 0
    ensures x % m == y % m
  {
    DivMod(x, m);
    DivMod(y, m);
    MultipleHasNoRemainder(x / m - y / m, m);
    assert (x / m - y / m) * m == (x - x % m) - (y - y % m);
    SumOfMultiples(x - y, (x - x % m) - (y - y % m), m);
    assert (x - y) - ((x - x % m) - (y - y % m)) == x % m - y % m;
    CloseMultiplesAreEqual(x % m - y % m, 0, m);
  }

  lemma ModIdempotent(x: int, m: int)
    requires m > 0
    ensures (x % m - x) % m == 0
  {
    DivMod(x, m);
    MultipleHasNoRemainder(-(x / m), m);
    assert -(x / m) * m == x % m - x;
  }

  lemma WrapAdd(x: int, d: int, e: int, w: nat)
    ensures Wrap(Wrap(x + d, w) + e, w) == Wrap(x + (d + e), w)
  {
    var m := Pow256(w);
    ModIdempotent(x + d, m);
    assert ((x + d) % m + e) - (x + (d + e)) == (x + d) % m - (x + d);
    ModShift((x + d) % m + e, x + (d + e), m);
  }

  // Amounts that differ by a multiple of the word's modulus are the same amount.
  predicate SameModulo(d: int, e: int, w: nat) {
    (d - e) % Pow256(w) == 0
  }

  lemma WrapModulo(x: int, d: int, e: int, w: nat)
    requires SameModulo(d, e, w)
    ensures Wrap(x + d, w) == Wrap(x + e, w)
  {
    assert (x + d) - (x + e) == d - e;
    ModShift(x + d, x + e, Pow256(w));
  }

  // ... and amounts that differ by anything else are not.
  lemma WrapDiffers(x: int, d: int, e: int, w: nat)
    requires !SameModulo(d, e, w)
    ensures Wrap(x + d, w) != Wrap(x + e, w)
  {
    if Wrap(x + d, w) == Wrap(x + e, w) {
      SameRemainder(x + d, x + e, Pow256(w));
    }
  }

  lemma SameRemainder(x: int, y: int, m: int)
    requires m > 0 && x % m == y % m
    ensures (x - y) % m == 0
  {
    DivMod(x, m);
    DivMod(y, m);
    MultipleHasNoRemainder(x / m - y / m, m);
    assert (x / m - y / m) * m == x - y;
  }

  lemma WordAfterAdd(img: seq<byte>, at: nat, w: nat, d: int)
    requires at + w <= |img|
    ensures WordAt(AddAt(img, at, w, d), at, w) == Wrap(WordAt(img, at, w) + d, w)
  {
    DecodeEncodeLE(Wrap(WordAt(img, at, w) + d, w), w);
  }

  lemma SpliceTwice(img: seq<byte>, at: nat, a: seq<byte>, b: seq<byte>)
    requires |a| == |b| && at + |a| <= |img|
    ensures Splice(Splice(img, at, a), at, b) == Splice(img, at, b)
  {
  }

  lemma AddAtTwice(img: seq<byte>, at: nat, w: nat, d: int, e: int)
    requires at + w <= |img|
    ensures AddAt(AddAt(img, at, w, d), at, w, e) == AddAt(img, at, w, d + e)
  {
    hide Wrap, WordAt, EncodeLE, Splice, Pow256;
    var v := WordAt(img, at, w);
    WordAfterAdd(img, at, w, d);
    WrapAdd(v, d, e, w);
    SpliceTwice(img, at, EncodeLE(Wrap(v + d, w), w), EncodeLE(Wrap(v + (d + e), w), w));
  }

  // Only the amount modulo the word size matters, so intermediate wrap-around in a
  // wider type does not.
  lemma AddAtModulo(img: seq<byte>, at: nat, w: nat, d: int, e: int)
    requires at + w <= |img|
    requires SameModulo(d, e, w)
    ensures AddAt(img, at, w, d) == AddAt(img, at, w, e)
  {
    hide Wrap, WordAt, EncodeLE, Splice, Pow256, SameModulo;
    WrapModulo(WordAt(img, at, w), d, e, w);
  }

  lemma AddAtElsewhere(img: seq<byte>, at: nat, w: nat, d: int, at': nat, w': nat)
    requires at + w <= |img| && at' + w' <= |img|
    requires at + w <= at' || at' + w' <= at
    ensures WordAt(AddAt(img, at, w, d), at', w') == WordAt(img, at', w')
  {
    hide AddAt, DecodeLE;
    assert AddAt(img, at, w, d)[at'..at' + w'] == img[at'..at' + w'];
  }

  lemma SplicesCommute(img: seq<byte>, at: nat, a: seq<byte>, at': nat, b: seq<byte>)
    requires at + |a| <= |img| && at' + |b| <= |img|
    requires at + |a| <= at' || at' + |b| <= at
    ensures Splice(Splice(img, at, a), at', b) == Splice(Splice(img, at', b), at, a)
  {
  }

  lemma AddAtCommute(img: seq<byte>, at: nat, w: nat, d: int, at': nat, w': nat, e: int)
    requires at + w <= |img| && at' + w' <= |img|
    requires at + w <= at' || at' + w' <= at
    ensures AddAt(AddAt(img, at, w, d), at', w', e) == AddAt(AddAt(img, at', w', e), at, w, d)
  {
    hide Wrap, WordAt, EncodeLE, Splice, Pow256;
    AddAtElsewhere(img, at, w, d, at', w');
    AddAtElsewhere(img, at', w', e, at, w);
    SplicesCommute(img, at, EncodeLE(Wrap(WordAt(img, at, w) + d, w), w),
                   at', EncodeLE(Wrap(WordAt(img, at', w') + e, w'), w'));
  }
}
