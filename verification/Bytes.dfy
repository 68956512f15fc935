/** Bytes, fixed-width integers and byte images.  The writers modelled in this
    project store integers little-endian (PE), big-endian (PF2) or in the target's
    order (the module area), and patch them inside larger images. */
module Bytes {

  type byte = x: int | 0 <= x < 256

  datatype Endian = Little | Big

  function Pow256(n: nat): (p: nat)
    ensures p >= 1
  {
    if n == 0 then 1 else 256 * Pow256(n - 1)
  }

  // The `n` low bytes of `v`, least significant first.
  function EncodeLE(v: nat, n: nat): (s: seq<byte>)
    ensures |s| == n
    decreases n
  {
    if n == 0 then [] else [v % 256] + EncodeLE(v / 256, n - 1)
  }

  function DecodeLE(s: seq<byte>): nat
  {
    if s == [] then 0 else s[0] + 256 * DecodeLE(s[1..])
  }

  function Reverse(s: seq<byte>): (r: seq<byte>)
    ensures |r| == |s|
    ensures forall i :: 0 <= i < |s| ==> r[i] == s[|s| - 1 - i]
  {
    if s == [] then [] else Reverse(s[1..]) + [s[0]]
  }

  function Encode(e: Endian, v: nat, n: nat): (s: seq<byte>)
    ensures |s| == n
  {
    if e == Little then EncodeLE(v, n) else Reverse(EncodeLE(v, n))
  }

  function Decode(e: Endian, s: seq<byte>): nat
  {
    if e == Little then DecodeLE(s) else DecodeLE(Reverse(s))
  }

  lemma {:induction false} DecodeEncodeLE(v: nat, n: nat)
    requires v < Pow256(n)
    ensures DecodeLE(EncodeLE(v, n)) == v
    decreases n
  {
    if n > 0 {
      DecodeEncodeLE(v / 256, n - 1);
      assert EncodeLE(v, n)[1..] == EncodeLE(v / 256, n - 1);
    }
  }

  lemma ReverseReverse(s: seq<byte>)
    ensures Reverse(Reverse(s)) == s
  {
  }

  lemma DecodeEncode(e: Endian, v: nat, n: nat)
    requires v < Pow256(n)
    ensures Decode(e, Encode(e, v, n)) == v
  {
    DecodeEncodeLE(v, n);
    ReverseReverse(EncodeLE(v, n));
  }

  lemma Powers()
    ensures Pow256(1) == 0x100
    ensures Pow256(2) == 0x1_0000
    ensures Pow256(4) == 0x1_0000_0000
    ensures Pow256(8) == 0x1_0000_0000_0000_0000
  {
    assert Pow256(3) == 256 * Pow256(2);
    assert Pow256(4) == 256 * Pow256(3);
    assert Pow256(5) == 256 * Pow256(4);
    assert Pow256(6) == 256 * Pow256(5);
    assert Pow256(7) == 256 * Pow256(6);
  }

  /* ---- images ---- */

  function Zeros(n: nat): (s: seq<byte>)
    ensures |s| == n
    ensures forall i :: 0 <= i < n ==> s[i] == 0
  {
    seq(n, i => 0)
  }

  // memcpy of `data` to `img + at`.
  function Splice(img: seq<byte>, at: nat, data: seq<byte>): (r: seq<byte>)
    requires at + |data| <= |img|
    ensures |r| == |img|
    ensures r[at..at + |data|] == data
    ensures forall i :: 0 <= i < |img| && !(at <= i < at + |data|) ==> r[i] == img[i]
    ensures forall i :: at <= i < at + |data| ==> r[i] == data[i - at]
  {
    img[..at] + data + img[at + |data|..]
  }

  method Memcpy(img: array<byte>, at: nat, data: seq<byte>)
    requires at + |data| <= img.Length
    modifies img
    ensures img[..] == Splice(old(img[..]), at, data)
  {
    for k := 0 to |data|
      invariant forall p :: 0 <= p < img.Length ==>
                img[p] == if at <= p < at + k then data[p - at] else old(img[p])
    {
      img[at + k] := data[k];
    }
    assert img[..] == Splice(old(img[..]), at, data);
  }
}
