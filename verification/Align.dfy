/** Rounding up to an alignment, the ALIGN_UP macro of grub/include/grub/misc.h.
    The macro adds `align - 1` and masks the low bits; every alignment in the
    image builder is a power of two, where that is rounding up to a multiple. */
module Align {

  function AlignUp(x: nat, a: nat): (r: nat)
    requires a > 0
    ensures x <= r < x + a
    ensures r % a == 0
  {
    RoundedUpIsMultiple(x, a);
    if x % a == 0 then x else x + (a - x % a)
  }

  lemma RoundedUpIsMultiple(x: nat, a: nat)
    requires a > 0
    ensures (x + (a - x % a)) % a == 0
  {
    DivMod(x, a);
    assert (x / a + 1) * a == x + (a - x % a);
    MultipleHasNoRemainder(x / a + 1, a);
  }

  lemma DivMod(x: int, a: int)
    requires a > 0
    ensures x == x / a * a + x % a
    ensures 0 <= x % a < a
  {
  }

  lemma MultipleHasNoRemainder(q: int, a: int)
    requires a > 0
    ensures q * a % a == 0
  {
    DivMod(q * a, a);
    var d := q - q * a / a;
    assert d * a == q * a % a by {
      assert d * a == q * a - q * a / a * a;
    }
    OnlyMultipleBelow(d, a);
  }

  // The only multiple of `a` in [0, a) is zero.
  lemma OnlyMultipleBelow(d: int, a: int)
    requires a > 0
    requires 0 <= d * a < a
    ensures d == 0
  {
  }

  lemma SumOfMultiples(x: int, y: int, a: int)
    requires a > 0
    requires x % a == 0 && y % a == 0
    ensures (x + y) % a == 0
    ensures (x - y) % a == 0
  {
    DivMod(x, a);
    DivMod(y, a);
    MultipleHasNoRemainder(x / a + y / a, a);
    assert (x / a + y / a) * a == x + y;
    MultipleHasNoRemainder(x / a - y / a, a);
    assert (x / a - y / a) * a == x - y;
  }

  // Two multiples of `a` less than `a` apart are equal.
  lemma CloseMultiplesAreEqual(x: int, y: int, a: int)
    requires a > 0
    requires x % a == 0 && y % a == 0
    requires -a < x - y < a
    ensures x == y
  {
    DivMod(x, a);
    DivMod(y, a);
    var d := x / a - y / a;
    assert d * a == x - y;
    if d >= 0 { OnlyMultipleBelow(d, a); } else { assert -d * a == y - x; OnlyMultipleBelow(-d, a); }
  }

  // AlignUp is the least multiple of `a` that is at least `x`: any value with
  // its two defining properties is it.
  lemma AlignUpUnique(x: nat, a: nat, r: nat)
    requires a > 0
    requires x <= r < x + a && r % a == 0
    ensures r == AlignUp(x, a)
  {
    CloseMultiplesAreEqual(r, AlignUp(x, a), a);
  }

  lemma AlignUpOfMultiple(x: nat, a: nat)
    requires a > 0
    requires x % a == 0
    ensures AlignUp(x, a) == x
  {
    AlignUpUnique(x, a, x);
  }

  // An aligned summand can be taken out of the rounding.
  lemma AlignUpAdd(x: nat, y: nat, a: nat)
    requires a > 0
    requires x % a == 0
    ensures AlignUp(x + y, a) == x + AlignUp(y, a)
  {
    SumOfMultiples(x, AlignUp(y, a), a);
    AlignUpUnique(x + y, a, x + AlignUp(y, a));
  }
}
