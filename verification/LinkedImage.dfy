/** What is in a linked x86 EFI image, byte by byte and word by word, in terms of the kernel
    file alone: the relocation formulas of the System V ABI supplements for i386 and x86-64. */
module LinkedImage {
  import opened Align
  import opened Bytes
  import opened Elf
  import opened Options
  import opened SectionLayout
  import opened WordPatch
  import opened Relocation

  /* ---- the formulas ---- */

  // Relocation types that take the address of a symbol, with the size of their word.
  predicate IsAbsoluteType(m: Machine, kind: nat, w: nat) {
    || (m == Em386 && kind == 1 && w == 4)
    || (m == EmX8664 && ((kind == 1 && w == 8) || (kind == 10 && w == 4) || (kind == 11 && w == 4)))
  }

  // Relocation types that take the distance from the patched word to a symbol.
  predicate IsRelativeType(m: Machine, kind: nat, w: nat) {
    || (m == Em386 && kind == 2 && w == 4)
    || (m == EmX8664 && ((kind == 2 && w == 4) || (kind == 4 && w == 4) || (kind == 24 && w == 8)))
  }

  // The address at which the relocation's word is mapped.
  ghost function WordAddress(t: Target, k: Kernel, r: Reloc): int
    requires r.target < |k.addrs|
  {
    k.addrs[r.target] + t.vaddrOffset + r.offset
  }

  // Relocation r patches a word of w bytes, and its symbol stands for address a.
  ghost predicate Asks(t: Target, k: Kernel, r: Reloc, w: nat, a: int)
    requires r.symbol < |k.symbols|
  {
    && StandsFor(t, k, k.symbols[r.symbol], a)
    && (IsAbsoluteType(t.machine, r.kind, w) || IsRelativeType(t.machine, r.kind, w))
  }

  // The image `out`, loaded at `base`, has at relocation r the number that its type asks for:
  // symbol plus addend on top of what was there, less the word's own address if relative.
  ghost predicate WordIsRight(t: Target, k: Kernel, r: Reloc, w: nat, a: int, base: int, out: seq<byte>)
    requires r.target < |k.sections| == |k.addrs|
  {
    && r.offset + w <= |k.sections[r.target].contents| && k.addrs[r.target] + r.offset + w <= |out|
    && var before := WordAt(k.sections[r.target].contents, r.offset, w);
       WordAt(out, k.addrs[r.target] + r.offset, w)
       == Wrap(if IsAbsoluteType(t.machine, r.kind, w) then before + r.addend + a + base
               else before + r.addend + a - WordAddress(t, k, r), w)
  }

  // Byte q of section i is part of a relocation's word.
  ghost predicate InWord(t: Target, k: Kernel, i: nat, q: nat) {
    exists j, w: nat :: 0 <= j < |k.relocs| && k.relocs[j].target == i
      && (IsAbsoluteType(t.machine, k.relocs[j].kind, w) || IsRelativeType(t.machine, k.relocs[j].kind, w))
      && k.relocs[j].offset <= q < k.relocs[j].offset + w
  }

  // The image holds every allocated section at its address: zeros for NOBITS, the file's
  // bytes for the others, except in the words of relocations, which are right; and nothing
  // else was written.
  ghost predicate HoldsSections(t: Target, k: Kernel, start: seq<byte>, out: seq<byte>)
    requires |k.sections| == |k.addrs| && |start| == |out|
  {
    && (forall i :: 0 <= i < |k.sections| && k.sections[i].alloc ==> SectionIsRight(t, k, i, out))
    && (forall p :: 0 <= p < |out| && InNoSection(k, p) ==> out[p] == start[p])
  }

  ghost predicate SectionIsRight(t: Target, k: Kernel, i: nat, out: seq<byte>)
    requires i < |k.sections| == |k.addrs|
  {
    var s := k.sections[i];
    && k.addrs[i] + s.size <= |out|
    && (s.kind != NoBits ==> |s.contents| == s.size)
    && forall q :: 0 <= q < s.size && !InWord(t, k, i, q) ==>
         out[k.addrs[i] + q] == if s.kind == NoBits then 0 else s.contents[q]
  }

  ghost predicate InNoSection(k: Kernel, p: nat)
    requires |k.sections| == |k.addrs|
  {
    forall i :: 0 <= i < |k.sections| && k.sections[i].alloc ==> !(k.addrs[i] <= p < k.addrs[i] + k.sections[i].size)
  }

  ghost predicate WordsAreRight(t: Target, k: Kernel, base: int, out: seq<byte>)
    requires |k.sections| == |k.addrs|
  {
    forall j :: 0 <= j < |k.relocs| ==> RelocIsRight(t, k, j, base, out)
  }

  ghost predicate RelocIsRight(t: Target, k: Kernel, j: nat, base: int, out: seq<byte>)
    requires j < |k.relocs| && |k.sections| == |k.addrs|
  {
    var r := k.relocs[j];
    && r.target < |k.sections| && r.symbol < |k.symbols|
    && (k.sections[r.target].alloc ==> forall w: nat, a: int :: Asks(t, k, r, w, a) ==> WordIsRight(t, k, r, w, a, base, out))
  }

  /* ---- what the model's tables come to ---- */

  lemma TypeTable(t: Target, k: Kernel, r: Reloc, w: nat)
    requires IsX86(t)
    ensures IsAbsoluteType(t.machine, r.kind, w) <==> EffectOf(t.machine, r.kind) == Direct(w)
    ensures IsRelativeType(t.machine, r.kind, w) <==> EffectOf(t.machine, r.kind) == Relative(w)
  {
  }

  // The amount added is the formula's, modulo the word.
  lemma AmountIsFormula(t: Target, k: Kernel, r: Reloc, w: nat, a: int)
    requires IsX86(t) && ValidKernel(t, k) && ValidReloc(t.machine, k, r) && StandsFor(t, k, k.symbols[r.symbol], a)
    requires IsAbsoluteType(t.machine, r.kind, w) || IsRelativeType(t.machine, r.kind, w)
    ensures Width(t.machine, r) == w
    ensures SameModulo(Delta(t, k, r), if IsAbsoluteType(t.machine, r.kind, w) then r.addend + a else r.addend + a - WordAddress(t, k, r), w)
  {
    TypeTable(t, k, r, w);
    var s := k.symbols[r.symbol];
    SymbolModulo(t, k, r, s, a, w);
    var b := SymbolAddress(t, k, s).value;
    hide SymbolAddress, StandsFor;
    if IsAbsoluteType(t.machine, r.kind, w) {
      SameModuloShift(b, a, r.addend, w);
    } else {
      SameModuloShift(b, a, r.addend - WordAddress(t, k, r), w);
    }
  }

  lemma SymbolModulo(t: Target, k: Kernel, r: Reloc, s: Symbol, a: int, w: nat)
    requires IsX86(t) && StandsFor(t, k, s, a) && SymbolAddress(t, k, s).Some? && Width(t.machine, r) == w > 0
    ensures SameModulo(SymbolAddress(t, k, s).value, a, w)
  {
    var b := SymbolAddress(t, k, s).value;
    if s.home.InSection? {
      WordDividesAddressSpace(t, r);
      ModIdempotent(a, AddressSpace(t));
      MultipleOfMultiple(b - a, AddressSpace(t), Pow256(w));
    } else {
      assert b - a == 0;
      MultipleHasNoRemainder(0, Pow256(w));
    }
  }

  // Whether linking and making the table succeed, by the type numbers of the relocations that
  // reach the output: others than these are not implemented, and 10 and 11, which take an
  // address in 32 bits of a 64-bit image, have no fixup.
  predicate IsImplemented(m: Machine, kind: nat) {
    if m == Em386 then kind in {0, 1, 2} else kind in {0, 1, 2, 4, 10, 11, 24}
  }

  predicate HasNoFixup(m: Machine, kind: nat) {
    m == EmX8664 && kind in {10, 11}
  }

  lemma {:induction false} RelocatesIff(t: Target, k: Kernel, n: nat)
    requires IsX86(t) && t.id == ImageEfi && ValidKernel(t, k) && n <= |k.relocs|
    requires forall i :: 0 <= i < |k.relocs| ==> NamedAfterTarget(k, k.relocs[i])
    ensures Relocated(t, k, n).Some? <==>
              forall j :: 0 <= j < n && (k.relocs[j].header.alloc || k.sections[k.relocs[j].target].alloc) ==>
                IsImplemented(t.machine, k.relocs[j].kind)
    decreases n
  {
    hide NamedAfterTarget, Patch, SameHeaders, SymbolAddress;
    if n > 0 {
      RelocatesIff(t, k, n - 1);
      var r := k.relocs[n - 1];
      assert ValidReloc(t.machine, k, r);
      GateIsFlags(t, k, r);
      assert EffectOf(t.machine, r.kind).Unsupported? <==> !IsImplemented(t.machine, r.kind);
      hide Applied, EffectOf, IsImplemented;
    }
  }

  lemma GateIsFlags(t: Target, k: Kernel, r: Reloc)
    requires t.id == ImageEfi && r.target < |k.sections| && NamedAfterTarget(k, r)
    ensures Translated(t, k, r) <==> k.sections[r.target].alloc
    ensures Applied(t, k, r) <==> r.header.alloc || k.sections[r.target].alloc
  {
    TranslatedIffTargetKept(t, k, r);
    KeptIff(t, k.sections[r.target]);
    KeptIff(t, r.header);
    hide IsKept, NamedAfterTarget;
  }

  lemma {:induction false} FixupsIff(t: Target, k: Kernel, n: nat)
    requires IsX86(t) && t.id == ImageEfi && ValidKernel(t, k) && n <= |k.relocs|
    requires forall i :: 0 <= i < |k.relocs| ==> NamedAfterTarget(k, k.relocs[i])
    ensures Fixups(t, k, n).Some? <==>
              forall j :: 0 <= j < n && k.sections[k.relocs[j].target].alloc ==> !HasNoFixup(t.machine, k.relocs[j].kind)
    decreases n
  {
    hide NamedAfterTarget, SymbolAddress;
    if n > 0 {
      FixupsIff(t, k, n - 1);
      var r := k.relocs[n - 1];
      assert ValidReloc(t.machine, k, r);
      GateIsFlags(t, k, r);
      assert FixupFor(t, k, r).Some? <==> !(k.sections[r.target].alloc && HasNoFixup(t.machine, r.kind));
      hide FixupFor, HasNoFixup;
    }
  }

  /* ---- words ---- */

  // A word of a section, seen in the image that holds the section.
  lemma WordInImage(t: Target, ss: seq<Section>, addrs: seq<nat>, img: seq<byte>, i: nat, off: nat, w: nat)
    requires Fits(t, ss, addrs, |img|) && KeptDisjoint(t, ss, addrs)
    requires i < |ss| && IsKept(t, ss[i]) && ss[i].kind != NoBits && off + w <= |ss[i].contents|
    ensures addrs[i] + off + w <= |img|
    ensures WordAt(CopyIn(t, ss, addrs, IndexOrder(|ss|), img), addrs[i] + off, w) == WordAt(ss[i].contents, off, w)
  {
    assert ValidSection(ss[i]);
    hide CopyIn, KeptDisjoint, IsKept, DecodeLE;
    var out := CopyIn(t, ss, addrs, IndexOrder(|ss|), img);
    var x, y := out[addrs[i] + off..addrs[i] + off + w], ss[i].contents[off..off + w];
    forall q | 0 <= q < w ensures x[q] == y[q] {
      SectionImage(t, ss, addrs, img, i, off + q);
    }
    assert x == y;
  }

  // The word of a relocation before and after linking and loading.
  lemma LoadedFromFile(t: Target, k: Kernel, tramp: nat, img: seq<byte>, base: int, j: nat)
    requires Linkable(t, k, tramp) && DisjointSites(t, k) && Fits(t, k.sections, k.addrs, |img|)
    requires j < |k.relocs| && Matters(t, k, k.relocs[j])
    ensures var r := k.relocs[j];
            var w := Width(t.machine, r);
            var out := ApplyFixups(Linked(t, k, img), Fixups(t, k, |k.relocs|).value, t.vaddrOffset, base);
            && r.offset + w <= |k.sections[r.target].contents| && Place(k, r) + w <= |img|
            && WordAt(out, Place(k, r), w)
               == Wrap(WordAt(k.sections[r.target].contents, r.offset, w) + (Delta(t, k, r) + Extra(t, r, base)), w)
  {
    hide Placed, Flat, Relocated, NamedAfterTarget, ApplyFixups, Linked, Fixups, Wrap, WordAt, Delta, Extra, DisjointSites, Apart;
    var r := k.relocs[j];
    assert ValidReloc(t.machine, k, r);
    LinkedIsFlat(t, k, tramp, img);
    PlacementIsDisjoint(t, k.sections, tramp, k.addrs, k.layout);
    WordInImage(t, k.sections, k.addrs, img, r.target, r.offset, Width(t.machine, r));
    LoadedWord(t, k, |k.relocs|, Output(t, k, k.sections, img), base, j);
  }

  lemma LinkedFromFile(t: Target, k: Kernel, tramp: nat, img: seq<byte>, j: nat)
    requires Linkable(t, k, tramp) && DisjointSites(t, k) && Fits(t, k.sections, k.addrs, |img|)
    requires j < |k.relocs| && Matters(t, k, k.relocs[j])
    ensures var r := k.relocs[j];
            var w := Width(t.machine, r);
            && r.offset + w <= |k.sections[r.target].contents| && Place(k, r) + w <= |img|
            && WordAt(Linked(t, k, img), Place(k, r), w) == Wrap(WordAt(k.sections[r.target].contents, r.offset, w) + Delta(t, k, r), w)
  {
    hide Placed, Flat, Relocated, NamedAfterTarget, Linked, Fixups, Wrap, WordAt, Delta, DisjointSites, Apart;
    var r := k.relocs[j];
    assert ValidReloc(t.machine, k, r);
    LinkedIsFlat(t, k, tramp, img);
    PlacementIsDisjoint(t, k.sections, tramp, k.addrs, k.layout);
    WordInImage(t, k.sections, k.addrs, img, r.target, r.offset, Width(t.machine, r));
    FlatWord(t, k, |k.relocs|, Output(t, k, k.sections, img), j);
  }

  // Adding the model's amount is applying the formula.
  lemma AmountIsRight(t: Target, k: Kernel, r: Reloc, w: nat, a: int, base: int, out: seq<byte>)
    requires IsX86(t) && ValidKernel(t, k) && ValidReloc(t.machine, k, r) && Asks(t, k, r, w, a) && Width(t.machine, r) == w
    requires Place(k, r) + w <= |out|
    requires WordAt(out, Place(k, r), w)
             == Wrap(WordAt(k.sections[r.target].contents, r.offset, w) + (Delta(t, k, r) + Extra(t, r, base)), w)
    ensures WordIsRight(t, k, r, w, a, base, out)
  {
    hide WordAt, Wrap, SameModulo, Delta, StandsFor, SymbolAddress;
    AmountIsFormula(t, k, r, w, a);
    TypeTable(t, k, r, w);
    var before := WordAt(k.sections[r.target].contents, r.offset, w);
    hide EffectOf, IsAbsoluteType, IsRelativeType;
    if IsAbsoluteType(t.machine, r.kind, w) {
      WrapModulo(before + base, Delta(t, k, r), r.addend + a, w);
    } else {
      WrapModulo(before, Delta(t, k, r), r.addend + a - WordAddress(t, k, r), w);
    }
  }

  // A relocation that asks for a word in an allocated section reaches the output.
  lemma AskedMatters(t: Target, k: Kernel, r: Reloc, w: nat, a: int)
    requires IsX86(t) && t.id == ImageEfi && r.target < |k.sections| && k.sections[r.target].alloc
    requires r.symbol < |k.symbols| && Asks(t, k, r, w, a)
    ensures Matters(t, k, r) && Width(t.machine, r) == w
  {
    hide StandsFor;
    TypeTable(t, k, r, w);
    KeptIff(t, k.sections[r.target]);
  }

  // Main result.  In the image of any x86 EFI kernel whose relocations patch disjoint words,
  // every word that a relocation patches is what the relocation's type asks for ...
  lemma LinkedWordsAreRight(t: Target, k: Kernel, tramp: nat, img: seq<byte>)
    requires Linkable(t, k, tramp) && DisjointSites(t, k) && Fits(t, k.sections, k.addrs, |img|)
    ensures WordsAreRight(t, k, 0, Linked(t, k, img))
  {
    hide Placed, Relocated, NamedAfterTarget, Linked, Fixups, DisjointSites, WordIsRight, Asks, WordAt, Wrap, Delta;
    var out := Linked(t, k, img);
    forall j | 0 <= j < |k.relocs| ensures RelocIsRight(t, k, j, 0, out) {
      var r := k.relocs[j];
      assert ValidReloc(t.machine, k, r);
      forall w: nat, a: int | k.sections[r.target].alloc && Asks(t, k, r, w, a) ensures WordIsRight(t, k, r, w, a, 0, out) {
        AskedMatters(t, k, r, w, a);
        LinkedFromFile(t, k, tramp, img, j);
        assert Extra(t, r, 0) == 0;
        AmountIsRight(t, k, r, w, a, 0, out);
      }
    }
  }

  // ... and still is after loading at any base by adding the base at the emitted fixups.
  lemma LoadedWordsAreRight(t: Target, k: Kernel, tramp: nat, img: seq<byte>, base: int)
    requires Linkable(t, k, tramp) && DisjointSites(t, k) && Fits(t, k.sections, k.addrs, |img|)
    ensures WordsAreRight(t, k, base, ApplyFixups(Linked(t, k, img), Fixups(t, k, |k.relocs|).value, t.vaddrOffset, base))
  {
    hide Placed, Relocated, NamedAfterTarget, ApplyFixups, Linked, Fixups, DisjointSites, WordIsRight, Asks, WordAt, Wrap, Delta, Extra;
    var out := ApplyFixups(Linked(t, k, img), Fixups(t, k, |k.relocs|).value, t.vaddrOffset, base);
    forall j | 0 <= j < |k.relocs| ensures RelocIsRight(t, k, j, base, out) {
      var r := k.relocs[j];
      assert ValidReloc(t.machine, k, r);
      forall w: nat, a: int | k.sections[r.target].alloc && Asks(t, k, r, w, a) ensures WordIsRight(t, k, r, w, a, base, out) {
        AskedMatters(t, k, r, w, a);
        LoadedFromFile(t, k, tramp, img, base, j);
        AmountIsRight(t, k, r, w, a, base, out);
      }
    }
  }

  /* ---- the other bytes ---- */

  // No relocation that reaches the output patches byte p of the image.
  ghost predicate NotPatched(t: Target, k: Kernel, p: nat)
    requires ValidKernel(t, k)
  {
    forall j :: 0 <= j < |k.relocs| && Matters(t, k, k.relocs[j]) ==> !PatchesByte(t, k, k.relocs[j], p)
  }

  ghost predicate PatchesByte(t: Target, k: Kernel, r: Reloc, p: nat)
    requires r.target < |k.addrs|
  {
    Place(k, r) <= p < Place(k, r) + Width(t.machine, r)
  }

  lemma {:induction false} FlatByte(t: Target, k: Kernel, n: nat, img: seq<byte>, p: nat)
    requires ValidKernel(t, k) && n <= |k.relocs| && Fits(t, k.sections, k.addrs, |img|) && p < |img| && NotPatched(t, k, p)
    ensures Flat(t, k, n, img)[p] == img[p]
    decreases n
  {
    hide Delta, EffectOf, SymbolAddress, IsKept, Width;
    if n > 0 {
      FlatByte(t, k, n - 1, img, p);
      if Matters(t, k, k.relocs[n - 1]) { assert !PatchesByte(t, k, k.relocs[n - 1], p); }
    }
  }

  lemma OutsideWordIsNotPatched(t: Target, k: Kernel, i: nat, q: nat)
    requires t.id == ImageEfi && IsX86(t) && ValidKernel(t, k) && KeptDisjoint(t, k.sections, k.addrs)
    requires i < |k.sections| && k.sections[i].alloc && q < k.sections[i].size && !InWord(t, k, i, q)
    ensures NotPatched(t, k, k.addrs[i] + q)
  {
    hide SymbolAddress, KeptDisjoint, InWord;
    forall j | 0 <= j < |k.relocs| && Matters(t, k, k.relocs[j]) ensures !PatchesByte(t, k, k.relocs[j], k.addrs[i] + q) {
      var r := k.relocs[j];
      assert ValidReloc(t.machine, k, r) && ValidSection(k.sections[r.target]);
      if r.target == i {
        if PatchesByte(t, k, r, k.addrs[i] + q) { WordCovers(t, k, j, q); }
      } else {
        KeptIff(t, k.sections[i]);
        TwoSections(t, k, i, r.target);
      }
    }
  }

  lemma WordCovers(t: Target, k: Kernel, j: nat, q: nat)
    requires IsX86(t) && j < |k.relocs| && Width(t.machine, k.relocs[j]) > 0
    requires k.relocs[j].offset <= q < k.relocs[j].offset + Width(t.machine, k.relocs[j])
    ensures InWord(t, k, k.relocs[j].target, q)
  {
    var w := Width(t.machine, k.relocs[j]);
    TypeTable(t, k, k.relocs[j], w);
  }

  lemma TwoSections(t: Target, k: Kernel, i: nat, j: nat)
    requires i < |k.sections| == |k.addrs| && j < |k.sections| && i != j
    requires KeptDisjoint(t, k.sections, k.addrs) && IsKept(t, k.sections[i]) && IsKept(t, k.sections[j])
    ensures k.addrs[i] + k.sections[i].size <= k.addrs[j] || k.addrs[j] + k.sections[j].size <= k.addrs[i]
  {
    hide IsKept;
  }

  lemma OutsideSectionsIsNotPatched(t: Target, k: Kernel, p: nat)
    requires t.id == ImageEfi && ValidKernel(t, k) && InNoSection(k, p)
    ensures NotPatched(t, k, p)
  {
    hide SymbolAddress, Width;
    forall j | 0 <= j < |k.relocs| && Matters(t, k, k.relocs[j]) ensures !PatchesByte(t, k, k.relocs[j], p) {
      var r := k.relocs[j];
      assert ValidReloc(t.machine, k, r) && ValidSection(k.sections[r.target]);
      KeptIff(t, k.sections[r.target]);
    }
  }

  // Main result.  The linked image holds every allocated section, NOBITS as zeros, with
  // nothing changed but the words of relocations, and nothing written outside.
  lemma LinkedHoldsSections(t: Target, k: Kernel, tramp: nat, img: seq<byte>)
    requires Linkable(t, k, tramp) && Fits(t, k.sections, k.addrs, |img|)
    ensures HoldsSections(t, k, img, Linked(t, k, img))
  {
    hide Placed, Relocated, NamedAfterTarget, Linked, Flat, Fixups, SectionIsRight, InNoSection;
    var out := Linked(t, k, img);
    forall i | 0 <= i < |k.sections| && k.sections[i].alloc ensures SectionIsRight(t, k, i, out) {
      OneSectionIsRight(t, k, tramp, img, i);
    }
    LinkedIsFlat(t, k, tramp, img);
    forall p | 0 <= p < |out| && InNoSection(k, p) ensures out[p] == img[p] {
      OutsideSectionsIsNotPatched(t, k, p);
      FlatByte(t, k, |k.relocs|, Output(t, k, k.sections, img), p);
      OutsideIsLeft(t, k, img, p);
    }
  }

  lemma OutsideIsLeft(t: Target, k: Kernel, img: seq<byte>, p: nat)
    requires t.id == ImageEfi && |k.sections| == |k.addrs| && Fits(t, k.sections, k.addrs, |img|) && p < |img| && InNoSection(k, p)
    ensures Output(t, k, k.sections, img)[p] == img[p]
  {
    hide IsKept, CopyIn;
    forall i | 0 <= i < |k.sections| && IsKept(t, k.sections[i]) ensures !Occupies(k.sections, k.addrs, i, p) {
      KeptIff(t, k.sections[i]);
    }
    CopyOutside(t, k.sections, k.addrs, IndexOrder(|k.sections|), img, p);
  }

  lemma OneSectionIsRight(t: Target, k: Kernel, tramp: nat, img: seq<byte>, i: nat)
    requires Linkable(t, k, tramp) && Fits(t, k.sections, k.addrs, |img|) && i < |k.sections| && k.sections[i].alloc
    ensures SectionIsRight(t, k, i, Linked(t, k, img))
  {
    hide Placed, Relocated, NamedAfterTarget, Linked, Flat, Fixups, InWord, CopyIn;
    PlacementIsDisjoint(t, k.sections, tramp, k.addrs, k.layout);
    LinkedIsFlat(t, k, tramp, img);
    KeptIff(t, k.sections[i]);
    assert ValidSection(k.sections[i]);
    var out := Linked(t, k, img);
    var s := k.sections[i];
    forall q | 0 <= q < s.size && !InWord(t, k, i, q) ensures out[k.addrs[i] + q] == if s.kind == NoBits then 0 else s.contents[q] {
      OutsideWordIsNotPatched(t, k, i, q);
      FlatByte(t, k, |k.relocs|, Output(t, k, k.sections, img), k.addrs[i] + q);
      ByteInImage(t, k.sections, k.addrs, img, i, q);
    }
  }

  lemma ByteInImage(t: Target, ss: seq<Section>, addrs: seq<nat>, img: seq<byte>, i: nat, q: nat)
    requires Fits(t, ss, addrs, |img|) && KeptDisjoint(t, ss, addrs) && i < |ss| && IsKept(t, ss[i]) && q < ss[i].size
    ensures ss[i].kind != NoBits ==> |ss[i].contents| == ss[i].size
    ensures CopyIn(t, ss, addrs, IndexOrder(|ss|), img)[addrs[i] + q] == if ss[i].kind == NoBits then 0 else ss[i].contents[q]
  {
    assert ValidSection(ss[i]);
    hide CopyIn, KeptDisjoint, IsKept;
    assert IndexOrder(|ss|)[i] == i;
    SectionByte(t, ss, addrs, IndexOrder(|ss|), img, i, addrs[i] + q);
  }

  /* ---- symbols ---- */

  // After relocate_symbols, a symbol defined in a kept section names, in memory where the
  // image is mapped, the byte of that section that the file says.
  lemma SymbolNamesByte(t: Target, k: Kernel, tramp: nat, values: seq<nat>, img: seq<byte>, n: nat, i: nat)
    requires IsRelocatable(t) && t.sectionAlign > 0 && |k.sections| == |k.addrs| && Placed(t, k.sections, tramp, k.addrs, k.layout)
    requires AreAddresses(t, k, values) && Fits(t, k.sections, k.addrs, |img|) && t.vaddrOffset + |img| <= 0x1_0000_0000
    requires n < |k.symbols| && k.symbols[n].home == InSection(i) && i < |k.sections| && IsKept(t, k.sections[i])
    requires k.symbols[n].value < k.sections[i].size
    ensures var at := values[n] - t.vaddrOffset;
            && k.addrs[i] <= at == k.addrs[i] + k.symbols[n].value < |img|
            && (k.sections[i].kind != NoBits ==> |k.sections[i].contents| == k.sections[i].size)
            && CopyIn(t, k.sections, k.addrs, IndexOrder(|k.sections|), img)[at]
               == if k.sections[i].kind == NoBits then 0 else k.sections[i].contents[k.symbols[n].value]
  {
    hide Placed, CopyIn, IsKept;
    PlacementIsDisjoint(t, k.sections, tramp, k.addrs, k.layout);
    var a := k.addrs[i] + t.vaddrOffset + k.symbols[n].value;
    assert StandsFor(t, k, k.symbols[n], a);
    ByteInImage(t, k.sections, k.addrs, img, i, k.symbols[n].value);
  }

  // __bss_start lies behind all data and before all bss, _end behind everything, as offsets
  // in the image.
  lemma BssSymbols(t: Target, k: Kernel, tramp: nat, values: seq<nat>, n: nat, i: nat)
    requires IsRelocatable(t) && t.sectionAlign > 0 && |k.sections| == |k.addrs| && Placed(t, k.sections, tramp, k.addrs, k.layout)
    requires AreAddresses(t, k, values) && n < |k.symbols| && k.symbols[n].home == Undefined && i < |k.sections| && k.sections[i].alloc
    ensures k.symbols[n].name == "__bss_start" && !(k.sections[i].kind == NoBits && !k.sections[i].exec) ==>
              k.addrs[i] + k.sections[i].size <= values[n]
    ensures k.symbols[n].name == "__bss_start" && k.sections[i].kind == NoBits && !k.sections[i].exec ==> values[n] <= k.addrs[i]
    ensures k.symbols[n].name == "_end" ==> k.addrs[i] + k.sections[i].size <= values[n]
  {
    if k.symbols[n].name == "__bss_start" {
      assert StandsFor(t, k, k.symbols[n], k.layout.bssStart);
    } else if k.symbols[n].name == "_end" {
      assert StandsFor(t, k, k.symbols[n], k.layout.end);
    }
  }
}
