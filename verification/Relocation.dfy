/** Relocating an x86 EFI kernel: `relocate_symbols`, `relocate_addrs`,
    `translate_relocation_pe` and `make_reloc_section` of
    grub/util/grub-mkimagexx.c for EM_386 and EM_X86_64, and what a PE loader
    makes of the result. */
module Relocation {
  import opened Align
  import opened Bytes
  import opened Elf
  import opened Options
  import opened SectionLayout
  import opened WordPatch
  import F = FixupTable

  datatype Home = InSection(index: nat) | Absolute | Undefined

  // `func` says that the symbol's type is STT_FUNC.
  datatype Symbol = Symbol(name: string, home: Home, value: nat, func: bool)

  // One entry of a SHT_REL or SHT_RELA section `header` that patches section
  // `target`; a REL entry has addend 0.
  datatype Reloc = Reloc(header: Section, target: nat, kind: nat, offset: nat, symbol: nat, addend: nat)

  // A kernel to link: sections, their addresses, symbols and relocations.
  datatype Kernel = Kernel(sections: seq<Section>, addrs: seq<nat>, layout: Layout, symbols: seq<Symbol>, relocs: seq<Reloc>)

  /* ---- symbols ---- */

  // Elf_Addr arithmetic is modulo this.
  function AddressSpace(t: Target): nat {
    if t.machine == Em386 || t.machine == EmArm then 0x1_0000_0000 else 0x1_0000_0000_0000_0000
  }

  // relocate_symbols; None is grub_util_error.
  function SymbolAddress(t: Target, k: Kernel, s: Symbol): Option<nat> {
    match s.home
    case Absolute => Some(s.value)
    case Undefined =>
      if s.name == "__bss_start" then Some(k.layout.bssStart)
      else if s.name == "_end" then Some(k.layout.end)
      else if s.name != "" then None
      else Some(s.value)
    case InSection(i) =>
      if i >= |k.addrs| then None
      else Some((s.value + (k.addrs[i] + t.vaddrOffset)) % AddressSpace(t))
  }

  // What a symbol means: `a` is the address it stands for.  The two symbols that mark the
  // bss are offsets in the image; the virtual offset is not added to them.
  ghost predicate StandsFor(t: Target, k: Kernel, s: Symbol, a: int) {
    match s.home
    case InSection(j) => j < |k.addrs| && a == k.addrs[j] + t.vaddrOffset + s.value
    case Absolute => a == s.value
    case Undefined =>
      || (s.name == "__bss_start" && a == k.layout.bssStart)
      || (s.name == "_end" && a == k.layout.end)
      || (s.name == "" && a == s.value)
  }

  // `values` are the addresses the symbols stand for, as far as the machine can hold them.
  ghost predicate AreAddresses(t: Target, k: Kernel, values: seq<nat>) {
    && |values| == |k.symbols|
    && forall i, a: int :: 0 <= i < |values| && StandsFor(t, k, k.symbols[i], a) ==> HasAddress(t, k.symbols[i], values[i], a)
  }

  // A section's address and a symbol's value are added in 32 or 64 bits.
  ghost predicate HasAddress(t: Target, s: Symbol, value: nat, a: int) {
    if !s.home.InSection? then value == a
    else if t.machine == Em386 || t.machine == EmArm then value == a % 0x1_0000_0000
    else value == a % 0x1_0000_0000_0000_0000
  }

  // Symbol i could be the entry point.
  ghost predicate IsEntry(t: Target, k: Kernel, values: seq<nat>, i: int)
    requires 0 <= i < |values| == |k.symbols|
  {
    && (k.symbols[i].name == "_start" || k.symbols[i].name == "start")
    && k.symbols[i].home.InSection?
    && values[i] != AddressSpace(t) - 1
  }

  // The entry point is the first such symbol's.
  ghost predicate IsStart(t: Target, k: Kernel, values: seq<nat>, start: Option<nat>)
    requires |values| == |k.symbols|
  {
    match start
    case None => forall i :: 0 <= i < |values| ==> !IsEntry(t, k, values, i)
    case Some(v) =>
      exists i :: 0 <= i < |values| && IsEntry(t, k, values, i) && v == values[i] && forall j :: 0 <= j < i ==> !IsEntry(t, k, values, j)
  }

  /* ---- relocation types ---- */

  datatype Effect =
    | Nothing
    | Direct(width: nat)       // adds S + A
    | Relative(width: nat)     // adds S + A - P
    | Unsupported

  const R_386_NONE := 0
  const R_386_32 := 1
  const R_386_PC32 := 2
  const R_X86_64_NONE := 0
  const R_X86_64_64 := 1
  const R_X86_64_PC32 := 2
  const R_X86_64_PLT32 := 4
  const R_X86_64_32 := 10
  const R_X86_64_32S := 11
  const R_X86_64_PC64 := 24

  function EffectOf(m: Machine, kind: nat): (e: Effect)
    ensures (e.Direct? || e.Relative?) ==> (e.width == 4 || e.width == 8)
  {
    match m
    case Em386 =>
      if kind == R_386_NONE then Nothing
      else if kind == R_386_32 then Direct(4)
      else if kind == R_386_PC32 then Relative(4)
      else Unsupported
    case EmX8664 =>
      if kind == R_X86_64_NONE then Nothing
      else if kind == R_X86_64_64 then Direct(8)
      else if kind == R_X86_64_PC32 || kind == R_X86_64_PLT32 then Relative(4)
      else if kind == R_X86_64_PC64 then Relative(8)
      else if kind == R_X86_64_32 || kind == R_X86_64_32S then Direct(4)
      else Unsupported
    case _ => Unsupported
  }

  function Width(m: Machine, r: Reloc): nat {
    var e := EffectOf(m, r.kind);
    if e.Direct? || e.Relative? then e.width else 0
  }

  predicate Applied(t: Target, k: Kernel, r: Reloc) {
    IsKept(t, r.header) || IsKeptReloc(t, k.sections, r.header)
  }

  predicate Translated(t: Target, k: Kernel, r: Reloc) {
    IsKeptReloc(t, k.sections, r.header)
  }

  // What the C code takes for granted of its input: indices exist and every
  // patched word lies in its section.
  ghost predicate ValidReloc(m: Machine, k: Kernel, r: Reloc) {
    && r.target < |k.sections| && r.symbol < |k.symbols|
    && k.sections[r.target].kind != NoBits
    && r.offset + Width(m, r) <= |k.sections[r.target].contents|
  }

  ghost predicate ValidKernel(t: Target, k: Kernel) {
    && |k.sections| == |k.addrs|
    && (forall i :: 0 <= i < |k.sections| ==> ValidSection(k.sections[i]))
    && (forall i :: 0 <= i < |k.relocs| ==> ValidReloc(t.machine, k, k.relocs[i]))
    && (forall i :: 0 <= i < |k.symbols| ==> SymbolAddress(t, k, k.symbols[i]).Some?)
  }

  // The amount a relocation adds to its word.
  function Delta(t: Target, k: Kernel, r: Reloc): int
    requires r.target < |k.addrs| && r.symbol < |k.symbols| && SymbolAddress(t, k, k.symbols[r.symbol]).Some?
  {
    var s := SymbolAddress(t, k, k.symbols[r.symbol]).value;
    match EffectOf(t.machine, r.kind)
    case Direct(_) => r.addend + s
    case Relative(_) => r.addend + s - k.addrs[r.target] - r.offset - t.vaddrOffset
    case _ => 0
  }

  // One round of relocate_addrs on the section contents.
  ghost function Patch(t: Target, k: Kernel, r: Reloc, ss: seq<Section>): (ss': seq<Section>)
    requires ValidKernel(t, k) && ValidReloc(t.machine, k, r)
    requires SameHeaders(k.sections, ss)
    ensures SameHeaders(k.sections, ss')
  {
    if !Applied(t, k, r) then ss
    else ss[r.target := ss[r.target].(contents :=
           AddAt(ss[r.target].contents, r.offset, Width(t.machine, r), Delta(t, k, r)))]
  }

  ghost predicate SameHeaders(a: seq<Section>, b: seq<Section>) {
    && |a| == |b|
    && forall i :: 0 <= i < |a| ==> |b[i].contents| == |a[i].contents| && b[i].(contents := a[i].contents) == a[i]
  }

  // relocate_addrs over the first `n` relocations; None is the unsupported type.
  ghost function Relocated(t: Target, k: Kernel, n: nat): (r: Option<seq<Section>>)
    requires ValidKernel(t, k) && n <= |k.relocs|
    ensures r.Some? ==> SameHeaders(k.sections, r.value)
  {
    if n == 0 then Some(k.sections)
    else
      var before := Relocated(t, k, n - 1);
      var it := k.relocs[n - 1];
      if before.None? then None
      else if Applied(t, k, it) && EffectOf(t.machine, it.kind).Unsupported? then None
      else Some(Patch(t, k, it, before.value))
  }

  const HIGHLOW := 3
  const DIR64 := 10

  // translate_relocation_pe: the fixup for one relocation.  None stands for
  // "can't add fixup entry for R_X86_64_32(S)".
  function FixupFor(t: Target, k: Kernel, r: Reloc): Option<seq<F.Fixup>>
    requires r.target < |k.addrs|
  {
    var addr := k.addrs[r.target] + t.vaddrOffset + r.offset;
    if !Translated(t, k, r) then Some([])
    else if t.machine == Em386 && r.kind == R_386_32 then Some([F.Fixup(HIGHLOW, addr)])
    else if t.machine == EmX8664 && (r.kind == R_X86_64_32 || r.kind == R_X86_64_32S) then None
    else if t.machine == EmX8664 && r.kind == R_X86_64_64 then Some([F.Fixup(DIR64, addr)])
    else Some([])
  }

  // The fixups make_reloc_section emits for the first `n` relocations, in order.
  ghost function Fixups(t: Target, k: Kernel, n: nat): Option<seq<F.Fixup>>
    requires ValidKernel(t, k) && n <= |k.relocs|
  {
    if n == 0 then Some([])
    else
      var before := Fixups(t, k, n - 1);
      var last := FixupFor(t, k, k.relocs[n - 1]);
      if before.None? || last.None? then None else Some(before.value + last.value)
  }

  /* ---- the loader ---- */

  // Base relocation types 3 and 10 of the Microsoft PE/COFF specification.
  function FixupWidth(kind: nat): nat {
    if kind == 3 then 4 else if kind == 10 then 8 else 0
  }

  // A loader at base `base` adds it to the word a fixup names; the image is mapped
  // with its first byte at `vaddrOffset`.
  function ApplyFixup(img: seq<byte>, f: F.Fixup, vaddrOffset: nat, base: int): (r: seq<byte>)
    ensures |r| == |img|
  {
    if vaddrOffset <= f.addr && f.addr - vaddrOffset + FixupWidth(f.kind) <= |img|
    then AddAt(img, f.addr - vaddrOffset, FixupWidth(f.kind), base) else img
  }

  function ApplyFixups(img: seq<byte>, fs: seq<F.Fixup>, vaddrOffset: nat, base: int): (r: seq<byte>)
    ensures |r| == |img|
    decreases |fs|
  {
    if fs == [] then img
    else ApplyFixup(ApplyFixups(img, fs[..|fs| - 1], vaddrOffset, base), fs[|fs| - 1], vaddrOffset, base)
  }

  /* ---- the conditions ---- */

  // The naming convention of ELF: a relocation section is called `.rel` or `.rela`
  // followed by the name of the section it patches, and no earlier section has
  // that name.
  ghost predicate NamedAfterTarget(k: Kernel, r: Reloc)
    requires r.target < |k.sections|
  {
    var name := k.sections[r.target].name;
    && HasPrefix(name, ".")
    && (r.header.name == ".rel" + name || r.header.name == ".rela" + name)
    && FindSection(k.sections, name) == r.target
  }

  // Linking at 0 and at `base` differ only by the vaddr_offset in use.
  function AtBase(t: Target, base: nat): Target {
    t.(vaddrOffset := t.vaddrOffset + base)
  }

  // A relocation that reaches the output.
  predicate Matters(t: Target, k: Kernel, r: Reloc) {
    r.target < |k.sections| && IsKept(t, k.sections[r.target]) && Width(t.machine, r) > 0
  }

  function Place(k: Kernel, r: Reloc): nat
    requires r.target < |k.addrs|
  {
    k.addrs[r.target] + r.offset
  }

  ghost predicate Apart(t: Target, k: Kernel, r: Reloc, q: Reloc)
    requires r.target < |k.addrs| && q.target < |k.addrs|
  {
    Place(k, r) + Width(t.machine, r) <= Place(k, q) || Place(k, q) + Width(t.machine, q) <= Place(k, r)
  }

  ghost predicate DisjointSites(t: Target, k: Kernel)
    requires ValidKernel(t, k)
  {
    forall i, j :: 0 <= i < j < |k.relocs| && Matters(t, k, k.relocs[i]) && Matters(t, k, k.relocs[j]) ==>
      Apart(t, k, k.relocs[i], k.relocs[j])
  }

  ghost predicate Linkable(t: Target, k: Kernel, tramp: nat) {
    && t.id == ImageEfi && (t.machine == Em386 || t.machine == EmX8664)
    && t.sectionAlign > 0
    && ValidKernel(t, k)
    && Placed(t, k.sections, tramp, k.addrs, k.layout)
    && (forall i :: 0 <= i < |k.relocs| ==> NamedAfterTarget(k, k.relocs[i]))
    && Relocated(t, k, |k.relocs|).Some?
    && Fixups(t, k, |k.relocs|).Some?
  }

  /* ---- relocating sections is relocating the image ---- */

  // The relocation gate follows the target section.
  lemma TranslatedIffTargetKept(t: Target, k: Kernel, r: Reloc)
    requires r.target < |k.sections| && NamedAfterTarget(k, r)
    ensures Translated(t, k, r) <==> IsKept(t, k.sections[r.target])
  {
    var name := k.sections[r.target].name;
    assert name[..1][0] == '.';
    if r.header.name == ".rela" + name {
      assert r.header.name[..6] == ".rela" + name[..1] == ".rela.";
      assert r.header.name[5..] == name;
    } else {
      assert r.header.name[..5] == ".rel" + name[..1] == ".rel.";
      assert r.header.name[4..] == name;
      assert !HasPrefix(r.header.name, ".rela.") by { assert r.header.name[4] == '.'; }
    }
  }

  ghost function Flat(t: Target, k: Kernel, n: nat, img: seq<byte>): (r: seq<byte>)
    requires ValidKernel(t, k) && n <= |k.relocs|
    requires Fits(t, k.sections, k.addrs, |img|)
    ensures |r| == |img|
  {
    if n == 0 then img
    else
      FlatStep(t, k, k.relocs[n - 1], Flat(t, k, n - 1, img))
  }

  // One relocation on the output image.
  ghost function FlatStep(t: Target, k: Kernel, r: Reloc, img: seq<byte>): (img': seq<byte>)
    requires ValidKernel(t, k) && ValidReloc(t.machine, k, r) && Fits(t, k.sections, k.addrs, |img|)
    ensures |img'| == |img|
  {
    if Matters(t, k, r) then AddAt(img, Place(k, r), Width(t.machine, r), Delta(t, k, r)) else img
  }

  // The output image holding the sections `ss`.
  ghost function Output(t: Target, k: Kernel, ss: seq<Section>, img: seq<byte>): (r: seq<byte>)
    requires |ss| == |k.addrs| && Fits(t, ss, k.addrs, |img|)
    ensures |r| == |img|
  {
    CopyIn(t, ss, k.addrs, IndexOrder(|ss|), img)
  }

  lemma DisjointSameHeaders(t: Target, a: seq<Section>, b: seq<Section>, addrs: seq<nat>)
    requires |a| == |addrs| && KeptDisjoint(t, a, addrs) && SameHeaders(a, b)
    ensures KeptDisjoint(t, b, addrs)
  {
    assert forall i :: 0 <= i < |a| ==> IsKept(t, a[i]) == IsKept(t, b[i]) && b[i].size == a[i].size;
  }

  // Image byte `p` outside section `i` does not depend on that section's bytes.
  lemma CopyElsewhere(t: Target, a: seq<Section>, b: seq<Section>, addrs: seq<nat>, img: seq<byte>, i: nat, p: nat)
    requires |a| == |addrs| && SameHeaders(a, b)
    requires KeptDisjoint(t, a, addrs) && KeptDisjoint(t, b, addrs)
    requires Fits(t, a, addrs, |img|) && Fits(t, b, addrs, |img|)
    requires i < |a| && p < |img| && !Occupies(a, addrs, i, p)
    requires forall j :: 0 <= j < |a| && j != i ==> a[j] == b[j]
    ensures CopyIn(t, a, addrs, IndexOrder(|a|), img)[p] == CopyIn(t, b, addrs, IndexOrder(|a|), img)[p]
  {
    var order := IndexOrder(|a|);
    if j :| 0 <= j < |a| && IsKept(t, a[j]) && Occupies(a, addrs, j, p) {
      assert order[j] == j;
      SectionByte(t, a, addrs, order, img, j, p);
      SectionByte(t, b, addrs, order, img, j, p);
    } else {
      CopyOutside(t, a, addrs, order, img, p);
      CopyOutside(t, b, addrs, order, img, p);
    }
  }

  ghost function Patched(ss: seq<Section>, i: nat, off: nat, w: nat, d: int): (ss': seq<Section>)
    requires i < |ss| && off + w <= |ss[i].contents|
    ensures SameHeaders(ss, ss')
  {
    ss[i := ss[i].(contents := AddAt(ss[i].contents, off, w, d))]
  }

  ghost predicate HasWindow(r: seq<byte>, at: nat, c: seq<byte>) {
    at + |c| <= |r| && r[at..at + |c|] == c
  }

  ghost predicate SameOutside(r: seq<byte>, r': seq<byte>, lo: nat, hi: nat) {
    |r| == |r'| && forall p :: 0 <= p < |r| && !(lo <= p < hi) ==> r'[p] == r[p]
  }

  // A window `c` of `r` is replaced by `c'`, in which a word was added to; then the
  // same word was added to in `r`.
  lemma AddInWindow(r: seq<byte>, r': seq<byte>, c: seq<byte>, at: nat, off: nat, w: nat, d: int)
    requires off + w <= |c| && at + |c| <= |r|
    requires HasWindow(r, at, c) && HasWindow(r', at, AddAt(c, off, w, d)) && SameOutside(r, r', at, at + |c|)
    ensures r' == AddAt(r, at + off, w, d)
  {
    hide Splice, EncodeLE, Wrap;
    WindowPart(r, at, |c|, off, w);
    SpliceInWindow(r, r', c, at, off, EncodeLE(Wrap(WordAt(c, off, w) + d, w), w));
  }

  lemma WindowPart(r: seq<byte>, at: nat, n: nat, off: nat, w: nat)
    requires off + w <= n && at + n <= |r|
    ensures r[at + off..at + off + w] == r[at..at + n][off..off + w]
  {
    var x, y := r[at + off..at + off + w], r[at..at + n][off..off + w];
    assert forall q :: 0 <= q < w ==> x[q] == y[q];
  }

  lemma SpliceInWindow(r: seq<byte>, r': seq<byte>, c: seq<byte>, at: nat, off: nat, v: seq<byte>)
    requires |r| == |r'| && at + |c| <= |r| && off + |v| <= |c|
    requires r[at..at + |c|] == c && r'[at..at + |c|] == Splice(c, off, v) && SameOutside(r, r', at, at + |c|)
    ensures r' == Splice(r, at + off, v)
  {
    hide Splice;
    forall p | 0 <= p < |r| ensures r'[p] == Splice(r, at + off, v)[p] {
      if at <= p < at + |c| {
        assert r'[p] == r'[at..at + |c|][p - at] && r[p] == r[at..at + |c|][p - at];
      }
    }
  }

  lemma SectionImage(t: Target, ss: seq<Section>, addrs: seq<nat>, img: seq<byte>, i: nat, q: nat)
    requires Fits(t, ss, addrs, |img|) && KeptDisjoint(t, ss, addrs)
    requires i < |ss| && IsKept(t, ss[i]) && ss[i].kind != NoBits && q < |ss[i].contents|
    ensures CopyIn(t, ss, addrs, IndexOrder(|ss|), img)[addrs[i] + q] == ss[i].contents[q]
  {
    assert IndexOrder(|ss|)[i] == i;
    SectionByte(t, ss, addrs, IndexOrder(|ss|), img, i, addrs[i] + q);
  }

  // Two copies that differ in a word of section `i`: inside the section each byte is the
  // section's own ...
  ghost predicate CopyHolds(t: Target, ss: seq<Section>, addrs: seq<nat>, img: seq<byte>, i: nat) {
    Fits(t, ss, addrs, |img|) && i < |ss| && HasWindow(CopyIn(t, ss, addrs, IndexOrder(|ss|), img), addrs[i], ss[i].contents)
  }

  lemma CopyHoldsSection(t: Target, ss: seq<Section>, addrs: seq<nat>, img: seq<byte>, i: nat)
    requires Fits(t, ss, addrs, |img|) && KeptDisjoint(t, ss, addrs) && i < |ss| && IsKept(t, ss[i]) && ss[i].kind != NoBits
    ensures CopyHolds(t, ss, addrs, img, i)
  {
    hide KeptDisjoint, CopyIn, IsKept;
    assert ValidSection(ss[i]);
    var r, c := CopyIn(t, ss, addrs, IndexOrder(|ss|), img), ss[i].contents;
    forall q | 0 <= q < |c| ensures r[addrs[i]..addrs[i] + |c|][q] == c[q] {
      SectionImage(t, ss, addrs, img, i, q);
    }
  }

  // ... and outside they agree.
  ghost predicate CopiesAgree(t: Target, ss: seq<Section>, ss': seq<Section>, addrs: seq<nat>, img: seq<byte>, i: nat) {
    && Fits(t, ss, addrs, |img|) && Fits(t, ss', addrs, |img|) && |ss| == |ss'| && i < |ss|
    && SameOutside(CopyIn(t, ss, addrs, IndexOrder(|ss|), img), CopyIn(t, ss', addrs, IndexOrder(|ss|), img),
                   addrs[i], addrs[i] + |ss[i].contents|)
  }

  lemma CopyOutsidePatched(t: Target, ss: seq<Section>, ss': seq<Section>, addrs: seq<nat>, img: seq<byte>, i: nat)
    requires Fits(t, ss, addrs, |img|) && KeptDisjoint(t, ss, addrs) && Fits(t, ss', addrs, |img|) && KeptDisjoint(t, ss', addrs)
    requires SameHeaders(ss, ss') && i < |ss| && forall j :: 0 <= j < |ss| && j != i ==> ss[j] == ss'[j]
    requires IsKept(t, ss[i]) && ss[i].kind != NoBits
    ensures CopiesAgree(t, ss, ss', addrs, img, i)
  {
    assert ValidSection(ss[i]);
    hide KeptDisjoint, CopyIn, IsKept, SameHeaders;
    forall p | 0 <= p < |img| && !(addrs[i] <= p < addrs[i] + |ss[i].contents|)
      ensures CopyIn(t, ss', addrs, IndexOrder(|ss|), img)[p] == CopyIn(t, ss, addrs, IndexOrder(|ss|), img)[p]
    {
      CopyElsewhere(t, ss, ss', addrs, img, i, p);
    }
  }

  // The second copy is the first with d added to the word at `at`.
  ghost predicate CopyAdds(t: Target, ss: seq<Section>, ss': seq<Section>, addrs: seq<nat>, img: seq<byte>, at: nat, w: nat, d: int) {
    && Fits(t, ss, addrs, |img|) && Fits(t, ss', addrs, |img|) && |ss| == |ss'| && at + w <= |img|
    && CopyIn(t, ss', addrs, IndexOrder(|ss|), img) == AddAt(CopyIn(t, ss, addrs, IndexOrder(|ss|), img), at, w, d)
  }

  lemma CopiesAdd(t: Target, ss: seq<Section>, ss': seq<Section>, addrs: seq<nat>, img: seq<byte>, i: nat, off: nat, w: nat, d: int)
    requires CopyHolds(t, ss, addrs, img, i) && CopyHolds(t, ss', addrs, img, i) && CopiesAgree(t, ss, ss', addrs, img, i)
    requires off + w <= |ss[i].contents| && ss'[i].contents == AddAt(ss[i].contents, off, w, d)
    ensures CopyAdds(t, ss, ss', addrs, img, addrs[i] + off, w, d)
  {
    assert |ss| == |addrs|;
    hide CopyIn, AddAt, SameOutside, Fits;
    AddInWindow(CopyIn(t, ss, addrs, IndexOrder(|ss|), img), CopyIn(t, ss', addrs, IndexOrder(|ss|), img),
                ss[i].contents, addrs[i], off, w, d);
  }

  // Patching a word in a kept section and then copying is copying and then patching.
  lemma CopyOfPatched(t: Target, ss: seq<Section>, ss': seq<Section>, addrs: seq<nat>, img: seq<byte>, i: nat, off: nat, w: nat, d: int)
    requires Fits(t, ss, addrs, |img|) && KeptDisjoint(t, ss, addrs) && Fits(t, ss', addrs, |img|)
    requires i < |ss| && IsKept(t, ss[i]) && ss[i].kind != NoBits && off + w <= |ss[i].contents|
    requires ss' == Patched(ss, i, off, w, d)
    ensures CopyAdds(t, ss, ss', addrs, img, addrs[i] + off, w, d)
  {
    assert ss'[i].contents == AddAt(ss[i].contents, off, w, d) && ss'[i].kind == ss[i].kind;
    assert (forall j :: 0 <= j < |ss| && j != i ==> ss[j] == ss'[j]) && |ss| == |addrs|;
    hide *;
    DisjointSameHeaders(t, ss, ss', addrs);
    KeptSameHeaders(t, ss, ss', i);
    CopyHoldsSection(t, ss, addrs, img, i);
    CopyHoldsSection(t, ss', addrs, img, i);
    CopyOutsidePatched(t, ss, ss', addrs, img, i);
    CopiesAdd(t, ss, ss', addrs, img, i, off, w, d);
  }

  lemma FitsSameHeaders(t: Target, a: seq<Section>, b: seq<Section>, addrs: seq<nat>, size: nat)
    requires Fits(t, a, addrs, size) && SameHeaders(a, b)
    ensures Fits(t, b, addrs, size)
  {
    assert forall i :: 0 <= i < |a| ==> IsKept(t, a[i]) == IsKept(t, b[i]) && ValidSection(a[i]) == ValidSection(b[i]);
  }

  lemma {:induction false} CopyIgnoresUnkept(t: Target, a: seq<Section>, b: seq<Section>, addrs: seq<nat>, order: seq<nat>, img: seq<byte>)
    requires SameHeaders(a, b) && Fits(t, a, addrs, |img|) && Fits(t, b, addrs, |img|)
    requires forall m :: 0 <= m < |order| ==> order[m] < |a|
    requires forall j :: 0 <= j < |a| && IsKept(t, a[j]) ==> a[j] == b[j]
    ensures CopyIn(t, a, addrs, order, img) == CopyIn(t, b, addrs, order, img)
    decreases |order|
  {
    if order != [] {
      CopyIgnoresUnkept(t, a, b, addrs, order[..|order| - 1], img);
    }
  }

  // Relocating the section contents and copying them out gives the relocated image.
  lemma {:induction false} ImageOfRelocated(t: Target, k: Kernel, n: nat, img: seq<byte>)
    requires ValidKernel(t, k) && n <= |k.relocs| && KeptDisjoint(t, k.sections, k.addrs)
    requires forall i :: 0 <= i < |k.relocs| ==> NamedAfterTarget(k, k.relocs[i])
    requires Fits(t, k.sections, k.addrs, |img|)
    requires Relocated(t, k, n).Some?
    ensures Fits(t, Relocated(t, k, n).value, k.addrs, |img|)
    ensures Output(t, k, Relocated(t, k, n).value, img) == Flat(t, k, n, Output(t, k, k.sections, img))
    decreases n
  {
    hide CopyIn, Patch, FlatStep, FindSection, HasPrefix, IsKept, EffectOf, Delta, KeptDisjoint, Output;
    if n > 0 {
      ImageOfRelocated(t, k, n - 1, img);
      var it := k.relocs[n - 1];
      var ss := Relocated(t, k, n - 1).value;
      assert ValidReloc(t.machine, k, it) && NamedAfterTarget(k, it);
      TranslatedIffTargetKept(t, k, it);
      DisjointSameHeaders(t, k.sections, ss, k.addrs);
      PatchStep(t, k, ss, it, img);
    }
  }

  lemma PatchStep(t: Target, k: Kernel, ss: seq<Section>, r: Reloc, img: seq<byte>)
    requires ValidKernel(t, k) && ValidReloc(t.machine, k, r) && Fits(t, k.sections, k.addrs, |img|)
    requires SameHeaders(k.sections, ss) && KeptDisjoint(t, ss, k.addrs) && Fits(t, ss, k.addrs, |img|)
    requires Translated(t, k, r) <==> IsKept(t, k.sections[r.target])
    ensures Fits(t, Patch(t, k, r, ss), k.addrs, |img|)
    ensures Output(t, k, Patch(t, k, r, ss), img) == FlatStep(t, k, r, Output(t, k, ss, img))
  {
    KeptSameHeaders(t, k.sections, ss, r.target);
    PatchKeepsHeaders(t, k, r, ss);
    FitsSameHeaders(t, ss, Patch(t, k, r, ss), k.addrs, |img|);
    if IsKept(t, k.sections[r.target]) {
      PatchKept(t, k, ss, r, img);
    } else {
      CopyIgnoresUnkept(t, ss, Patch(t, k, r, ss), k.addrs, IndexOrder(|ss|), img);
    }
  }

  lemma PatchKept(t: Target, k: Kernel, ss: seq<Section>, r: Reloc, img: seq<byte>)
    requires ValidKernel(t, k) && ValidReloc(t.machine, k, r) && Fits(t, k.sections, k.addrs, |img|)
    requires SameHeaders(k.sections, ss) && KeptDisjoint(t, ss, k.addrs) && Fits(t, ss, k.addrs, |img|)
    requires Fits(t, Patch(t, k, r, ss), k.addrs, |img|)
    requires Translated(t, k, r) && IsKept(t, ss[r.target]) && IsKept(t, k.sections[r.target])
    ensures Output(t, k, Patch(t, k, r, ss), img) == FlatStep(t, k, r, Output(t, k, ss, img))
  {
    hide CopyIn, AddAt, IsKept, EffectOf, KeptDisjoint, Delta;
    var w, d := Width(t.machine, r), Delta(t, k, r);
    KeptSameHeaders(t, k.sections, ss, r.target);
    assert Patch(t, k, r, ss) == Patched(ss, r.target, r.offset, w, d);
    CopyOfPatched(t, ss, Patch(t, k, r, ss), k.addrs, img, r.target, r.offset, w, d);
    if w == 0 {
      AddNothing(Output(t, k, ss, img), Place(k, r), d);
    }
  }

  lemma KeptSameHeaders(t: Target, a: seq<Section>, b: seq<Section>, i: nat)
    requires SameHeaders(a, b) && i < |a|
    ensures IsKept(t, a[i]) == IsKept(t, b[i]) && a[i].kind == b[i].kind && |a[i].contents| == |b[i].contents|
  {
    assert b[i].(contents := a[i].contents) == a[i];
  }

  lemma PatchKeepsHeaders(t: Target, k: Kernel, r: Reloc, ss: seq<Section>)
    requires ValidKernel(t, k) && ValidReloc(t.machine, k, r) && SameHeaders(k.sections, ss)
    ensures SameHeaders(ss, Patch(t, k, r, ss))
  {
  }

  lemma AddNothing(img: seq<byte>, at: nat, d: int)
    requires at <= |img|
    ensures AddAt(img, at, 0, d) == img
  {
    assert EncodeLE(Wrap(WordAt(img, at, 0) + d, 0), 0) == [];
  }

  /* ---- relocating commutes with loading ---- */

  ghost predicate SectionSymbol(k: Kernel, r: Reloc)
    requires r.symbol < |k.symbols|
  {
    k.symbols[r.symbol].home.InSection?
  }

  ghost predicate SectionSymbols(t: Target, k: Kernel)
    requires ValidKernel(t, k)
  {
    forall i :: 0 <= i < |k.relocs| && Matters(t, k, k.relocs[i]) ==> SectionSymbol(k, k.relocs[i])
  }

  // Moving the image by `base` moves the relocation's symbol along, or cannot be told from
  // not moving it in a word of that width.
  ghost predicate MovesAlong(t: Target, k: Kernel, r: Reloc, base: nat)
    requires r.symbol < |k.symbols|
  {
    SectionSymbol(k, r) || SameModulo(base, 0, Width(t.machine, r))
  }

  ghost predicate AllMoveAlong(t: Target, k: Kernel, base: nat)
    requires ValidKernel(t, k)
  {
    forall i :: 0 <= i < |k.relocs| && Matters(t, k, k.relocs[i]) ==> MovesAlong(t, k, k.relocs[i], base)
  }

  predicate IsX86(t: Target) {
    t.machine == Em386 || t.machine == EmX8664
  }

  lemma ValidAtBase(t: Target, k: Kernel, base: nat)
    requires ValidKernel(t, k)
    ensures ValidKernel(AtBase(t, base), k)
  {
    forall i | 0 <= i < |k.symbols| ensures SymbolAddress(AtBase(t, base), k, k.symbols[i]).Some? {
      assert SymbolAddress(t, k, k.symbols[i]).Some?;
    }
  }

  lemma FitsAtBase(t: Target, ss: seq<Section>, addrs: seq<nat>, size: nat, base: nat)
    requires Fits(t, ss, addrs, size)
    ensures Fits(AtBase(t, base), ss, addrs, size)
  {
    assert forall i :: 0 <= i < |ss| ==> IsKept(AtBase(t, base), ss[i]) == IsKept(t, ss[i]);
  }

  lemma MultipleOfMultiple(x: int, big: int, small: int)
    requires big > 0 && small > 0 && x % big == 0 && big % small == 0
    ensures x % small == 0
  {
    DivMod(x, big);
    DivMod(big, small);
    MultipleHasNoRemainder(x / big * (big / small), small);
    assert x == x / big * (big / small) * small by {
      assert x / big * big == x / big * (big / small * small);
    }
  }

  lemma WordDividesAddressSpace(t: Target, r: Reloc)
    requires IsX86(t) && Width(t.machine, r) > 0
    ensures AddressSpace(t) % Pow256(Width(t.machine, r)) == 0
  {
    Powers();
  }

  // A section-defined symbol moves with the base; every other symbol stays.
  lemma SymbolShift(t: Target, k: Kernel, s: Symbol, base: nat, m: int)
    requires m > 0 && AddressSpace(t) % m == 0
    requires SymbolAddress(t, k, s).Some?
    ensures SymbolAddress(AtBase(t, base), k, s).Some?
    ensures var d := SymbolAddress(AtBase(t, base), k, s).value - SymbolAddress(t, k, s).value;
            if s.home.InSection? then (d - base) % m == 0 else d == 0
  {
    if s.home.InSection? {
      var x := s.value + (k.addrs[s.home.index] + t.vaddrOffset);
      var a := AddressSpace(t);
      ModIdempotent(x, a);
      ModIdempotent(x + base, a);
      assert s.value + (k.addrs[s.home.index] + (t.vaddrOffset + base)) == x + base;
      SumOfMultiples((x + base) % a - (x + base), x % a - x, a);
      var d := (x + base) % a - x % a;
      assert (x + base) % a - (x + base) - (x % a - x) == d - base;
      MultipleOfMultiple(d - base, a, m);
    }
  }

  // How the amount added changes with the base.
  lemma DeltaShift(t: Target, k: Kernel, r: Reloc, base: nat)
    requires IsX86(t) && ValidKernel(t, k) && ValidReloc(t.machine, k, r) && Width(t.machine, r) > 0
    ensures ValidKernel(AtBase(t, base), k)
    ensures var moved := Delta(AtBase(t, base), k, r) - Delta(t, k, r);
            var expected := if EffectOf(t.machine, r.kind).Direct? then base else 0;
            if SectionSymbol(k, r) then SameModulo(moved, expected, Width(t.machine, r))
            else moved == expected - base
  {
    ValidAtBase(t, k, base);
    WordDividesAddressSpace(t, r);
    SymbolShift(t, k, k.symbols[r.symbol], base, Pow256(Width(t.machine, r)));
  }

  // Relocations that reach the output and are direct get exactly one fixup, for
  // their own word; all others get none.
  lemma FixupsOfReloc(t: Target, k: Kernel, r: Reloc)
    requires IsX86(t) && |k.sections| == |k.addrs| && r.target < |k.sections| && NamedAfterTarget(k, r)
    requires FixupFor(t, k, r).Some?
    ensures var fs := FixupFor(t, k, r).value;
            if Matters(t, k, r) && EffectOf(t.machine, r.kind).Direct? then
              |fs| == 1 && fs[0].addr == Place(k, r) + t.vaddrOffset && FixupWidth(fs[0].kind) == Width(t.machine, r)
            else fs == []
  {
    TranslatedIffTargetKept(t, k, r);
  }

  ghost predicate Clear(f: F.Fixup, vaddrOffset: nat, at: nat, w: nat) {
    f.addr >= vaddrOffset
    && (f.addr - vaddrOffset + FixupWidth(f.kind) <= at || at + w <= f.addr - vaddrOffset)
  }

  ghost predicate AllClear(fs: seq<F.Fixup>, vaddrOffset: nat, at: nat, w: nat) {
    forall i :: 0 <= i < |fs| ==> Clear(fs[i], vaddrOffset, at, w)
  }

  lemma {:induction false} ApplyCommutes(img: seq<byte>, fs: seq<F.Fixup>, vaddrOffset: nat, base: int, at: nat, w: nat, d: int)
    requires at + w <= |img| && AllClear(fs, vaddrOffset, at, w)
    ensures ApplyFixups(AddAt(img, at, w, d), fs, vaddrOffset, base) == AddAt(ApplyFixups(img, fs, vaddrOffset, base), at, w, d)
    decreases |fs|
  {
    if fs != [] {
      var f := fs[|fs| - 1];
      ApplyCommutes(img, fs[..|fs| - 1], vaddrOffset, base, at, w, d);
      assert Clear(f, vaddrOffset, at, w);
      if f.addr - vaddrOffset + FixupWidth(f.kind) <= |img| {
        AddAtCommute(ApplyFixups(img, fs[..|fs| - 1], vaddrOffset, base), at, w, d,
                     f.addr - vaddrOffset, FixupWidth(f.kind), base);
      }
    }
  }

  // Fixups of the first `n` relocations stay clear of any other relocation's word.
  lemma {:induction false} FixupsClear(t: Target, k: Kernel, n: nat, r: Reloc)
    requires IsX86(t) && ValidKernel(t, k) && n <= |k.relocs| && r.target < |k.addrs|
    requires forall i :: 0 <= i < |k.relocs| ==> NamedAfterTarget(k, k.relocs[i])
    requires Fixups(t, k, n).Some?
    requires forall i :: 0 <= i < n && Matters(t, k, k.relocs[i]) ==> Apart(t, k, k.relocs[i], r)
    ensures AllClear(Fixups(t, k, n).value, t.vaddrOffset, Place(k, r), Width(t.machine, r))
    decreases n
  {
    hide NamedAfterTarget, FixupFor, EffectOf, SymbolAddress, IsKept;
    if n > 0 {
      FixupsClear(t, k, n - 1, r);
      var q := k.relocs[n - 1];
      assert ValidReloc(t.machine, k, q) && NamedAfterTarget(k, q);
      FixupsOfReloc(t, k, q);
      assert AllClear(FixupFor(t, k, q).value, t.vaddrOffset, Place(k, r), Width(t.machine, r));
    }
  }

  // Applying the fixups for `n` relocations to the image relocated `n` times at 0.
  ghost function Loaded(t: Target, k: Kernel, n: nat, img: seq<byte>, base: int): (r: seq<byte>)
    requires ValidKernel(t, k) && n <= |k.relocs| && Fits(t, k.sections, k.addrs, |img|) && Fixups(t, k, n).Some?
    ensures |r| == |img|
  {
    ApplyFixups(Flat(t, k, n, img), Fixups(t, k, n).value, t.vaddrOffset, base)
  }

  // The effect of one relocation after loading: a direct one adds its amount and
  // the base, a relative one its amount only.
  ghost function LoadStep(t: Target, k: Kernel, r: Reloc, img: seq<byte>, base: int): (img': seq<byte>)
    requires ValidKernel(t, k) && ValidReloc(t.machine, k, r) && Fits(t, k.sections, k.addrs, |img|)
    ensures |img'| == |img|
  {
    if Matters(t, k, r)
    then AddAt(img, Place(k, r), Width(t.machine, r), Delta(t, k, r) + Extra(t, r, base)) else img
  }

  function Extra(t: Target, r: Reloc, base: int): int {
    if EffectOf(t.machine, r.kind).Direct? then base else 0
  }

  lemma ApplyAppend(img: seq<byte>, fs: seq<F.Fixup>, f: F.Fixup, vaddrOffset: nat, base: int)
    ensures ApplyFixups(img, fs + [f], vaddrOffset, base)
         == ApplyFixup(ApplyFixups(img, fs, vaddrOffset, base), f, vaddrOffset, base)
  {
    assert (fs + [f])[..|fs|] == fs;
  }

  // Relocating one word and then loading, with `last` the fixups of that word.
  lemma LoadWord(img: seq<byte>, fs: seq<F.Fixup>, last: seq<F.Fixup>, vaddrOffset: nat, base: int, at: nat, w: nat, d: int)
    requires at + w <= |img| && AllClear(fs, vaddrOffset, at, w)
    requires last == [] || (|last| == 1 && last[0].addr == at + vaddrOffset && FixupWidth(last[0].kind) == w)
    ensures ApplyFixups(AddAt(img, at, w, d), fs + last, vaddrOffset, base)
         == AddAt(ApplyFixups(img, fs, vaddrOffset, base), at, w, d + if last == [] then 0 else base)
  {
    hide AddAt;
    ApplyCommutes(img, fs, vaddrOffset, base, at, w, d);
    if last == [] {
      assert fs + last == fs;
    } else {
      assert last == [last[0]];
      ApplyAppend(AddAt(img, at, w, d), fs, last[0], vaddrOffset, base);
      AddAtTwice(ApplyFixups(img, fs, vaddrOffset, base), at, w, d, base);
    }
  }

  ghost predicate Conventional(t: Target, k: Kernel)
    requires ValidKernel(t, k)
  {
    forall i :: 0 <= i < |k.relocs| ==> NamedAfterTarget(k, k.relocs[i])
  }

  lemma EarlierApart(t: Target, k: Kernel, n: nat)
    requires ValidKernel(t, k) && n < |k.relocs| && DisjointSites(t, k) && Matters(t, k, k.relocs[n])
    ensures forall i :: 0 <= i < n && Matters(t, k, k.relocs[i]) ==> Apart(t, k, k.relocs[i], k.relocs[n])
  {
    hide Matters, Apart;
  }

  lemma LoadedStep(t: Target, k: Kernel, n: nat, img: seq<byte>, base: int)
    requires IsX86(t) && ValidKernel(t, k) && 0 < n <= |k.relocs| && Fits(t, k.sections, k.addrs, |img|)
    requires Fixups(t, k, n).Some? && DisjointSites(t, k) && Conventional(t, k)
    ensures Loaded(t, k, n, img, base) == LoadStep(t, k, k.relocs[n - 1], Loaded(t, k, n - 1, img, base), base)
  {
    hide AddAt, NamedAfterTarget, EffectOf, FixupFor, SymbolAddress, IsKept, ApplyFixups, Delta;
    var r := k.relocs[n - 1];
    assert ValidReloc(t.machine, k, r) && NamedAfterTarget(k, r);
    FixupsOfReloc(t, k, r);
    var fs := Fixups(t, k, n - 1).value;
    var last := FixupFor(t, k, r).value;
    if Matters(t, k, r) {
      EarlierApart(t, k, n - 1);
      FixupsClear(t, k, n - 1, r);
      hide Apart, Fixups;
      LoadWord(Flat(t, k, n - 1, img), fs, last, t.vaddrOffset, base, Place(k, r), Width(t.machine, r), Delta(t, k, r));
    } else {
      assert fs + last == fs;
    }
  }

  lemma SameModuloShift(d: int, e: int, c: int, w: nat)
    requires SameModulo(d, e, w)
    ensures SameModulo(d + c, e + c, w)
  {
    assert (d + c) - (e + c) == d - e;
  }

  lemma LessBase(x: int, base: nat, w: nat)
    requires SameModulo(base, 0, w)
    ensures SameModulo(x - base, x, w)
  {
    SumOfMultiples(0, base, Pow256(w));
    MultipleHasNoRemainder(0, Pow256(w));
    assert x - base - x == 0 - base;
  }

  lemma DirectStep(t: Target, k: Kernel, r: Reloc, img: seq<byte>, base: nat)
    requires IsX86(t) && ValidKernel(t, k) && ValidReloc(t.machine, k, r) && Fits(t, k.sections, k.addrs, |img|)
    requires ValidKernel(AtBase(t, base), k) && Fits(AtBase(t, base), k.sections, k.addrs, |img|)
    requires Matters(t, k, r) ==> MovesAlong(t, k, r, base)
    ensures LoadStep(t, k, r, img, base) == FlatStep(AtBase(t, base), k, r, img)
  {
    hide AddAt, SameModulo, Pow256;
    if Matters(t, k, r) {
      DeltaShift(t, k, r, base);
      if !SectionSymbol(k, r) { LessBase(Extra(t, r, base), base, Width(t.machine, r)); }
      var d, d' := Delta(t, k, r) + Extra(t, r, base), Delta(AtBase(t, base), k, r);
      SameModuloShift(d' - Delta(t, k, r), Extra(t, r, base), Delta(t, k, r), Width(t.machine, r));
      AddAtModulo(img, Place(k, r), Width(t.machine, r), d', d);
    }
  }

  lemma {:induction false} LoadedIsDirect(t: Target, k: Kernel, n: nat, img: seq<byte>, base: nat)
    requires IsX86(t) && ValidKernel(t, k) && n <= |k.relocs| && Fits(t, k.sections, k.addrs, |img|)
    requires Fixups(t, k, n).Some? && DisjointSites(t, k) && Conventional(t, k) && AllMoveAlong(t, k, base)
    requires ValidKernel(AtBase(t, base), k) && Fits(AtBase(t, base), k.sections, k.addrs, |img|)
    ensures Loaded(t, k, n, img, base) == Flat(AtBase(t, base), k, n, img)
    decreases n
  {
    hide AddAt, LoadStep, FlatStep, NamedAfterTarget, FixupFor, EffectOf, SymbolAddress, IsKept, ApplyFixups, MovesAlong, Loaded;
    if n > 0 {
      LoadedIsDirect(t, k, n - 1, img, base);
      LoadedStep(t, k, n, img, base);
      assert ValidReloc(t.machine, k, k.relocs[n - 1]);
      DirectStep(t, k, k.relocs[n - 1], Loaded(t, k, n - 1, img, base), base);
    } else {
      LoadedNone(t, k, img, base);
    }
  }

  /* ---- and only then ---- */

  lemma OtherWord(t: Target, k: Kernel, i: nat, j: nat, img: seq<byte>, d: int)
    requires ValidKernel(t, k) && DisjointSites(t, k) && Fits(t, k.sections, k.addrs, |img|)
    requires i < |k.relocs| && j < |k.relocs| && i != j && Matters(t, k, k.relocs[i]) && Matters(t, k, k.relocs[j])
    ensures WordAt(AddAt(img, Place(k, k.relocs[j]), Width(t.machine, k.relocs[j]), d), Place(k, k.relocs[i]), Width(t.machine, k.relocs[i]))
         == WordAt(img, Place(k, k.relocs[i]), Width(t.machine, k.relocs[i]))
  {
    hide AddAt, WordAt, EffectOf;
    var r, q := k.relocs[i], k.relocs[j];
    if j < i { assert Apart(t, k, q, r); } else { assert Apart(t, k, r, q); }
    AddAtElsewhere(img, Place(k, q), Width(t.machine, q), d, Place(k, r), Width(t.machine, r));
  }

  // The word of relocation `i` after `n` relocations, none of which overlap it.
  lemma {:induction false} FlatWord(t: Target, k: Kernel, n: nat, img: seq<byte>, i: nat)
    requires ValidKernel(t, k) && n <= |k.relocs| && i < |k.relocs| && Fits(t, k.sections, k.addrs, |img|)
    requires DisjointSites(t, k) && Matters(t, k, k.relocs[i])
    ensures var r := k.relocs[i];
            var w := Width(t.machine, r);
            WordAt(Flat(t, k, n, img), Place(k, r), w)
            == if i < n then Wrap(WordAt(img, Place(k, r), w) + Delta(t, k, r), w) else WordAt(img, Place(k, r), w)
    decreases n
  {
    hide AddAt, Wrap, WordAt, Delta, Apart, EffectOf;
    if n > 0 {
      FlatWord(t, k, n - 1, img, i);
      var q := k.relocs[n - 1];
      if Matters(t, k, q) {
        if n - 1 == i {
          WordAfterAdd(Flat(t, k, n - 1, img), Place(k, q), Width(t.machine, q), Delta(t, k, q));
        } else {
          OtherWord(t, k, i, n - 1, Flat(t, k, n - 1, img), Delta(t, k, q));
        }
      }
    }
  }

  lemma {:induction false} LoadedWord(t: Target, k: Kernel, n: nat, img: seq<byte>, base: int, i: nat)
    requires IsX86(t) && ValidKernel(t, k) && n <= |k.relocs| && i < |k.relocs| && Fits(t, k.sections, k.addrs, |img|)
    requires Fixups(t, k, n).Some? && DisjointSites(t, k) && Conventional(t, k) && Matters(t, k, k.relocs[i])
    ensures var r := k.relocs[i];
            var w := Width(t.machine, r);
            WordAt(Loaded(t, k, n, img, base), Place(k, r), w)
            == if i < n then Wrap(WordAt(img, Place(k, r), w) + (Delta(t, k, r) + Extra(t, r, base)), w)
               else WordAt(img, Place(k, r), w)
    decreases n
  {
    hide AddAt, Wrap, WordAt, NamedAfterTarget, EffectOf, Delta, Apart, Extra, Loaded, FixupFor, SymbolAddress, IsKept;
    if n > 0 {
      LoadedWord(t, k, n - 1, img, base, i);
      LoadedStep(t, k, n, img, base);
      var q := k.relocs[n - 1];
      var before := Loaded(t, k, n - 1, img, base);
      if Matters(t, k, q) {
        var d := Delta(t, k, q) + Extra(t, q, base);
        if n - 1 == i {
          WordAfterAdd(before, Place(k, q), Width(t.machine, q), d);
        } else {
          OtherWord(t, k, i, n - 1, before, d);
        }
      }
    } else {
      LoadedNone(t, k, img, base);
    }
  }

  lemma LoadedNone(t: Target, k: Kernel, img: seq<byte>, base: int)
    requires ValidKernel(t, k) && Fits(t, k.sections, k.addrs, |img|)
    ensures Loaded(t, k, 0, img, base) == img
  {
  }

  lemma DisjointAtBase(t: Target, k: Kernel, base: nat)
    requires ValidKernel(t, k) && ValidKernel(AtBase(t, base), k) && DisjointSites(t, k)
    ensures DisjointSites(AtBase(t, base), k)
  {
    forall i, j | 0 <= i < j < |k.relocs| && Matters(AtBase(t, base), k, k.relocs[i]) && Matters(AtBase(t, base), k, k.relocs[j])
      ensures Apart(AtBase(t, base), k, k.relocs[i], k.relocs[j])
    {
      assert Matters(t, k, k.relocs[i]) && Matters(t, k, k.relocs[j]);
      assert Apart(t, k, k.relocs[i], k.relocs[j]);
    }
  }

  // A relocation against an absolute or undefined symbol is wrong after loading, unless the
  // base is a multiple of what its word can hold.
  lemma StraySymbolShows(t: Target, k: Kernel, img: seq<byte>, base: nat, i: nat)
    requires IsX86(t) && ValidKernel(t, k) && Fits(t, k.sections, k.addrs, |img|)
    requires ValidKernel(AtBase(t, base), k) && Fits(AtBase(t, base), k.sections, k.addrs, |img|)
    requires Fixups(t, k, |k.relocs|).Some? && DisjointSites(t, k) && Conventional(t, k)
    requires i < |k.relocs| && Matters(t, k, k.relocs[i]) && !MovesAlong(t, k, k.relocs[i], base)
    ensures Loaded(t, k, |k.relocs|, img, base) != Flat(AtBase(t, base), k, |k.relocs|, img)
  {
    hide WordAt, Wrap, Flat, Loaded, EffectOf, Pow256, NamedAfterTarget, Delta, SymbolAddress, DisjointSites, Fixups, Apart;
    hide SameModulo, Conventional;
    var r := k.relocs[i];
    var w := Width(t.machine, r);
    assert Matters(AtBase(t, base), k, r) && Width(AtBase(t, base).machine, r) == w;
    hide Matters;
    LoadedWord(t, k, |k.relocs|, img, base, i);
    DisjointAtBase(t, k, base);
    FlatWord(AtBase(t, base), k, |k.relocs|, img, i);
    DeltaShift(t, k, r, base);
    var d, d' := Delta(t, k, r) + Extra(t, r, base), Delta(AtBase(t, base), k, r);
    SameDifference(d, d', base, w);
    WrapDiffers(WordAt(img, Place(k, r), w), d, d', w);
  }

  lemma SameDifference(d: int, e: int, base: nat, w: nat)
    requires d - e == base
    ensures SameModulo(d, e, w) == SameModulo(base, 0, w)
  {
  }

  /* ---- the whole pipeline ---- */

  // Linking: relocate all sections, copy them out.
  ghost function Linked(t: Target, k: Kernel, img: seq<byte>): (r: seq<byte>)
    requires ValidKernel(t, k) && Fits(t, k.sections, k.addrs, |img|) && Relocated(t, k, |k.relocs|).Some?
    ensures |r| == |img|
  {
    FitsSameHeaders(t, k.sections, Relocated(t, k, |k.relocs|).value, k.addrs, |img|);
    Output(t, k, Relocated(t, k, |k.relocs|).value, img)
  }

  lemma {:induction false} RelocatesAtBase(t: Target, k: Kernel, base: nat, n: nat)
    requires ValidKernel(t, k) && ValidKernel(AtBase(t, base), k) && n <= |k.relocs|
    ensures Relocated(AtBase(t, base), k, n).Some? == Relocated(t, k, n).Some?
    decreases n
  {
    hide Applied, Patch, EffectOf, SymbolAddress, SameHeaders;
    if n > 0 {
      RelocatesAtBase(t, k, base, n - 1);
      AppliedAtBase(t, k, k.relocs[n - 1], base);
    }
  }

  lemma AppliedAtBase(t: Target, k: Kernel, r: Reloc, base: nat)
    ensures Applied(AtBase(t, base), k, r) == Applied(t, k, r)
  {
    hide FindSection, HasPrefix;
    var b := AtBase(t, base);
    assert IsKept(b, r.header) == IsKept(t, r.header);
    forall name: string ensures KeptByName(b, k.sections, name) == KeptByName(t, k.sections, name) {
    }
  }

  lemma {:induction false} CopyAtBase(t: Target, ss: seq<Section>, addrs: seq<nat>, order: seq<nat>, img: seq<byte>, base: nat)
    requires Fits(t, ss, addrs, |img|) && Fits(AtBase(t, base), ss, addrs, |img|)
    requires forall m :: 0 <= m < |order| ==> order[m] < |ss|
    ensures CopyIn(AtBase(t, base), ss, addrs, order, img) == CopyIn(t, ss, addrs, order, img)
    decreases |order|
  {
    if order != [] {
      CopyAtBase(t, ss, addrs, order[..|order| - 1], img, base);
      assert IsKept(AtBase(t, base), ss[order[|order| - 1]]) == IsKept(t, ss[order[|order| - 1]]);
    }
  }

  lemma LinkedIsFlat(t: Target, k: Kernel, tramp: nat, img: seq<byte>)
    requires Linkable(t, k, tramp) && Fits(t, k.sections, k.addrs, |img|)
    ensures Linked(t, k, img) == Flat(t, k, |k.relocs|, Output(t, k, k.sections, img))
  {
    PlacementIsDisjoint(t, k.sections, tramp, k.addrs, k.layout);
    ImageOfRelocated(t, k, |k.relocs|, img);
  }

  lemma LinkedAtBaseIsFlat(t: Target, k: Kernel, tramp: nat, img: seq<byte>, base: nat)
    requires Linkable(t, k, tramp) && Fits(t, k.sections, k.addrs, |img|)
    ensures ValidKernel(AtBase(t, base), k) && Fits(AtBase(t, base), k.sections, k.addrs, |img|)
    ensures Relocated(AtBase(t, base), k, |k.relocs|).Some?
    ensures Linked(AtBase(t, base), k, img) == Flat(AtBase(t, base), k, |k.relocs|, Output(t, k, k.sections, img))
  {
    hide Placed, Flat, Relocated, NamedAfterTarget;
    ValidAtBase(t, k, base);
    FitsAtBase(t, k.sections, k.addrs, |img|, base);
    RelocatesAtBase(t, k, base, |k.relocs|);
    PlacementIsDisjoint(t, k.sections, tramp, k.addrs, k.layout);
    DisjointKeptAtBase(t, k.sections, k.addrs, base);
    ImageOfRelocated(AtBase(t, base), k, |k.relocs|, img);
    CopyAtBase(t, k.sections, k.addrs, IndexOrder(|k.sections|), img, base);
  }

  lemma DisjointKeptAtBase(t: Target, ss: seq<Section>, addrs: seq<nat>, base: nat)
    requires |ss| == |addrs| && KeptDisjoint(t, ss, addrs)
    ensures KeptDisjoint(AtBase(t, base), ss, addrs)
  {
    assert forall i :: 0 <= i < |ss| ==> IsKept(AtBase(t, base), ss[i]) == IsKept(t, ss[i]);
  }

  // Main result.  Take any x86 EFI kernel whose relocations patch disjoint words, and any
  // base.  Linking it at 0 and letting a loader add the base at exactly the emitted fixups
  // gives the bytes of linking it at the base directly -- if and only if every relocation
  // that reaches the output is against a section-defined symbol, or has a word in which the
  // base is nothing.
  lemma LoadingIsLinkingIff(t: Target, k: Kernel, tramp: nat, img: seq<byte>, base: nat)
    requires Linkable(t, k, tramp) && DisjointSites(t, k) && Fits(t, k.sections, k.addrs, |img|)
    ensures ValidKernel(AtBase(t, base), k) && Fits(AtBase(t, base), k.sections, k.addrs, |img|)
    ensures Relocated(AtBase(t, base), k, |k.relocs|).Some?
    ensures ApplyFixups(Linked(t, k, img), Fixups(t, k, |k.relocs|).value, t.vaddrOffset, base)
            == Linked(AtBase(t, base), k, img)
            <==> AllMoveAlong(t, k, base)
  {
    hide Placed, Flat, Relocated, NamedAfterTarget, ApplyFixups, Linked, Output, MovesAlong;
    var n := |k.relocs|;
    LinkedIsFlat(t, k, tramp, img);
    LinkedAtBaseIsFlat(t, k, tramp, img, base);
    var start := Output(t, k, k.sections, img);
    assert Loaded(t, k, n, start, base) == ApplyFixups(Linked(t, k, img), Fixups(t, k, n).value, t.vaddrOffset, base);
    if AllMoveAlong(t, k, base) {
      LoadedIsDirect(t, k, n, start, base);
    } else {
      var i :| 0 <= i < n && Matters(t, k, k.relocs[i]) && !MovesAlong(t, k, k.relocs[i], base);
      StraySymbolShows(t, k, start, base, i);
    }
  }

  // The kernel is right at this base.
  ghost predicate RunsAt(t: Target, k: Kernel, img: seq<byte>, base: nat)
    requires ValidKernel(t, k) && Fits(t, k.sections, k.addrs, |img|)
    requires Relocated(t, k, |k.relocs|).Some? && Fixups(t, k, |k.relocs|).Some?
  {
    && ValidKernel(AtBase(t, base), k) && Fits(AtBase(t, base), k.sections, k.addrs, |img|)
    && Relocated(AtBase(t, base), k, |k.relocs|).Some?
    && ApplyFixups(Linked(t, k, img), Fixups(t, k, |k.relocs|).value, t.vaddrOffset, base)
       == Linked(AtBase(t, base), k, img)
  }

  // So the image can be loaded anywhere, at whatever base the firmware picks, if and only if
  // every relocation that reaches the output is against a section-defined symbol; and loading
  // it right at a single base that is not zero in 32 bits is enough to know.
  lemma RelocatingCommutesWithLoading(t: Target, k: Kernel, tramp: nat, img: seq<byte>)
    requires Linkable(t, k, tramp) && DisjointSites(t, k) && Fits(t, k.sections, k.addrs, |img|)
    ensures (forall base: nat :: RunsAt(t, k, img, base)) <==> SectionSymbols(t, k)
    ensures forall base: nat :: base % 0x1_0000_0000 != 0 ==> (RunsAt(t, k, img, base) <==> SectionSymbols(t, k))
  {
    hide Placed, Relocated, NamedAfterTarget, ApplyFixups, Linked, MovesAlong, AllMoveAlong, SectionSymbols;
    forall base: nat ensures RunsAt(t, k, img, base) <==> AllMoveAlong(t, k, base) {
      LoadingIsLinkingIff(t, k, tramp, img, base);
    }
    if SectionSymbols(t, k) {
      forall base: nat ensures AllMoveAlong(t, k, base) { SectionSymbolsMove(t, k, base); }
    } else {
      forall base: nat | base % 0x1_0000_0000 != 0 ensures !AllMoveAlong(t, k, base) { StraySymbolStays(t, k, base); }
      assert !RunsAt(t, k, img, 1);
    }
  }

  lemma SectionSymbolsMove(t: Target, k: Kernel, base: nat)
    requires ValidKernel(t, k) && SectionSymbols(t, k)
    ensures AllMoveAlong(t, k, base)
  {
    hide SameModulo;
  }

  lemma StraySymbolStays(t: Target, k: Kernel, base: nat)
    requires ValidKernel(t, k) && !SectionSymbols(t, k) && base % 0x1_0000_0000 != 0
    ensures !AllMoveAlong(t, k, base)
  {
    hide SameModulo;
    var i :| 0 <= i < |k.relocs| && Matters(t, k, k.relocs[i]) && !SectionSymbol(k, k.relocs[i]);
    BaseShows(base, Width(t.machine, k.relocs[i]));
  }

  lemma BaseShows(base: nat, w: nat)
    requires (w == 4 || w == 8) && base % 0x1_0000_0000 != 0
    ensures !SameModulo(base, 0, w)
  {
    Powers();
    if SameModulo(base, 0, w) {
      MultipleOfMultiple(base, Pow256(w), 0x1_0000_0000);
    }
  }

  // Such kernels are built without complaint: eight bytes of text with one R_X86_64_64
  // against an absolute symbol, which is wrong after loading at any base below 4 GiB but 0.
  function StrayTarget(): Target {
    Target(ImageEfi, EmX8664, 4096, 4096, 0)
  }

  function StrayKernel(): Kernel {
    Kernel([Section(".text", ProgBits, true, true, 16, 8, Zeros(8))], [0], Layout(4096, 4096, 0, 4096, 4096),
           [Symbol("limit", Absolute, 5, false)],
           [Reloc(Section(".rela.text", Rela, false, false, 8, 24, Zeros(24)), 0, R_X86_64_64, 0, 0, 0)])
  }

  lemma StrayKernelIsValid()
    ensures ValidKernel(StrayTarget(), StrayKernel())
  {
    var t, k := StrayTarget(), StrayKernel();
    assert Width(t.machine, k.relocs[0]) == 8;
    hide Width;
  }

  lemma StrayKernelIsPlaced()
    ensures StrayTarget().sectionAlign > 0 && |StrayKernel().sections| == |StrayKernel().addrs|
    ensures Placed(StrayTarget(), StrayKernel().sections, 0, StrayKernel().addrs, StrayKernel().layout)
  {
  }

  lemma StrayRelocIsNamed()
    ensures NamedAfterTarget(StrayKernel(), StrayKernel().relocs[0])
  {
    var k := StrayKernel();
    assert FindSection(k.sections, ".text") == 0;
    assert k.relocs[0].header.name == ".rela" + k.sections[0].name;
  }

  lemma StrayKernelLinks()
    ensures Linkable(StrayTarget(), StrayKernel(), 0) && DisjointSites(StrayTarget(), StrayKernel())
    ensures !SectionSymbols(StrayTarget(), StrayKernel())
  {
    StrayKernelIsValid();
    StrayKernelIsPlaced();
    StrayRelocIsNamed();
    hide ValidKernel, Placed, NamedAfterTarget, Patch, Translated, Applied;
    var t, k := StrayTarget(), StrayKernel();
    var r := k.relocs[0];
    assert Relocated(t, k, 0).Some? && Fixups(t, k, 0).Some?;
    assert FixupFor(t, k, r).Some?;
    assert Matters(t, k, r) && !SectionSymbol(k, r);
  }

  lemma StrayKernelFails(base: nat)
    requires 0 < base < 0x1_0000_0000
    ensures var t, k := StrayTarget(), StrayKernel();
            Linkable(t, k, 0) && Fits(t, k.sections, k.addrs, 4096) && !RunsAt(t, k, Zeros(4096), base)
  {
    hide Linkable, DisjointSites, SectionSymbols, RunsAt;
    StrayKernelLinks();
    RelocatingCommutesWithLoading(StrayTarget(), StrayKernel(), 0, Zeros(4096));
  }

  /* ---- through the emitted .reloc section ---- */

  // The .reloc section made of a list of fixups.
  ghost function RelocSection(fs: seq<F.Fixup>, sectionAlign: nat): seq<byte>
    requires sectionAlign > 0 && F.AddAll(F.EMPTY, fs).Some?
  {
    F.TableBytes(F.Finish(F.AddAll(F.EMPTY, fs).value, sectionAlign).finished)
  }

  // Loading: read the fixups from the section and apply them.
  function LoadPe(img: seq<byte>, relocSection: seq<byte>, vaddrOffset: nat, base: int): Option<seq<byte>> {
    match F.ReadTable(relocSection)
    case None => None
    case Some(fs) => Some(ApplyFixups(img, fs, vaddrOffset, base))
  }

  lemma FixupIsValid(t: Target, k: Kernel, r: Reloc, size: nat)
    requires IsX86(t) && ValidKernel(t, k) && ValidReloc(t.machine, k, r) && NamedAfterTarget(k, r) && FixupFor(t, k, r).Some?
    requires Fits(t, k.sections, k.addrs, size) && size + t.vaddrOffset <= F.TWO32
    ensures forall i :: 0 <= i < |FixupFor(t, k, r).value| ==> F.ValidFixup(FixupFor(t, k, r).value[i])
  {
    hide NamedAfterTarget, SymbolAddress, Translated;
    FixupsOfReloc(t, k, r);
    assert ValidSection(k.sections[r.target]);
  }

  lemma {:induction false} FixupsAreValid(t: Target, k: Kernel, n: nat, size: nat)
    requires IsX86(t) && ValidKernel(t, k) && n <= |k.relocs| && Fixups(t, k, n).Some? && Conventional(t, k)
    requires Fits(t, k.sections, k.addrs, size) && size + t.vaddrOffset <= F.TWO32
    ensures forall i :: 0 <= i < |Fixups(t, k, n).value| ==> F.ValidFixup(Fixups(t, k, n).value[i])
    decreases n
  {
    hide NamedAfterTarget, SymbolAddress, FindSection, HasPrefix;
    if n > 0 {
      FixupsAreValid(t, k, n - 1, size);
      var r := k.relocs[n - 1];
      assert ValidReloc(t.machine, k, r) && NamedAfterTarget(k, r);
      FixupIsValid(t, k, r, size);
    }
  }

  lemma {:induction false} FixupsAreSpread(t: Target, k: Kernel, n: nat)
    requires IsX86(t) && ValidKernel(t, k) && n <= |k.relocs| && Fixups(t, k, n).Some? && Conventional(t, k) && DisjointSites(t, k)
    ensures F.Spread(Fixups(t, k, n).value)
    ensures forall i :: 0 <= i < |Fixups(t, k, n).value| ==> FixupWidth(Fixups(t, k, n).value[i].kind) >= 4
    decreases n
  {
    hide NamedAfterTarget, EffectOf, FixupFor, SymbolAddress, IsKept, AllClear;
    if n > 0 {
      FixupsAreSpread(t, k, n - 1);
      var r := k.relocs[n - 1];
      assert ValidReloc(t.machine, k, r) && NamedAfterTarget(k, r);
      FixupsOfReloc(t, k, r);
      var fs, last := Fixups(t, k, n - 1).value, FixupFor(t, k, r).value;
      if last != [] {
        EarlierApart(t, k, n - 1);
        FixupsClear(t, k, n - 1, r);
        WideWord(t, r);
        SpreadOneMore(fs, last[0], t.vaddrOffset, Width(t.machine, r));
        assert last == [last[0]];
      } else {
        assert fs + last == fs;
      }
    }
  }

  lemma WideWord(t: Target, r: Reloc)
    requires EffectOf(t.machine, r.kind).Direct?
    ensures Width(t.machine, r) >= 4
  {
  }

  lemma SpreadOneMore(fs: seq<F.Fixup>, f: F.Fixup, vaddrOffset: nat, w: nat)
    requires F.Spread(fs) && f.addr >= vaddrOffset && w >= 4
    requires forall i :: 0 <= i < |fs| ==> FixupWidth(fs[i].kind) >= 4
    requires AllClear(fs, vaddrOffset, f.addr - vaddrOffset, w)
    ensures F.Spread(fs + [f])
  {
    var all := fs + [f];
    forall i, j | 0 <= i < j < |all| ensures all[i].addr + 4 <= all[j].addr || all[j].addr + 4 <= all[i].addr {
      if j == |fs| { assert Clear(fs[i], vaddrOffset, f.addr - vaddrOffset, w); }
    }
  }

  // Relocations that patch words which do not overlap never overflow the table.
  lemma TableAlwaysFits(t: Target, k: Kernel, size: nat)
    requires IsX86(t) && ValidKernel(t, k) && Fixups(t, k, |k.relocs|).Some? && Conventional(t, k) && DisjointSites(t, k)
    requires Fits(t, k.sections, k.addrs, size) && size + t.vaddrOffset <= F.TWO32 && 0 < t.sectionAlign <= F.PAGE
    ensures var fs := Fixups(t, k, |k.relocs|).value;
            F.AddAll(F.EMPTY, fs).Some? && F.PaddingFits(F.AddAll(F.EMPTY, fs).value, t.sectionAlign)
  {
    hide Fixups, Conventional, DisjointSites, Fits, F.AddAll;
    FixupsAreValid(t, k, |k.relocs|, size);
    FixupsAreSpread(t, k, |k.relocs|);
    F.SpreadFits(Fixups(t, k, |k.relocs|).value, t.sectionAlign);
  }

  // The same through the bytes of the .reloc section: a loader that reads the emitted
  // section and adds `base` where it says runs the image linked at `base`, exactly then.
  lemma LoadedImageRunsIff(t: Target, k: Kernel, tramp: nat, img: seq<byte>, base: nat)
    requires Linkable(t, k, tramp) && DisjointSites(t, k) && Fits(t, k.sections, k.addrs, |img|)
    requires t.sectionAlign <= F.PAGE && t.sectionAlign % 2 == 0 && |img| + t.vaddrOffset <= F.TWO32
    ensures ValidKernel(AtBase(t, base), k) && Fits(AtBase(t, base), k.sections, k.addrs, |img|)
    ensures Relocated(AtBase(t, base), k, |k.relocs|).Some?
    ensures F.AddAll(F.EMPTY, Fixups(t, k, |k.relocs|).value).Some?
    ensures LoadPe(Linked(t, k, img), RelocSection(Fixups(t, k, |k.relocs|).value, t.sectionAlign), t.vaddrOffset, base)
            == Some(ApplyFixups(Linked(t, k, img), Fixups(t, k, |k.relocs|).value, t.vaddrOffset, base))
    ensures LoadPe(Linked(t, k, img), RelocSection(Fixups(t, k, |k.relocs|).value, t.sectionAlign), t.vaddrOffset, base)
            == Some(Linked(AtBase(t, base), k, img))
            <==> AllMoveAlong(t, k, base)
  {
    hide Placed, Relocated, NamedAfterTarget, ApplyFixups, Linked, F.Finish, F.PaddingFits, AllMoveAlong;
    FixupsAreValid(t, k, |k.relocs|, |img|);
    TableAlwaysFits(t, k, |img|);
    F.RoundTrip(Fixups(t, k, |k.relocs|).value, t.sectionAlign);
    LoadingIsLinkingIff(t, k, tramp, img, base);
  }

  /* ---- the passes as they run ---- */

  // relocate_symbols overwrites the symbol table's values; `ok` is false where it
  // stops.  `start` is the value of the first relocated symbol called _start or start.
  method RelocateSymbols(t: Target, k: Kernel, values: array<nat>) returns (ok: bool, start: Option<nat>)
    requires values.Length == |k.symbols|
    requires forall i :: 0 <= i < |k.symbols| ==> values[i] == k.symbols[i].value
    modifies values
    ensures ok <==> forall i :: 0 <= i < |k.symbols| ==> SymbolAddress(t, k, k.symbols[i]).Some?
    ensures ok ==> forall i :: 0 <= i < |k.symbols| ==> values[i] == SymbolAddress(t, k, k.symbols[i]).value
    ensures ok ==> start == FirstStart(t, k, |k.symbols|)
    ensures ok ==> AreAddresses(t, k, values[..]) && IsStart(t, k, values[..], start)
  {
    start := None;
    for i := 0 to |k.symbols|
      invariant forall j :: 0 <= j < i ==> SymbolAddress(t, k, k.symbols[j]) == Some(values[j])
      invariant forall j :: i <= j < |k.symbols| ==> values[j] == k.symbols[j].value
      invariant start == FirstStart(t, k, i)
    {
      var s := k.symbols[i];
      match s.home {
        case Absolute =>
          continue;
        case Undefined =>
          if s.name == "__bss_start" {
            values[i] := k.layout.bssStart;
          } else if s.name == "_end" {
            values[i] := k.layout.end;
          } else if s.name != "" {
            return false, None;
          } else {
            continue;
          }
        case InSection(j) =>
          if j >= |k.addrs| {
            return false, None;
          }
          values[i] := (values[i] + (k.addrs[j] + t.vaddrOffset)) % AddressSpace(t);
      }
      if start == None && (s.name == "_start" || s.name == "start") && values[i] != AddressSpace(t) - 1 {
        start := Some(values[i]);
      }
    }
    SymbolsAreAddresses(t, k, values[..]);
    FirstStartIsStart(t, k, values[..], |k.symbols|);
    return true, start;
  }

  lemma SymbolsAreAddresses(t: Target, k: Kernel, values: seq<nat>)
    requires |values| == |k.symbols| && forall i :: 0 <= i < |values| ==> SymbolAddress(t, k, k.symbols[i]) == Some(values[i])
    ensures AreAddresses(t, k, values)
  {
  }

  lemma {:induction false} FirstStartIsStart(t: Target, k: Kernel, values: seq<nat>, n: nat)
    requires n <= |values| == |k.symbols| && forall i :: 0 <= i < |values| ==> SymbolAddress(t, k, k.symbols[i]) == Some(values[i])
    ensures match FirstStart(t, k, n) {
              case None => forall i :: 0 <= i < n ==> !IsEntry(t, k, values, i)
              case Some(v) => exists i :: 0 <= i < n && IsEntry(t, k, values, i) && v == values[i] && forall j :: 0 <= j < i ==> !IsEntry(t, k, values, j)
            }
    decreases n
  {
    hide SymbolAddress;
    if n > 0 {
      FirstStartIsStart(t, k, values, n - 1);
    }
  }

  // The entry point: the earliest symbol called _start or start that is defined in a
  // section, an address of all ones standing for no entry point.
  ghost function FirstStart(t: Target, k: Kernel, n: nat): Option<nat>
    requires n <= |k.symbols|
  {
    if n == 0 then None
    else if FirstStart(t, k, n - 1).Some? then FirstStart(t, k, n - 1)
    else if k.symbols[n - 1].name in {"_start", "start"} && k.symbols[n - 1].home.InSection?
            && SymbolAddress(t, k, k.symbols[n - 1]) != Some(AddressSpace(t) - 1)
    then SymbolAddress(t, k, k.symbols[n - 1])
    else None
  }

  // One relocation, by type, as the switch in relocate_addrs does it.
  method ApplyReloc(t: Target, k: Kernel, r: Reloc, symAddr: nat, ss: seq<Section>) returns (ok: bool, ss': seq<Section>)
    requires ValidKernel(t, k) && ValidReloc(t.machine, k, r) && SameHeaders(k.sections, ss)
    requires symAddr == SymbolAddress(t, k, k.symbols[r.symbol]).value && Applied(t, k, r)
    ensures ok == !EffectOf(t.machine, r.kind).Unsupported?
    ensures ok ==> ss' == Patch(t, k, r, ss)
  {
    hide AddAt;
    var target := ss[r.target].contents;
    match EffectOf(t.machine, r.kind) {
      case Nothing =>
        AddNothing(target, r.offset, 0);
        return true, ss;
      case Direct(w) =>
        target := AddAt(target, r.offset, w, r.addend + symAddr);
      case Relative(w) =>
        target := AddAt(target, r.offset, w, r.addend + symAddr - k.addrs[r.target] - r.offset - t.vaddrOffset);
      case Unsupported =>
        return false, ss;
    }
    return true, ss[r.target := ss[r.target].(contents := target)];
  }

  // relocate_addrs on the section contents, given the relocated symbol values.
  method RelocateAddrs(t: Target, k: Kernel, values: seq<nat>) returns (ok: bool, ss: seq<Section>)
    requires ValidKernel(t, k) && |values| == |k.symbols|
    requires forall i :: 0 <= i < |k.symbols| ==> values[i] == SymbolAddress(t, k, k.symbols[i]).value
    ensures ok == Relocated(t, k, |k.relocs|).Some?
    ensures ok ==> ss == Relocated(t, k, |k.relocs|).value
  {
    hide SymbolAddress, Patch, EffectOf, SameHeaders;
    ss := k.sections;
    for i := 0 to |k.relocs|
      invariant Relocated(t, k, i) == Some(ss)
    {
      var r := k.relocs[i];
      assert ValidReloc(t.machine, k, r);
      if Applied(t, k, r) {
        ok, ss := ApplyReloc(t, k, r, values[r.symbol], ss);
        if !ok {
          RelocationStops(t, k, i + 1, |k.relocs|);
          return false, ss;
        }
      } else {
        NotApplied(t, k, r, ss);
      }
    }
    return true, ss;
  }

  lemma NotApplied(t: Target, k: Kernel, r: Reloc, ss: seq<Section>)
    requires ValidKernel(t, k) && ValidReloc(t.machine, k, r) && SameHeaders(k.sections, ss) && !Applied(t, k, r)
    ensures Patch(t, k, r, ss) == ss
  {
  }

  lemma {:induction false} RelocationStops(t: Target, k: Kernel, m: nat, n: nat)
    requires ValidKernel(t, k) && m <= n <= |k.relocs| && Relocated(t, k, m).None?
    ensures Relocated(t, k, n).None?
    decreases n - m
  {
    hide Patch, SameHeaders, EffectOf, Applied;
    if m < n {
      RelocationStops(t, k, m + 1, n);
    }
  }

  // The fixup table after the first `n` relocations; None where the source stops.
  ghost function Built(t: Target, k: Kernel, n: nat): Option<F.Table>
    requires ValidKernel(t, k) && n <= |k.relocs|
  {
    if n == 0 then Some(F.EMPTY)
    else
      var before := Built(t, k, n - 1);
      var last := FixupFor(t, k, k.relocs[n - 1]);
      if before.None? || last.None? then None
      else if last.value == [] then before
      else F.Add(before.value, last.value[0])
  }

  lemma {:induction false} BuiltIsAddAll(t: Target, k: Kernel, n: nat)
    requires ValidKernel(t, k) && n <= |k.relocs|
    ensures Built(t, k, n).Some? <==> Fixups(t, k, n).Some? && F.AddAll(F.EMPTY, Fixups(t, k, n).value).Some?
    ensures Built(t, k, n).Some? ==> Built(t, k, n) == F.AddAll(F.EMPTY, Fixups(t, k, n).value)
    decreases n
  {
    hide F.Add, Translated;
    if n > 0 {
      BuiltIsAddAll(t, k, n - 1);
      var before, last := Fixups(t, k, n - 1), FixupFor(t, k, k.relocs[n - 1]);
      if before.Some? && last.Some? {
        if last.value == [] {
          assert before.value + last.value == before.value;
        } else {
          assert (before.value + last.value)[..|before.value|] == before.value;
        }
      }
    }
  }

  lemma {:induction false} BuildingStops(t: Target, k: Kernel, m: nat, n: nat)
    requires ValidKernel(t, k) && m <= n <= |k.relocs| && Built(t, k, m).None?
    ensures Built(t, k, n).None?
    decreases n - m
  {
    if m < n {
      BuildingStops(t, k, m + 1, n);
    }
  }

  // make_reloc_section with finish_reloc_translation_pe.
  method MakeRelocSection(t: Target, k: Kernel) returns (ok: bool, section: seq<byte>)
    requires ValidKernel(t, k) && t.sectionAlign > 0
    requires Built(t, k, |k.relocs|).Some? ==> F.PaddingFits(Built(t, k, |k.relocs|).value, t.sectionAlign)
    ensures ok <==> Fixups(t, k, |k.relocs|).Some? && F.AddAll(F.EMPTY, Fixups(t, k, |k.relocs|).value).Some?
    ensures ok ==> section == RelocSection(Fixups(t, k, |k.relocs|).value, t.sectionAlign)
  {
    hide F.Add, FixupFor, F.Finish, F.PaddingFits, F.AddAll;
    section := [];
    BuiltIsAddAll(t, k, |k.relocs|);
    var w := new F.FixupWriter();
    for i := 0 to |k.relocs|
      invariant w.Valid() && fresh(w) && fresh(w.entries)
      invariant Built(t, k, i) == Some(w.Model())
    {
      assert ValidReloc(t.machine, k, k.relocs[i]);
      var f := FixupFor(t, k, k.relocs[i]);
      ok := f.Some?;
      if ok && f.value != [] {
        ok := w.AddFixupEntry(f.value[0].kind, f.value[0].addr, false, t.sectionAlign);
      }
      if !ok {
        BuildingStops(t, k, i + 1, |k.relocs|);
        return;
      }
    }
    ok := w.AddFixupEntry(0, 0, true, t.sectionAlign);
    section := w.Emit();
  }
}
