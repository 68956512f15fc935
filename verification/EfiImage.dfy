/** The whole way of an x86 EFI image: `grub_install_generate_image` (grub/util/mkimage.c)
    from the kernel file to the PE file, and from there to what a loader has in memory. */
module EfiImage {
  import opened Align
  import opened Bytes
  import opened Elf
  import opened Options
  import opened SectionLayout
  import opened Relocation
  import opened LinkedImage
  import opened PeImage
  import F = FixupTable
  import M = ModuleArea

  /* ---- the file ---- */

  // An x86 EFI kernel, linked for a memory image of the size that placement computed.
  ghost predicate IsLinkedEfi(t: Target, k: Kernel, tramp: nat, img: seq<byte>) {
    && Linkable(t, k, tramp) && IsEfi(t) && DisjointSites(t, k)
    && |img| == PlaceAreas(t, k.layout, 0, 0, 0).kernelSize && Fits(t, k.sections, k.addrs, |img|)
    && |img| + t.vaddrOffset <= F.TWO32
  }

  ghost function RelocTable(t: Target, k: Kernel, tramp: nat, img: seq<byte>): seq<byte>
    requires IsLinkedEfi(t, k, tramp, img)
  {
    TableAlwaysFits(t, k, |img|);
    RelocSection(Fixups(t, k, |k.relocs|).value, t.sectionAlign)
  }

  ghost function LinkedEfi(t: Target, k: Kernel, tramp: nat, img: seq<byte>): (r: seq<byte>)
    requires IsLinkedEfi(t, k, tramp, img)
    ensures |r| == |img|
  {
    Linked(t, k, img)
  }

  ghost function EfiSizes(t: Target, k: Kernel, tramp: nat, img: seq<byte>, moduleSize: nat, sbat: Option<nat>): (s: Sizes)
    requires IsLinkedEfi(t, k, tramp, img)
    ensures ValidSizes(s) && s.kernelSize == |img| && s.coreSize == |img| + moduleSize && s.headerSize == t.vaddrOffset
    ensures s.relocSize == |RelocTable(t, k, tramp, img)| && s.sbat == sbat
  {
    PlacedSizes(t, k.sections, tramp, k.addrs, k.layout, 0, 0, 0, moduleSize, |RelocTable(t, k, tramp, img)|, sbat);
    SizesOf(t, k.layout, PlaceAreas(t, k.layout, 0, 0, 0), moduleSize, |RelocTable(t, k, tramp, img)|, sbat)
  }

  // `file` is the PE file of that kernel: the kernel behind the header, then the modules,
  // the SBAT data and the relocation table made for the kernel.
  ghost predicate IsPeOf(t: Target, k: Kernel, tramp: nat, img: seq<byte>, modules: seq<byte>, sbat: Option<seq<byte>>,
                         voidp: nat, file: seq<byte>)
  {
    && IsLinkedEfi(t, k, tramp, img) && voidp > 0
    && var s := EfiSizes(t, k, tramp, img, |modules|, SbatLength(sbat));
       && ModsSize(s, voidp) >= 0 && |file| == PeSize(s, voidp)
       && |SectionTable(s, voidp)| == (if s.sbat.Some? then 5 else 4)
       && FileHolds(file, SectionTable(s, voidp), s, LinkedEfi(t, k, tramp, img) + modules, SbatBytes(sbat), RelocTable(t, k, tramp, img))
  }

  function SbatLength(sbat: Option<seq<byte>>): Option<nat> {
    match sbat case None => None case Some(b) => Some(|b|)
  }

  function SbatBytes(sbat: Option<seq<byte>>): seq<byte> {
    match sbat case None => [] case Some(b) => b
  }

  lemma TableOfKernelIsBlocks(t: Target, k: Kernel, tramp: nat, img: seq<byte>)
    requires IsLinkedEfi(t, k, tramp, img)
    ensures |RelocTable(t, k, tramp, img)| % PE_ALIGN == 0
  {
    hide Placed, Relocated, NamedAfterTarget, Fixups, DisjointSites, F.AddAll, F.PaddingFits, RelocSection;
    FixupsAreValid(t, k, |k.relocs|, |img|);
    TableAlwaysFits(t, k, |img|);
    TableIsBlocks(Fixups(t, k, |k.relocs|).value);
  }

  /* ---- mapping and running it ---- */

  // What a loader makes of mapped memory: the kernel's range, with the fixups that the
  // mapped relocation table lists applied.
  ghost function LoadMapped(mem: seq<byte>, s: Sizes, rel: PeSection, base: nat): Option<seq<byte>> {
    if s.headerSize + s.kernelSize <= |mem| && rel.vaddr + rel.vsize <= |mem|
    then LoadPe(mem[s.headerSize..s.headerSize + s.kernelSize], mem[rel.vaddr..rel.vaddr + rel.vsize], s.headerSize, base)
    else None
  }

  // End to end.  A loader that maps the sections of such a file, reads the relocation
  // table out of the mapped ".reloc" section and adds its base, whatever it is, where the
  // table says, has behind the kernel the module area as written; and it has the kernel
  // linked at that base in memory if and only if all relocations move along with the base.
  // In any case every relocated word in memory is what its relocation's type asks for.
  lemma LoadedFileRunsIff(t: Target, k: Kernel, tramp: nat, img: seq<byte>, modules: seq<byte>, sbat: Option<seq<byte>>,
                          voidp: nat, file: seq<byte>, mem: seq<byte>, base: nat)
    requires IsPeOf(t, k, tramp, img, modules, sbat, voidp, file)
    requires Mapped(file, SectionTable(EfiSizes(t, k, tramp, img, |modules|, SbatLength(sbat)), voidp), mem) && |mem| == |file|
    ensures ValidKernel(AtBase(t, base), k) && Fits(AtBase(t, base), k.sections, k.addrs, |img|)
    ensures Relocated(AtBase(t, base), k, |k.relocs|).Some?
    ensures var s := EfiSizes(t, k, tramp, img, |modules|, SbatLength(sbat));
            && (LoadMapped(mem, s, SectionTable(s, voidp)[|SectionTable(s, voidp)| - 1], base) == Some(Linked(AtBase(t, base), k, img))
                <==> AllMoveAlong(t, k, base))
            && Holds(mem, s.headerSize + s.kernelSize, modules)
            && LoadMapped(mem, s, SectionTable(s, voidp)[|SectionTable(s, voidp)| - 1], base).Some?
            && WordsAreRight(t, k, base, LoadMapped(mem, s, SectionTable(s, voidp)[|SectionTable(s, voidp)| - 1], base).value)
  {
    hide IsLinkedEfi, RelocTable, EfiSizes, Linked, LoadPe, ValidKernel, Relocated, Fits, AllMoveAlong, WordsAreRight;
    hide SectionTable, ModsSize, PeSize, FileHolds, Mapped, Holds, ValidSizes;
    var s := EfiSizes(t, k, tramp, img, |modules|, SbatLength(sbat));
    var table := RelocTable(t, k, tramp, img);
    LinkedAtBase(t, k, tramp, img, base);
    TableOfKernelIsBlocks(t, k, tramp, img);
    MappedParts(s, voidp, file, mem, Linked(t, k, img) + modules, SbatBytes(sbat), table);
    HoldsParts(mem, s.headerSize, Linked(t, k, img), modules);
    HoldsRange(mem, SectionTable(s, voidp)[|SectionTable(s, voidp)| - 1].vaddr, table);
    HoldsRange(mem, s.headerSize, Linked(t, k, img));
  }

  lemma LinkedAtBase(t: Target, k: Kernel, tramp: nat, img: seq<byte>, base: nat)
    requires IsLinkedEfi(t, k, tramp, img)
    ensures ValidKernel(AtBase(t, base), k) && Fits(AtBase(t, base), k.sections, k.addrs, |img|)
    ensures ValidKernel(t, k) && Fits(t, k.sections, k.addrs, |img|) && Relocated(t, k, |k.relocs|).Some?
    ensures Relocated(AtBase(t, base), k, |k.relocs|).Some?
    ensures LoadPe(Linked(t, k, img), RelocTable(t, k, tramp, img), t.vaddrOffset, base) == Some(Linked(AtBase(t, base), k, img))
            <==> AllMoveAlong(t, k, base)
    ensures LoadPe(Linked(t, k, img), RelocTable(t, k, tramp, img), t.vaddrOffset, base).Some?
    ensures WordsAreRight(t, k, base, LoadPe(Linked(t, k, img), RelocTable(t, k, tramp, img), t.vaddrOffset, base).value)
  {
    hide Relocated, Linked, LoadPe, DisjointSites, AllMoveAlong, Placed, NamedAfterTarget, WordsAreRight, ApplyFixups, Fixups;
    LoadedImageRunsIff(t, k, tramp, img, base);
    LoadedWordsAreRight(t, k, tramp, img, base);
  }

  // voidp_sizeof and byte order of the two x86 targets.
  function ArchOf(t: Target): (a: M.Arch)
    ensures a.voidp == 4 || a.voidp == 8
  {
    M.Arch(if t.machine == Em386 then 4 else 8, Little)
  }

  // The walk over the module area at `at` shows the inputs.
  ghost predicate SeesInputs(a: M.Arch, i: M.Inputs, mem: seq<byte>, at: nat)
    requires M.ValidArch(a)
  {
    && at + |M.AreaBytes(a, i)| <= |mem|
    && var seen := M.WalkArea(a, mem[at..at + |M.AreaBytes(a, i)|]);
       seen.Some? && M.ShowsInputs(a, i, seen.value)
  }

  // And the booted kernel, walking the module area behind it, sees every input under its type.
  lemma BootedKernelSeesModules(t: Target, k: Kernel, tramp: nat, img: seq<byte>, i: M.Inputs, sbat: Option<seq<byte>>,
                                file: seq<byte>, mem: seq<byte>)
    requires M.SmallInputs(i) && |M.AreaBytes(ArchOf(t), i)| < Pow256(ArchOf(t).voidp)
    requires IsPeOf(t, k, tramp, img, M.AreaBytes(ArchOf(t), i), sbat, ArchOf(t).voidp, file)
    requires Mapped(file, SectionTable(EfiSizes(t, k, tramp, img, |M.AreaBytes(ArchOf(t), i)|, SbatLength(sbat)), ArchOf(t).voidp), mem)
    requires |mem| == |file|
    ensures SeesInputs(ArchOf(t), i, mem, t.vaddrOffset + |img|)
  {
    ValidArchOf(t);
    hide *;
    M.WalkShowsInputs(ArchOf(t), i);
    ModulesMapped(t, k, tramp, img, M.AreaBytes(ArchOf(t), i), sbat, ArchOf(t).voidp, file, mem);
    AreaIsSeen(ArchOf(t), i, mem, t.vaddrOffset + |img|);
  }

  lemma AreaIsSeen(a: M.Arch, i: M.Inputs, mem: seq<byte>, at: nat)
    requires M.ValidArch(a) && at + |M.AreaBytes(a, i)| <= |mem| && mem[at..at + |M.AreaBytes(a, i)|] == M.AreaBytes(a, i)
    requires M.WalkArea(a, M.AreaBytes(a, i)).Some? && M.ShowsInputs(a, i, M.WalkArea(a, M.AreaBytes(a, i)).value)
    ensures SeesInputs(a, i, mem, at)
  {
    hide M.WalkArea, M.ShowsInputs, M.AreaBytes;
  }

  lemma ValidArchOf(t: Target)
    ensures M.ValidArch(ArchOf(t))
  {
  }

  lemma ModulesMapped(t: Target, k: Kernel, tramp: nat, img: seq<byte>, modules: seq<byte>, sbat: Option<seq<byte>>,
                      voidp: nat, file: seq<byte>, mem: seq<byte>)
    requires IsPeOf(t, k, tramp, img, modules, sbat, voidp, file)
    requires Mapped(file, SectionTable(EfiSizes(t, k, tramp, img, |modules|, SbatLength(sbat)), voidp), mem) && |mem| == |file|
    ensures var at := t.vaddrOffset + |img|; at + |modules| <= |mem| && mem[at..at + |modules|] == modules
  {
    hide IsLinkedEfi, EfiSizes, SectionTable, ModsSize, PeSize, FileHolds, Mapped, Holds, LoadMapped, Linked, ValidKernel, Fits, Relocated;
    LoadedFileRunsIff(t, k, tramp, img, modules, sbat, voidp, file, mem, 0);
    HoldsRange(mem, t.vaddrOffset + |img|, modules);
  }

  /* ---- building it ---- */

  // What the C code takes for granted of a kernel file (addresses and layout of `k` are
  // still to be computed): indices exist, patched words lie in their sections and do not
  // overlap, relocation sections are named after their targets, and all of it stays below
  // 4 GiB, the reach of the PE header fields.
  ghost predicate ValidInput(t: Target, k: Kernel) {
    && IsEfi(t) && IsX86(t)
    && (forall i :: 0 <= i < |k.sections| ==> ValidSection(k.sections[i]))
    && (forall i :: 0 <= i < |k.relocs| ==> ValidReloc(t.machine, k, k.relocs[i]) && NamedAfterTarget(k, k.relocs[i]))
    && SeparateWords(t, k)
    && t.vaddrOffset + ImageRoom(t, k.sections, 0) + PE_ALIGN <= F.TWO32
  }

  lemma EfiInput(t: Target, k: Kernel)
    requires ValidInput(t, k)
    ensures IsEfi(t) && IsX86(t)
  {
  }

  ghost predicate SeparateWords(t: Target, k: Kernel) {
    forall i, j :: 0 <= i < j < |k.relocs| && k.relocs[i].target == k.relocs[j].target ==>
      || k.relocs[i].offset + Width(t.machine, k.relocs[i]) <= k.relocs[j].offset
      || k.relocs[j].offset + Width(t.machine, k.relocs[j]) <= k.relocs[i].offset
  }

  // The same kernel at the addresses that placement computed.
  ghost predicate IsPlaced(t: Target, k0: Kernel, k: Kernel) {
    && k == k0.(addrs := k.addrs, layout := k.layout)
    && |k.addrs| == |k.sections| && t.sectionAlign > 0
    && Placed(t, k.sections, 0, k.addrs, k.layout) && k.layout.end <= ImageRoom(t, k.sections, 0)
  }

  function KernelSize(t: Target, k: Kernel): nat
    requires IsEfi(t)
  {
    PlaceAreas(t, k.layout, 0, 0, 0).kernelSize
  }

  // Every symbol is resolved, there is an entry point, and every relocation can be both
  // applied and turned into a fixup.
  ghost predicate Builds(t: Target, k: Kernel) {
    && ValidKernel(t, k)
    && FirstStart(t, k, |k.symbols|).Some?
    && Relocated(t, k, |k.relocs|).Some?
    && Fixups(t, k, |k.relocs|).Some?
  }

  lemma PlacedIsValid(t: Target, k0: Kernel, k: Kernel)
    requires ValidInput(t, k0) && IsPlaced(t, k0, k)
    ensures ValidKernel(t, k) <==> forall i :: 0 <= i < |k.symbols| ==> SymbolAddress(t, k, k.symbols[i]).Some?
    ensures forall i :: 0 <= i < |k.relocs| ==> NamedAfterTarget(k, k.relocs[i])
    ensures ValidKernel(t, k) ==> DisjointSites(t, k)
  {
    hide Placed, NamedAfterTarget, SymbolAddress, ImageRoom;
    forall i | 0 <= i < |k.relocs| ensures ValidReloc(t.machine, k, k.relocs[i]) && NamedAfterTarget(k, k.relocs[i]) {
      assert ValidReloc(t.machine, k0, k0.relocs[i]) && NamedAfterTarget(k0, k0.relocs[i]);
      SameName(k0, k, k.relocs[i]);
    }
    if ValidKernel(t, k) {
      PlacementIsDisjoint(t, k.sections, 0, k.addrs, k.layout);
      SeparateIsDisjoint(t, k);
    }
  }

  lemma SameName(k0: Kernel, k: Kernel, r: Reloc)
    requires k.sections == k0.sections && r.target < |k.sections| && NamedAfterTarget(k0, r)
    ensures NamedAfterTarget(k, r)
  {
  }

  lemma SeparateIsDisjoint(t: Target, k: Kernel)
    requires ValidKernel(t, k) && KeptDisjoint(t, k.sections, k.addrs) && SeparateWords(t, k)
    ensures DisjointSites(t, k)
  {
    hide IsKept, Width;
    forall i, j | 0 <= i < j < |k.relocs| && Matters(t, k, k.relocs[i]) && Matters(t, k, k.relocs[j])
      ensures Apart(t, k, k.relocs[i], k.relocs[j])
    {
      var r, q := k.relocs[i], k.relocs[j];
      assert ValidReloc(t.machine, k, r) && ValidReloc(t.machine, k, q);
      assert ValidSection(k.sections[r.target]) && ValidSection(k.sections[q.target]);
    }
  }

  lemma PlacedFits(t: Target, k0: Kernel, k: Kernel)
    requires ValidInput(t, k0) && IsPlaced(t, k0, k)
    ensures Fits(t, k.sections, k.addrs, KernelSize(t, k)) && KernelSize(t, k) + t.vaddrOffset <= F.TWO32
  {
    hide Placed, ImageRoom, AlignUp;
    AreasFollowSections(t, k.sections, 0, k.addrs, k.layout, 0, 0, 0);
    KernelIsEnd(t, k);
  }

  lemma KernelIsEnd(t: Target, k: Kernel)
    requires IsEfi(t) && IsX86(t) && |k.sections| == |k.addrs| && Placed(t, k.sections, 0, k.addrs, k.layout)
    ensures KernelSize(t, k) <= k.layout.end + PE_ALIGN
  {
    hide PlacedIn;
  }

  lemma BuildsIsLinked(t: Target, k0: Kernel, k: Kernel, img: seq<byte>)
    requires ValidInput(t, k0) && IsPlaced(t, k0, k) && Builds(t, k) && |img| == KernelSize(t, k)
    ensures IsLinkedEfi(t, k, 0, img)
  {
    hide Placed, NamedAfterTarget, Relocated, Fixups, DisjointSites, ValidKernel, ImageRoom, Fits;
    PlacedIsValid(t, k0, k);
    PlacedFits(t, k0, k);
  }

  // Copying into a buffer with room behind the kernel leaves that room alone.
  lemma {:induction false} CopyBefore(t: Target, ss: seq<Section>, addrs: seq<nat>, order: seq<nat>, img: seq<byte>, tail: seq<byte>)
    requires Fits(t, ss, addrs, |img|) && Fits(t, ss, addrs, |img + tail|)
    requires forall m :: 0 <= m < |order| ==> order[m] < |ss|
    ensures CopyIn(t, ss, addrs, order, img + tail) == CopyIn(t, ss, addrs, order, img) + tail
    decreases |order|
  {
    hide IsKept;
    if order != [] {
      CopyBefore(t, ss, addrs, order[..|order| - 1], img, tail);
    }
  }

  lemma {:induction false} CopyIgnoresRoom(t: Target, ss: seq<Section>, addrs: seq<nat>, n: nat, room: nat)
    requires Fits(t, ss, addrs, n)
    ensures Fits(t, ss, addrs, n + room)
    ensures CopyIn(t, ss, addrs, IndexOrder(|ss|), Zeros(n + room)) == CopyIn(t, ss, addrs, IndexOrder(|ss|), Zeros(n)) + Zeros(room)
  {
    hide CopyIn;
    assert Zeros(n + room) == Zeros(n) + Zeros(room);
    CopyBefore(t, ss, addrs, IndexOrder(|ss|), Zeros(n), Zeros(room));
  }

  // relocate_symbols on a copy of the symbol values.
  method SymbolValues(t: Target, k: Kernel) returns (ok: bool, values: seq<nat>)
    ensures ok <==> (forall i :: 0 <= i < |k.symbols| ==> SymbolAddress(t, k, k.symbols[i]).Some?) && FirstStart(t, k, |k.symbols|).Some?
    ensures ok ==> |values| == |k.symbols| && forall i :: 0 <= i < |k.symbols| ==> values[i] == SymbolAddress(t, k, k.symbols[i]).value
  {
    hide SymbolAddress;
    var table := new nat[|k.symbols|](i requires 0 <= i < |k.symbols| => k.symbols[i].value);
    var start;
    ok, start := RelocateSymbols(t, k, table);
    ok, values := ok && start.Some?, table[..];
  }

  method Locate(t: Target, k0: Kernel) returns (l: Layout, addrs: seq<nat>)
    requires ValidInput(t, k0)
    ensures IsPlaced(t, k0, k0.(addrs := addrs, layout := l))
  {
    hide Placed, ImageRoom;
    var a, v := new nat[|k0.sections|], new nat[|k0.sections|];
    l := LocateSections(t, k0.sections, 0, a, v);
    addrs := a[..];
  }

  // The table never overflows, so only the relocation types decide.
  lemma RoomForFixups(t: Target, k0: Kernel, k: Kernel)
    requires ValidInput(t, k0) && IsPlaced(t, k0, k) && ValidKernel(t, k)
    ensures Built(t, k, |k.relocs|).Some? ==> F.PaddingFits(Built(t, k, |k.relocs|).value, t.sectionAlign)
    ensures Fixups(t, k, |k.relocs|).Some? ==> F.AddAll(F.EMPTY, Fixups(t, k, |k.relocs|).value).Some?
  {
    hide Placed, NamedAfterTarget, DisjointSites, ValidKernel, ImageRoom, Fits, Built, F.PaddingFits, F.AddAll, KernelSize;
    PlacedIsValid(t, k0, k);
    PlacedFits(t, k0, k);
    BuiltIsAddAll(t, k, |k.relocs|);
    if Fixups(t, k, |k.relocs|).Some? {
      TableAlwaysFits(t, k, KernelSize(t, k));
    }
  }

  lemma LinkedIsCopy(t: Target, k: Kernel, n: nat, room: nat)
    requires ValidKernel(t, k) && Fits(t, k.sections, k.addrs, n) && Relocated(t, k, |k.relocs|).Some?
    ensures var ss := Relocated(t, k, |k.relocs|).value;
            && Fits(t, ss, k.addrs, n + room)
            && CopyIn(t, ss, k.addrs, IndexOrder(|ss|), Zeros(n + room)) == Linked(t, k, Zeros(n)) + Zeros(room)
  {
    hide Fits, CopyIn, Relocated, ValidKernel;
    var ss := Relocated(t, k, |k.relocs|).value;
    FitsSameHeaders(t, k.sections, ss, k.addrs, n);
    CopyIgnoresRoom(t, ss, k.addrs, n, room);
  }

  // The kernel's part of the buffer, in terms of the kernel file.
  lemma KernelIsRight(t: Target, k: Kernel, n: nat, buffer: seq<byte>)
    requires IsLinkedEfi(t, k, 0, Zeros(n)) && LinkedEfi(t, k, 0, Zeros(n)) <= buffer
    ensures n <= |buffer| && |k.sections| == |k.addrs|
    ensures HoldsSections(t, k, Zeros(n), buffer[..n]) && WordsAreRight(t, k, 0, buffer[..n])
  {
    hide Linkable, DisjointSites, Fits, HoldsSections, WordsAreRight, Linked;
    assert buffer[..n] == LinkedEfi(t, k, 0, Zeros(n));
    OnePerSection(t, k);
    LinkedHoldsSections(t, k, 0, Zeros(n));
    LinkedWordsAreRight(t, k, 0, Zeros(n));
  }

  lemma OnePerSection(t: Target, k: Kernel)
    requires Linkable(t, k, 0)
    ensures |k.sections| == |k.addrs|
  {
    hide Placed, Relocated, Fixups, NamedAfterTarget;
  }

  // grub_mkimage_load_image: places the sections, relocates them, makes the relocation
  // table and copies the sections into a zeroed buffer with room for the modules.
  method LoadImage(t: Target, k0: Kernel, moduleSize: nat) returns (ok: bool, k: Kernel, img: array<byte>, reloc: seq<byte>)
    requires ValidInput(t, k0)
    ensures fresh(img) && IsPlaced(t, k0, k) && (ok <==> Builds(t, k))
    ensures ok ==>
              && IsLinkedEfi(t, k, 0, Zeros(KernelSize(t, k)))
              && img[..] == LinkedEfi(t, k, 0, Zeros(KernelSize(t, k))) + Zeros(moduleSize)
              && reloc == RelocTable(t, k, 0, Zeros(KernelSize(t, k)))
              && HoldsSections(t, k, Zeros(KernelSize(t, k)), img[..KernelSize(t, k)])
              && WordsAreRight(t, k, 0, img[..KernelSize(t, k)])
  {
    hide ValidInput, Placed, ImageRoom, SymbolAddress, Fits, CopyIn, DisjointSites, NamedAfterTarget, Built, F.PaddingFits, RelocSection;
    hide F.AddAll, ValidKernel, Relocated, Fixups, KernelSize, PlaceAreas, HoldsSections, WordsAreRight, IsLinkedEfi;
    var l, addrs := Locate(t, k0);
    k := k0.(addrs := addrs, layout := l);
    EfiInput(t, k0);
    var size := KernelSize(t, k);
    img := new byte[size + moduleSize](i => 0);
    PlacedIsValid(t, k0, k);
    PlacedFits(t, k0, k);
    reloc := [];
    var values, ss;
    ok, values := SymbolValues(t, k);
    if !ok { return; }
    ok, ss := RelocateAddrs(t, k, values);
    if !ok { return; }
    RoomForFixups(t, k0, k);
    ok, reloc := MakeRelocSection(t, k);
    if !ok { return; }
    BuildsIsLinked(t, k0, k, Zeros(size));
    LinkedIsCopy(t, k, size, moduleSize);
    assert img[..] == Zeros(size + moduleSize);
    CopySections(t, ss, k.addrs, img);
    KernelIsRight(t, k, size, img[..]);
  }

  // Main result: the IMAGE_EFI way through grub_install_generate_image.  It fails exactly
  // for X.509 keys, which EFI images do not take, and for kernels that do not build; else
  // it delivers the file of the kernel as placed, with the module area of its inputs.
  method GenerateEfi(t: Target, k0: Kernel, inputs: M.Inputs, sbat: Option<seq<byte>>, header: seq<byte>)
    returns (ok: bool, k: Kernel, file: seq<byte>)
    requires ValidInput(t, k0) && |header| <= t.vaddrOffset
    ensures inputs.x509keys != [] ==> !ok
    ensures inputs.x509keys == [] ==> IsPlaced(t, k0, k) && (ok <==> Builds(t, k))
    ensures ok ==> IsPeOf(t, k, 0, Zeros(KernelSize(t, k)), M.AreaBytes(ArchOf(t), inputs), sbat, ArchOf(t).voidp, file)
  {
    hide Placed, Builds, IsLinkedEfi, LinkedEfi, RelocTable, KernelSize, EfiSizes;
    hide M.Slots, M.Objects, M.AreaBytes, SectionTable, ModsSize, PeSize, FileHolds, ValidSizes;
    file := [];
    ValidArchOf(t);
    var a := ArchOf(t);
    var total := M.TotalModuleSize(a, inputs);
    if inputs.x509keys != [] { return false, k0, file; }
    var img, reloc;
    ok, k, img, reloc := LoadImage(t, k0, total);
    if !ok { return; }
    ghost var zeros := Zeros(KernelSize(t, k));
    var end := M.WriteArea(a, inputs, total, img, KernelSize(t, k));
    assert img[..] == LinkedEfi(t, k, 0, zeros) + M.AreaBytes(a, inputs);
    TableOfKernelIsBlocks(t, k, 0, zeros);
    var s := SizesOf(t, k.layout, PlaceAreas(t, k.layout, 0, 0, 0), total, |reloc|, SbatLength(sbat));
    SizesAreEfiSizes(t, k, total, sbat);
    var pe, table := BuildPe(s, a.voidp, header, img[..], SbatBytes(sbat), reloc);
    file := pe[..];
  }

  lemma SizesAreEfiSizes(t: Target, k: Kernel, total: nat, sbat: Option<seq<byte>>)
    requires IsEfi(t) && IsLinkedEfi(t, k, 0, Zeros(KernelSize(t, k)))
    ensures SizesOf(t, k.layout, PlaceAreas(t, k.layout, 0, 0, 0), total, |RelocTable(t, k, 0, Zeros(KernelSize(t, k)))|, SbatLength(sbat))
            == EfiSizes(t, k, 0, Zeros(KernelSize(t, k)), total, SbatLength(sbat))
  {
    hide IsLinkedEfi, RelocTable, SbatLength, PlaceAreas;
  }
}
