/** Wrapping the core image as PE: `init_pe_section` and the IMAGE_EFI case of
    `grub_install_generate_image` (grub/util/mkimage.c). */
module PeImage {
  import opened Align
  import opened Bytes
  import opened Elf
  import opened Options
  import opened SectionLayout
  import opened Relocation
  import F = FixupTable

  // One entry of the section table.
  datatype PeSection = PeSection(name: string, vaddr: nat, vsize: nat, raw: nat, rawSize: nat)

  // The sizes the table is computed from.
  datatype Sizes = Sizes(
    headerSize: nat,
    execSize: nat,
    kernelSize: nat,
    coreSize: nat,
    relocSize: nat,
    sbat: Option<nat>) // size of the SBAT file

  // The header is whole file blocks and the image is placed right behind it, text and
  // kernel end on block boundaries, and the core image is the kernel followed by the
  // modules.  PlacedSizes draws this from placement.
  ghost predicate ValidSizes(s: Sizes) {
    && s.headerSize % PE_ALIGN == 0
    && s.execSize % PE_ALIGN == 0
    && s.kernelSize % PE_ALIGN == 0
    && s.execSize <= s.kernelSize <= s.coreSize
  }

  // The EFI entries of image_targets: sections and header both in blocks of PE_ALIGN.
  predicate IsEfi(t: Target) {
    t.id == ImageEfi && t.sectionAlign == PE_ALIGN && t.vaddrOffset % PE_ALIGN == 0
  }

  // The sizes that placement and the module area hand to the IMAGE_EFI case.
  function SizesOf(t: Target, l: Layout, a: Areas, moduleSize: nat, relocSize: nat, sbat: Option<nat>): Sizes {
    Sizes(t.vaddrOffset, l.execSize, a.kernelSize, a.kernelSize + moduleSize, relocSize, sbat)
  }

  lemma PlacedSizes(t: Target, ss: seq<Section>, tramp0: nat, addrs: seq<nat>, l: Layout, tramp: nat, nfuncs: nat, got: nat,
                    moduleSize: nat, relocSize: nat, sbat: Option<nat>)
    requires IsEfi(t) && |ss| == |addrs| && Placed(t, ss, tramp0, addrs, l)
    ensures ValidSizes(SizesOf(t, l, PlaceAreas(t, l, tramp, nfuncs, got), moduleSize, relocSize, sbat))
  {
    hide AlignUp;
    AreasFollowSections(t, ss, tramp0, addrs, l, tramp, nfuncs, got);
    SumOfMultiples(l.execSize + t.vaddrOffset, t.vaddrOffset, PE_ALIGN);
  }

  function SbatSize(s: Sizes, voidp: nat): nat
    requires voidp > 0
  {
    match s.sbat case None => 0 case Some(n) => AlignUp(AlignUp(n, voidp), PE_ALIGN)
  }

  function PeSize(s: Sizes, voidp: nat): nat
    requires voidp > 0
  {
    AlignUp(s.headerSize + s.coreSize, PE_ALIGN) + AlignUp(s.relocSize, PE_ALIGN) + SbatSize(s, voidp)
  }

  // init_pe_section: fills the entry and advances both cursors.
  method InitPeSection(name: string, vma: nat, vsz: nat, valign: nat, rda: nat, rsz: nat)
    returns (section: PeSection, vma': nat, rda': nat)
    requires valign > 0
    ensures section == PeSection(name, vma, vsz, rda, rsz)
    ensures vma' == AlignUp(vma + vsz, valign) && rda' == AlignUp(rda + rsz, PE_ALIGN)
  {
    section := PeSection(name, vma, vsz, rda, rsz);
    vma' := AlignUp(vma + vsz, valign);
    rda' := AlignUp(rda + rsz, PE_ALIGN);
  }

  // The sections cover [lo, hi) of the file without gap or overlap, and a loader that
  // maps them sees the file: every virtual address is the file offset.
  ghost predicate Tile(ss: seq<PeSection>, lo: nat, hi: nat) {
    && (forall i :: 0 <= i < |ss| ==>
        ss[i].vaddr == ss[i].raw && ss[i].vsize == ss[i].rawSize && ss[i].raw % PE_ALIGN == 0)
    && Chain(ss, lo, hi)
  }

  ghost predicate Chain(ss: seq<PeSection>, lo: nat, hi: nat) {
    if ss == [] then lo == hi
    else ss[0].raw == lo && Chain(ss[1..], lo + ss[0].rawSize, hi)
  }

  lemma {:induction false} ChainAppend(ss: seq<PeSection>, lo: nat, hi: nat, s: PeSection)
    requires Chain(ss, lo, hi) && s.raw == hi
    ensures Chain(ss + [s], lo, hi + s.rawSize)
    decreases |ss|
  {
    if ss == [] {
      assert ss + [s] == [s];
      assert Chain([s][1..], lo + s.rawSize, hi + s.rawSize);
    } else {
      assert (ss + [s])[1..] == ss[1..] + [s];
      ChainAppend(ss[1..], lo + ss[0].rawSize, hi, s);
    }
  }

  lemma TileAppend(ss: seq<PeSection>, lo: nat, hi: nat, s: PeSection)
    requires Tile(ss, lo, hi) && hi % PE_ALIGN == 0
    requires s.raw == hi && s.vaddr == s.raw && s.vsize == s.rawSize
    ensures Tile(ss + [s], lo, hi + s.rawSize)
  {
    ChainAppend(ss, lo, hi, s);
  }

  // The section table of the IMAGE_EFI case, as a list.
  function SectionTable(s: Sizes, voidp: nat): (ss: seq<PeSection>)
    requires voidp > 0 && ValidSizes(s)
    requires ModsSize(s, voidp) >= 0
  {
    var r1 := AlignUp(s.headerSize + s.execSize, PE_ALIGN);
    var dataSize := AlignUp(s.kernelSize - s.execSize, PE_ALIGN);
    var r2 := AlignUp(r1 + dataSize, PE_ALIGN);
    var r3 := AlignUp(r2 + ModsSize(s, voidp), PE_ALIGN);
    var sbat := SbatSize(s, voidp);
    var r4 := if s.sbat.Some? then AlignUp(r3 + sbat, PE_ALIGN) else r3;
    [ PeSection(".text", s.headerSize, s.execSize, s.headerSize, s.execSize),
      PeSection(".data", r1, dataSize, r1, dataSize),
      PeSection("mods", r2, ModsSize(s, voidp), r2, ModsSize(s, voidp)) ]
    + (if s.sbat.Some? then [PeSection(".sbat", r3, sbat, r3, sbat)] else [])
    + [PeSection(".reloc", r4, s.relocSize, r4, s.relocSize)]
  }

  // pe_size - reloc_size - sbat_size - raw_data at the "mods" section.
  function ModsSize(s: Sizes, voidp: nat): int
    requires voidp > 0 && s.execSize <= s.kernelSize
  {
    PeSize(s, voidp) - s.relocSize - SbatSize(s, voidp)
    - AlignUp(AlignUp(s.headerSize + s.execSize, PE_ALIGN) + AlignUp(s.kernelSize - s.execSize, PE_ALIGN), PE_ALIGN)
  }

  // Where "mods" starts and how long it is.
  lemma ModsStart(s: Sizes, voidp: nat)
    requires voidp > 0 && ValidSizes(s)
    ensures AlignUp(s.headerSize + s.execSize, PE_ALIGN) == s.headerSize + s.execSize
    ensures AlignUp(s.kernelSize - s.execSize, PE_ALIGN) == s.kernelSize - s.execSize
    ensures AlignUp(s.headerSize + s.kernelSize, PE_ALIGN) == s.headerSize + s.kernelSize
    ensures ModsSize(s, voidp)
         == AlignUp(s.headerSize + s.coreSize, PE_ALIGN) - (s.headerSize + s.kernelSize) + (AlignUp(s.relocSize, PE_ALIGN) - s.relocSize)
    ensures ModsSize(s, voidp) >= s.coreSize - s.kernelSize
  {
    hide AlignUp;
    SumOfMultiples(s.headerSize, s.execSize, PE_ALIGN);
    SumOfMultiples(s.headerSize, s.kernelSize, PE_ALIGN);
    SumOfMultiples(s.kernelSize, s.execSize, PE_ALIGN);
    AlignUpOfMultiple(s.headerSize + s.execSize, PE_ALIGN);
    AlignUpOfMultiple(s.headerSize + s.kernelSize, PE_ALIGN);
    AlignUpOfMultiple(s.kernelSize - s.execSize, PE_ALIGN);
  }

  // Where the section behind "mods" starts.
  function AfterMods(s: Sizes, voidp: nat): nat
    requires voidp > 0 && ValidSizes(s) && ModsSize(s, voidp) >= 0
  {
    AlignUp(s.headerSize + s.kernelSize + ModsSize(s, voidp), PE_ALIGN)
  }

  lemma AfterModsAligned(s: Sizes, voidp: nat)
    requires voidp > 0 && ValidSizes(s) && ModsSize(s, voidp) >= 0
    ensures s.relocSize % PE_ALIGN == 0 ==>
              AfterMods(s, voidp) == AlignUp(s.headerSize + s.coreSize, PE_ALIGN) == s.headerSize + s.kernelSize + ModsSize(s, voidp)
    ensures s.relocSize % PE_ALIGN != 0 ==> AfterMods(s, voidp) == AlignUp(s.headerSize + s.coreSize, PE_ALIGN) + PE_ALIGN
  {
    ModsStart(s, voidp);
    var x := AlignUp(s.headerSize + s.coreSize, PE_ALIGN);
    var gap := AlignUp(s.relocSize, PE_ALIGN) - s.relocSize;
    hide AlignUp;
    if s.relocSize % PE_ALIGN == 0 {
      AlignUpOfMultiple(s.relocSize, PE_ALIGN);
      AlignUpOfMultiple(x, PE_ALIGN);
    } else {
      assert gap > 0;
      SumOfMultiples(x, PE_ALIGN, PE_ALIGN);
      AlignUpUnique(x + gap, PE_ALIGN, x + PE_ALIGN);
    }
  }

  ghost function TableEnd(s: Sizes, voidp: nat): nat
    requires voidp > 0 && ValidSizes(s) && ModsSize(s, voidp) >= 0
  {
    AfterMods(s, voidp) + SbatSize(s, voidp) + s.relocSize
  }

  lemma SbatAligned(s: Sizes, voidp: nat)
    requires voidp > 0
    ensures SbatSize(s, voidp) % PE_ALIGN == 0
  {
  }

  // The table has its sections at these offsets.
  lemma TableShape(s: Sizes, voidp: nat)
    requires voidp > 0 && ValidSizes(s)
    ensures ModsSize(s, voidp) >= 0
    ensures var sbat := SbatSize(s, voidp);
            var a := AfterMods(s, voidp);
            SectionTable(s, voidp) ==
              [ PeSection(".text", s.headerSize, s.execSize, s.headerSize, s.execSize),
                PeSection(".data", s.headerSize + s.execSize, s.kernelSize - s.execSize, s.headerSize + s.execSize, s.kernelSize - s.execSize),
                PeSection("mods", s.headerSize + s.kernelSize, ModsSize(s, voidp), s.headerSize + s.kernelSize, ModsSize(s, voidp)) ]
              + (if s.sbat.Some? then [PeSection(".sbat", a, sbat, a, sbat)] else [])
              + [PeSection(".reloc", a + sbat, s.relocSize, a + sbat, s.relocSize)]
  {
    hide AlignUp, ModsSize, SbatSize;
    ModsStart(s, voidp);
    if s.sbat.Some? {
      SbatAligned(s, voidp);
      SumOfMultiples(AfterMods(s, voidp), SbatSize(s, voidp), PE_ALIGN);
      AlignUpOfMultiple(AfterMods(s, voidp) + SbatSize(s, voidp), PE_ALIGN);
    } else {
      NoSbat(s, voidp);
    }
  }

  lemma NoSbat(s: Sizes, voidp: nat)
    requires voidp > 0 && s.sbat.None?
    ensures SbatSize(s, voidp) == 0
  {
  }

  // Main result.  For every placed EFI kernel, every list of fixups its relocation pass
  // collects and every module area, the sections of the table tile the file from the header
  // to its end, and "mods" begins where the module area was written and holds all of it.
  lemma SectionsTileFile(t: Target, ss: seq<Section>, tramp0: nat, addrs: seq<nat>, l: Layout, tramp: nat, nfuncs: nat, got: nat,
                         fs: seq<F.Fixup>, moduleSize: nat, sbat: Option<nat>, voidp: nat)
    requires IsEfi(t) && |ss| == |addrs| && Placed(t, ss, tramp0, addrs, l) && voidp > 0
    requires forall i :: 0 <= i < |fs| ==> F.ValidFixup(fs[i])
    requires F.AddAll(F.EMPTY, fs).Some? && F.PaddingFits(F.AddAll(F.EMPTY, fs).value, t.sectionAlign)
    ensures var s := SizesOf(t, l, PlaceAreas(t, l, tramp, nfuncs, got), moduleSize, |RelocSection(fs, t.sectionAlign)|, sbat);
            && ValidSizes(s) && ModsSize(s, voidp) >= 0
            && Tile(SectionTable(s, voidp), s.headerSize, PeSize(s, voidp))
            && var mods := SectionTable(s, voidp)[2];
               mods.name == "mods" && mods.raw == s.headerSize + s.kernelSize && mods.raw + mods.rawSize >= s.headerSize + s.coreSize
  {
    hide Placed, AlignUp, ModsSize, SbatSize, Tile, TableEnd, PeSize, F.AddAll, F.PaddingFits, RelocSection;
    TableIsBlocks(fs);
    TilesIffWholeBlocks(t, ss, tramp0, addrs, l, tramp, nfuncs, got, moduleSize, |RelocSection(fs, t.sectionAlign)|, sbat, voidp);
  }

  // What is in which PE section: executable sections of the kernel in .text, its other
  // allocated sections in .data, the module area in mods, then the SBAT file if there is one,
  // and the relocation table last.
  lemma SectionsByName(t: Target, ss: seq<Section>, tramp0: nat, addrs: seq<nat>, l: Layout, i: nat,
                       moduleSize: nat, relocSize: nat, sbat: Option<nat>, voidp: nat)
    requires IsEfi(t) && IsX86(t) && |ss| == |addrs| && Placed(t, ss, tramp0, addrs, l) && voidp > 0 && i < |ss| && ss[i].alloc
    ensures var s := SizesOf(t, l, PlaceAreas(t, l, 0, 0, 0), moduleSize, relocSize, sbat);
            && ValidSizes(s) && ModsSize(s, voidp) >= 0
            && var table := SectionTable(s, voidp);
               && |table| == (if sbat.Some? then 5 else 4)
               && table[0].name == ".text" && table[1].name == ".data" && table[2].name == "mods" && table[|table| - 1].name == ".reloc"
               && (sbat.Some? ==> table[3].name == ".sbat" && table[3].rawSize >= sbat.value)
               && table[|table| - 1].rawSize == relocSize
               && Covers(table[if ss[i].exec then 0 else 1], t.vaddrOffset + addrs[i], ss[i].size)
               && Covers(table[2], s.headerSize + s.kernelSize, moduleSize)
  {
    hide AlignUp, ModsSize, SbatSize, AfterMods, PeSize;
    PlacedSizes(t, ss, tramp0, addrs, l, 0, 0, 0, moduleSize, relocSize, sbat);
    var s := SizesOf(t, l, PlaceAreas(t, l, 0, 0, 0), moduleSize, relocSize, sbat);
    TableShape(s, voidp);
    ModsStart(s, voidp);
    SbatRoom(s, voidp);
    AreasFollowSections(t, ss, tramp0, addrs, l, 0, 0, 0);
    KeptIff(t, ss[i]);
    ClassIff(t, ss[i]);
    InTextOrData(t, ss, tramp0, addrs, l, i);
  }

  ghost predicate Covers(p: PeSection, at: nat, size: nat) {
    p.vaddr <= at && at + size <= p.vaddr + p.vsize
  }

  lemma InTextOrData(t: Target, ss: seq<Section>, tramp0: nat, addrs: seq<nat>, l: Layout, i: nat)
    requires IsEfi(t) && IsX86(t) && |ss| == |addrs| && Placed(t, ss, tramp0, addrs, l) && i < |ss| && ss[i].alloc
    ensures ss[i].exec ==> addrs[i] + ss[i].size <= l.execSize
    ensures !ss[i].exec ==> l.execSize <= addrs[i]
  {
    ClassIff(t, ss[i]);
    assert InClass(t, if ss[i].exec then Text else if ss[i].kind == NoBits then Bss else Data, ss[i]);
  }

  // The closing flush pads the relocation table to whole file blocks.
  lemma TableIsBlocks(fs: seq<F.Fixup>)
    requires forall i :: 0 <= i < |fs| ==> F.ValidFixup(fs[i])
    requires F.AddAll(F.EMPTY, fs).Some? && F.PaddingFits(F.AddAll(F.EMPTY, fs).value, PE_ALIGN)
    ensures |RelocSection(fs, PE_ALIGN)| % PE_ALIGN == 0
  {
    hide F.AddAll, F.Finish, F.PaddingFits, F.TableBytes, F.ReadTable, F.BlockSize;
    F.RoundTrip(fs, PE_ALIGN);
  }

  // That padding is what the tiling rests on: with a table of any other size "mods" would
  // spill over into the next block and the table end behind the allocated file.
  lemma TilesIffWholeBlocks(t: Target, ss: seq<Section>, tramp0: nat, addrs: seq<nat>, l: Layout, tramp: nat, nfuncs: nat, got: nat,
                            moduleSize: nat, relocSize: nat, sbat: Option<nat>, voidp: nat)
    requires IsEfi(t) && |ss| == |addrs| && Placed(t, ss, tramp0, addrs, l) && voidp > 0
    ensures var s := SizesOf(t, l, PlaceAreas(t, l, tramp, nfuncs, got), moduleSize, relocSize, sbat);
            && ValidSizes(s) && ModsSize(s, voidp) >= 0
            && (relocSize % PE_ALIGN == 0 <==> Tile(SectionTable(s, voidp), s.headerSize, PeSize(s, voidp)))
            && (relocSize % PE_ALIGN != 0 ==> TableEnd(s, voidp) > PeSize(s, voidp))
            && var mods := SectionTable(s, voidp)[2];
               mods.name == "mods" && mods.raw == s.headerSize + s.kernelSize && mods.raw + mods.rawSize >= s.headerSize + s.coreSize
  {
    hide Placed, AlignUp, ModsSize, SbatSize, Tile, TableEnd, PeSize;
    PlacedSizes(t, ss, tramp0, addrs, l, tramp, nfuncs, got, moduleSize, relocSize, sbat);
    var s := SizesOf(t, l, PlaceAreas(t, l, tramp, nfuncs, got), moduleSize, relocSize, sbat);
    TileOrOverrun(s, voidp);
    if relocSize % PE_ALIGN != 0 { OverrunIsNoTile(s, voidp); }
  }

  // A table that ends behind the file does not tile it.
  lemma OverrunIsNoTile(s: Sizes, voidp: nat)
    requires voidp > 0 && ValidSizes(s) && ModsSize(s, voidp) >= 0 && TableEnd(s, voidp) > PeSize(s, voidp)
    ensures !Tile(SectionTable(s, voidp), s.headerSize, PeSize(s, voidp))
  {
    hide AlignUp, ModsSize, SbatSize, AfterMods, PeSize;
    TableShape(s, voidp);
    var t := SectionTable(s, voidp);
    if Tile(t, s.headerSize, PeSize(s, voidp)) {
      ChainEnd(t, s.headerSize, PeSize(s, voidp));
    }
  }

  lemma {:induction false} ChainEnd(ss: seq<PeSection>, lo: nat, hi: nat)
    requires Chain(ss, lo, hi) && ss != []
    ensures ss[|ss| - 1].raw + ss[|ss| - 1].rawSize == hi
    decreases |ss|
  {
    if |ss| > 1 {
      ChainEnd(ss[1..], lo + ss[0].rawSize, hi);
    } else {
      assert ss[1..] == [];
    }
  }

  lemma TileOrOverrun(s: Sizes, voidp: nat)
    requires voidp > 0 && ValidSizes(s)
    ensures ModsSize(s, voidp) >= 0
    ensures s.relocSize % PE_ALIGN == 0 ==> Tile(SectionTable(s, voidp), s.headerSize, PeSize(s, voidp))
    ensures s.relocSize % PE_ALIGN != 0 ==> TableEnd(s, voidp) > PeSize(s, voidp)
    ensures var mods := SectionTable(s, voidp)[2];
            mods.name == "mods" && mods.raw == s.headerSize + s.kernelSize && mods.raw + mods.rawSize >= s.headerSize + s.coreSize
  {
    hide AlignUp, ModsSize, SbatSize;
    TableShape(s, voidp);
    ModsStart(s, voidp);
    AfterModsAligned(s, voidp);
    if s.relocSize % PE_ALIGN == 0 {
      AlignUpOfMultiple(s.relocSize, PE_ALIGN);
      TilesWhenAligned(s, voidp);
    } else {
      assert AlignUp(s.relocSize, PE_ALIGN) < s.relocSize + PE_ALIGN;
    }
  }

  lemma TilesWhenAligned(s: Sizes, voidp: nat)
    requires voidp > 0 && ValidSizes(s) && s.relocSize % PE_ALIGN == 0
    requires ModsSize(s, voidp) >= 0
    ensures Tile(SectionTable(s, voidp), s.headerSize, PeSize(s, voidp))
  {
    hide AlignUp, ModsSize, SbatSize, SectionTable, Tile;
    TableShape(s, voidp);
    ModsStart(s, voidp);
    AfterModsAligned(s, voidp);
    SbatAligned(s, voidp);
    var t := SectionTable(s, voidp);
    var h, a, b := s.headerSize, AfterMods(s, voidp), SbatSize(s, voidp);
    SumOfMultiples(h, s.execSize, PE_ALIGN);
    SumOfMultiples(h, s.kernelSize, PE_ALIGN);
    SumOfMultiples(a, b, PE_ALIGN);
    AlignUpOfMultiple(s.relocSize, PE_ALIGN);
    TileNone(h);
    TileAppend([], h, h, t[0]);
    TileAppend([] + [t[0]], h, h + s.execSize, t[1]);
    TileAppend([] + [t[0]] + [t[1]], h, h + s.kernelSize, t[2]);
    var u := [] + [t[0]] + [t[1]] + [t[2]];
    if s.sbat.Some? {
      TileAppend(u, h, a, t[3]);
      TileAppend(u + [t[3]], h, a + b, t[4]);
      assert t == u + [t[3]] + [t[4]];
    } else {
      NoSbat(s, voidp);
      TileAppend(u, h, a, t[3]);
      assert t == u + [t[3]];
    }
  }

  lemma TileNone(h: nat)
    ensures Tile([], h, h)
  {
  }

  /* ---- the file ---- */

  // The section table of the IMAGE_EFI case, entry by entry; also the file offsets at
  // which the SBAT file and the relocation table are stored.
  method LaySections(s: Sizes, voidp: nat) returns (table: seq<PeSection>, sbatAt: nat, relocAt: nat)
    requires voidp > 0 && ValidSizes(s)
    ensures ModsSize(s, voidp) >= 0 && table == SectionTable(s, voidp)
    ensures sbatAt == AfterMods(s, voidp) && relocAt == sbatAt + SbatSize(s, voidp)
  {
    hide SectionTable, AlignUp, SbatSize, ValidSizes;
    TableShape(s, voidp);
    ModsStart(s, voidp);
    hide ModsSize;
    LayStart(s, voidp);
    var vma, rda := s.headerSize, s.headerSize;
    var text, data, mods, rel;
    text, vma, rda := InitPeSection(".text", vma, s.execSize, PE_ALIGN, rda, s.execSize);
    var scn := AlignUp(s.kernelSize - s.execSize, PE_ALIGN);
    data, vma, rda := InitPeSection(".data", vma, scn, PE_ALIGN, rda, scn);
    scn := PeSize(s, voidp) - s.relocSize - SbatSize(s, voidp) - rda;
    assert scn == ModsSize(s, voidp);
    mods, vma, rda := InitPeSection("mods", vma, scn, PE_ALIGN, rda, scn);
    table, sbatAt := [text, data, mods], rda;
    SbatRoom(s, voidp);
    if s.sbat.Some? {
      var section;
      SbatAligned(s, voidp);
      SumOfMultiples(rda, SbatSize(s, voidp), PE_ALIGN);
      AlignUpOfMultiple(rda + SbatSize(s, voidp), PE_ALIGN);
      section, vma, rda := InitPeSection(".sbat", vma, SbatSize(s, voidp), PE_ALIGN, rda, SbatSize(s, voidp));
      table := table + [section];
    }
    relocAt := rda;
    rel, vma, rda := InitPeSection(".reloc", vma, s.relocSize, PE_ALIGN, rda, s.relocSize);
    table := table + [rel];
  }

  lemma LayStart(s: Sizes, voidp: nat)
    requires voidp > 0 && ValidSizes(s)
    ensures s.execSize <= s.kernelSize
    ensures ModsSize(s, voidp) == PeSize(s, voidp) - s.relocSize - SbatSize(s, voidp) - (s.headerSize + s.kernelSize)
  {
    hide AlignUp, SbatSize;
    ModsStart(s, voidp);
  }

  // Allocating the file and copying the parts in.  `header` is the header's bytes.
  method BuildPe(s: Sizes, voidp: nat, header: seq<byte>, core: seq<byte>, sbat: seq<byte>, reloc: seq<byte>)
    returns (pe: array<byte>, table: seq<PeSection>)
    requires voidp > 0 && ValidSizes(s) && s.relocSize % PE_ALIGN == 0
    requires |header| <= s.headerSize && |core| == s.coreSize && |reloc| == s.relocSize
    requires s.sbat.Some? ==> s.sbat.value == |sbat|
    ensures fresh(pe) && pe.Length == PeSize(s, voidp)
    ensures ModsSize(s, voidp) >= 0 && table == SectionTable(s, voidp)
    ensures |table| == if s.sbat.Some? then 5 else 4
    ensures FileHolds(pe[..], table, s, core, sbat, reloc)
  {
    hide ModsSize, SbatSize, SectionTable, FileHolds, AlignUp, AfterMods, Holds;
    var sbatAt, relocAt;
    table, sbatAt, relocAt := LaySections(s, voidp);
    PartsInOrder(s, voidp);
    SbatRoom(s, voidp);
    pe := new byte[PeSize(s, voidp)](i => 0);
    CopyParts(pe, header, s.headerSize, core, sbatAt, if s.sbat.Some? then sbat else [], relocAt, reloc);
    BuiltFileHolds(pe[..], s, voidp, core, sbat, reloc);
  }

  method CopyParts(pe: array<byte>, header: seq<byte>, coreAt: nat, core: seq<byte>, sbatAt: nat, sbat: seq<byte>, relocAt: nat, reloc: seq<byte>)
    requires |header| <= coreAt && coreAt + |core| <= sbatAt && sbatAt + |sbat| <= relocAt && relocAt + |reloc| <= pe.Length
    modifies pe
    ensures Holds(pe[..], coreAt, core) && Holds(pe[..], sbatAt, sbat) && Holds(pe[..], relocAt, reloc)
  {
    hide Holds;
    Put(pe, coreAt, core);
    ghost var f1 := pe[..];
    Put(pe, 0, header);
    HoldsElsewhere(f1, 0, header, coreAt, core);
    ghost var f2 := pe[..];
    Put(pe, sbatAt, sbat);
    HoldsElsewhere(f2, sbatAt, sbat, coreAt, core);
    ghost var f3 := pe[..];
    Put(pe, relocAt, reloc);
    HoldsElsewhere(f3, relocAt, reloc, coreAt, core);
    HoldsElsewhere(f3, relocAt, reloc, sbatAt, sbat);
  }

  method Put(pe: array<byte>, at: nat, data: seq<byte>)
    requires at + |data| <= pe.Length
    modifies pe
    ensures pe[..] == Splice(old(pe[..]), at, data) && Holds(pe[..], at, data)
  {
    Memcpy(pe, at, data);
  }

  lemma HoldsElsewhere(file: seq<byte>, at: nat, data: seq<byte>, otherAt: nat, other: seq<byte>)
    requires at + |data| <= |file| && Holds(file, otherAt, other)
    requires at + |data| <= otherAt || otherAt + |other| <= at
    ensures Holds(Splice(file, at, data), otherAt, other)
  {
  }

  // Core image, SBAT data and relocation table follow each other inside the file.
  lemma PartsInOrder(s: Sizes, voidp: nat)
    requires voidp > 0 && ValidSizes(s) && s.relocSize % PE_ALIGN == 0 && ModsSize(s, voidp) >= 0
    ensures s.headerSize + s.coreSize <= AfterMods(s, voidp)
    ensures AfterMods(s, voidp) + SbatSize(s, voidp) + s.relocSize == PeSize(s, voidp)
  {
    hide AlignUp, ModsSize, SbatSize;
    AfterModsAligned(s, voidp);
    AlignUpOfMultiple(s.relocSize, PE_ALIGN);
  }

  lemma SbatRoom(s: Sizes, voidp: nat)
    requires voidp > 0
    ensures s.sbat.Some? ==> s.sbat.value <= SbatSize(s, voidp)
    ensures s.sbat.None? ==> SbatSize(s, voidp) == 0
  {
  }

  ghost predicate Holds(file: seq<byte>, at: nat, data: seq<byte>) {
    at + |data| <= |file| && file[at..at + |data|] == data
  }

  // The file has the core image behind the header and the SBAT and relocation data
  // where the table says.
  ghost predicate FileHolds(file: seq<byte>, table: seq<PeSection>, s: Sizes, core: seq<byte>, sbat: seq<byte>, reloc: seq<byte>)
    requires |table| == if s.sbat.Some? then 5 else 4
  {
    && Holds(file, s.headerSize, core)
    && (s.sbat.Some? ==> Holds(file, table[3].raw, sbat))
    && Holds(file, table[|table| - 1].raw, reloc)
  }

  lemma BuiltFileHolds(file: seq<byte>, s: Sizes, voidp: nat, core: seq<byte>, sbat: seq<byte>, reloc: seq<byte>)
    requires voidp > 0 && ValidSizes(s) && s.relocSize % PE_ALIGN == 0 && ModsSize(s, voidp) >= 0
    requires Holds(file, s.headerSize, core)
    requires s.sbat.Some? ==> Holds(file, AfterMods(s, voidp), sbat)
    requires Holds(file, AfterMods(s, voidp) + SbatSize(s, voidp), reloc)
    ensures |SectionTable(s, voidp)| == if s.sbat.Some? then 5 else 4
    ensures FileHolds(file, SectionTable(s, voidp), s, core, sbat, reloc)
  {
    hide Holds, AlignUp, ModsSize, SbatSize;
    TableShape(s, voidp);
  }

  /* ---- mapping and running it ---- */

  // A loader has mapped every section of the file to its virtual address.
  ghost predicate Mapped(file: seq<byte>, table: seq<PeSection>, mem: seq<byte>) {
    forall i :: 0 <= i < |table| ==>
      && table[i].raw + table[i].rawSize <= |file|
      && table[i].vaddr + table[i].vsize <= |mem|
      && table[i].vsize <= table[i].rawSize
      && mem[table[i].vaddr..table[i].vaddr + table[i].vsize] == file[table[i].raw..table[i].raw + table[i].vsize]
  }

  lemma {:induction false} MappedByte(file: seq<byte>, table: seq<PeSection>, mem: seq<byte>, lo: nat, hi: nat, p: nat)
    requires Tile(table, lo, hi) && Mapped(file, table, mem) && lo <= p < hi
    ensures p < |mem| && p < |file| && mem[p] == file[p]
    decreases |table|
  {
    var s := table[0];
    if p < lo + s.rawSize {
      assert mem[s.vaddr..s.vaddr + s.vsize][p - lo] == file[s.raw..s.raw + s.vsize][p - lo];
    } else {
      MappedByte(file, table[1..], mem, lo + s.rawSize, hi, p);
    }
  }

  lemma MappedRange(file: seq<byte>, table: seq<PeSection>, mem: seq<byte>, lo: nat, hi: nat, at: nat, data: seq<byte>)
    requires Tile(table, lo, hi) && Mapped(file, table, mem)
    requires lo <= at && at + |data| <= hi && Holds(file, at, data) && hi <= |mem|
    ensures Holds(mem, at, data)
  {
    forall p | at <= p < at + |data| ensures mem[p] == file[p] {
      MappedByte(file, table, mem, lo, hi, p);
    }
  }

  lemma HoldsRange(mem: seq<byte>, at: nat, x: seq<byte>)
    requires Holds(mem, at, x)
    ensures at + |x| <= |mem| && mem[at..at + |x|] == x
  {
  }

  lemma HoldsParts(mem: seq<byte>, at: nat, x: seq<byte>, y: seq<byte>)
    requires Holds(mem, at, x + y)
    ensures Holds(mem, at, x) && Holds(mem, at + |x|, y)
  {
    assert mem[at..at + |x|] == mem[at..at + |x + y|][..|x|];
    assert mem[at + |x|..at + |x| + |y|] == mem[at..at + |x + y|][|x|..];
  }

  lemma MappedParts(s: Sizes, voidp: nat, file: seq<byte>, mem: seq<byte>, core: seq<byte>, sbat: seq<byte>, reloc: seq<byte>)
    requires voidp > 0 && ValidSizes(s) && s.relocSize % PE_ALIGN == 0 && ModsSize(s, voidp) >= 0
    requires |core| == s.coreSize && |reloc| == s.relocSize && |file| == |mem| == PeSize(s, voidp)
    requires |SectionTable(s, voidp)| == if s.sbat.Some? then 5 else 4
    requires FileHolds(file, SectionTable(s, voidp), s, core, sbat, reloc)
    requires Mapped(file, SectionTable(s, voidp), mem)
    ensures var table := SectionTable(s, voidp);
            var rel := table[|table| - 1];
            && rel.vaddr == rel.raw && rel.vsize == s.relocSize
            && Holds(mem, s.headerSize, core) && Holds(mem, rel.vaddr, reloc)
  {
    hide AlignUp, ModsSize, SbatSize, Holds, Mapped;
    TableShape(s, voidp);
    TileOrOverrun(s, voidp);
    AfterModsAligned(s, voidp);
    AlignUpOfMultiple(s.relocSize, PE_ALIGN);
    var table := SectionTable(s, voidp);
    MappedRange(file, table, mem, s.headerSize, PeSize(s, voidp), s.headerSize, core);
    MappedRange(file, table, mem, s.headerSize, PeSize(s, voidp), table[|table| - 1].raw, reloc);
  }
}
