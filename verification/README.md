# GRUB image tools and kernel memory, modelled in Dafny

This project models the parts of the tree where bytes, addresses and state have to agree
across functions, and proves that they do.

- **Image builder** (`Elf`, `SectionLayout`, `WordPatch`, `FixupTable`, `Relocation`,
  `LinkedImage`, `RiscvImmediates`, `RiscvRelocation`, `ArmTrampolines`, `ModuleArea`,
  `PeImage`, `EfiImage`): placing ELF sections, relocating them, emitting the PE base-relocation table,
  packing modules and writing the PE file, and all of it from the kernel file to what a loader
  has in memory.
- **Module resolver** (`Resolver`): the recursive walk over the dependency list.
- **Fonts** (`GlyphBitmap`, `GlyphSort`, `Pf2Font`, `Pf2Load`, `FontPipeline`): cropping,
  packing, sorting and writing PF2 glyphs, loading them, and all of it from picture to screen.
- **Memdisk archive** (`TarHeader`, `TarArchive`, `TarFs`): the ustar writer against a ustar
  reader and against the boot-time driver.
- **AutoGen definitions** (`Autogen`, `AutogenSyntax`, `AutogenGrammar`): the table-driven
  parser, the syntax it reads, and the language it accepts.
- **Install transaction** (`Install`): backup, commit and rollback of directories.
- **Frames and pages** (`FrameBitmap`, `PageTables`): the kernel's bitmap allocator and page
  mapping.
- **PCI windows** (`PciWindows`): the reference-counted windows of the Bonito 2F bridge.

`Align`, `Bytes`, `Counting` and `Options` hold rounding, byte encodings, pigeonhole arguments
and the option type.  Where the source stops with an error, functions return `None` and
methods a flag.  Files, directory listings, process numbers and memory contents are parameters
or fields.

Some properties one would expect do not hold of the code as it is.  The model keeps the code
and the theorems give the exact condition, each with an input at which it fails:
`Relocation.LoadingIsLinkingIff` (`StrayKernelFails`), `ArmTrampolines.ArmBranchLands`
(`ArmBranchMisses`), `RiscvImmediates.HalvesAddUp` (offsets from 0x7fff_f800 on),
`RiscvRelocation.AddSubDifference` (`ByteDifferenceFails`), `Pf2Load.SortedFontShowsAll`
(`EmptyGlyphsAreRefused`),
`TarFs.MemdiskIsReadable` (no files), `AutogenSyntax.IntendedIff` (`CommaAfterBlock`),
`Install.RollbackIffOnce` (`SecondRegistrationLosesAll`), `PageTables.MappingLastsIff`
(`Paging.PagingInit`), `PciWindows.RightIffSafe` (`UnsafeGoesWrong`) and
`PciWindows.ReachesIffNoWrap` (`WrappingExample`).

`dafny verify dfyconfig.toml` checks everything.

## Model

| member | source | states |
|---|---|---|
| `Elf.KeptIff` | grub/util/grub-mkimagexx.c:2271-2291 | by a section's flags: EFI images keep every allocated section, the other relocatable ones all but the bss, and fixed ones only allocated program contents |
| `Elf.ClassIff` | grub/util/grub-mkimagexx.c:2241-2269 | for relocatable images text, data and bss are told apart by the flags and by NOBITS alone |
| `SectionLayout.PutAddress` | grub/util/grub-mkimagexx.c:2338-2361 | a section is put at or after the current address and meets its alignment once the virtual offset is added |
| `SectionLayout.PlaceClass` | grub/util/grub-mkimagexx.c:2390-2397 | one placing loop: the sections of one class follow each other in file order, the others keep their addresses |
| `SectionLayout.LocateSections` | grub/util/grub-mkimagexx.c:2367-2465 | text, trampolines, data and bss are laid out as `Placed` says, within a bound that follows from sizes and alignments, and every virtual address is the address plus the offset |
| `SectionLayout.PlacementSeparates` | grub/util/grub-mkimagexx.c:2390-2465 | no address belongs to two allocated sections; text lies below the executable size, data between it and the bss start, bss above, and none touches the ARM trampolines |
| `SectionLayout.PlacementIsDisjoint` | grub/util/grub-mkimagexx.c:2390-2465 | kept sections are pairwise disjoint |
| `SectionLayout.KeptBelowKernelSize` | grub/util/grub-mkimagexx.c:2426-2464 | every kept section ends below the kernel size that placement computed |
| `SectionLayout.AreasFollowSections` | grub/util/grub-mkimagexx.c:2588-2623 | IA-64 trampolines, jump table and GOT, and the AArch64 GOT, come after all kept sections, in order and disjoint; the EFI kernel size is a multiple of the file alignment |
| `SectionLayout.CopySections` | grub/util/grub-mkimagexx.c:2660-2672 | the copy loop leaves at every kept section's address its file bytes, and zeros for a NOBITS section, and is the copy in file order |
| `SectionLayout.CopyAnyOrder` | grub/util/grub-mkimagexx.c:2660-2672 | whatever the order of copying, every kept section ends up at its address, its file bytes or zeros for NOBITS, and trampoline, jump table and GOT bytes are untouched |
| `WordPatch.AddAtModulo` | grub/util/grub-mkimagexx.c:936-1015 | only the added amount modulo the word size matters, so wrap-around in a wider intermediate does not show |
| `WordPatch.AddAtCommute` | grub/util/grub-mkimagexx.c:936-1015 | patches of words that do not overlap can be exchanged |
| `FixupTable.BuildsIffRunsFit` | grub/util/grub-mkimagexx.c:1580-1671 | the table builder accepts a fixup sequence if and only if no page but the topmost gets more than 0x1000 fixups in a row |
| `FixupTable.RoundTrip` | grub/util/grub-mkimagexx.c:1580-1671 | a PE loader decoding the emitted blocks gets back exactly the fixups in order; the size equals the running address, is a multiple of the section alignment, and every block but the last is a multiple of 8 bytes |
| `FixupTable.SpreadFits` | grub/util/grub-mkimagexx.c:1596-1661 | fixups of words that do not overlap never make the builder give up, and the unchecked padding of the last block stays inside its buffer |
| `FixupTable.FixupWriter.Pad` | grub/util/grub-mkimagexx.c:1610-1614 | appends zero entries to the open block and changes nothing else |
| `FixupTable.FixupWriter.PadTo8` | grub/util/grub-mkimagexx.c:1616-1626 | pads the open block to a multiple of 8 bytes |
| `FixupTable.FixupWriter.PadToSection` | grub/util/grub-mkimagexx.c:1596-1615 | pads the last block so that the table ends on a section boundary |
| `FixupTable.FixupWriter.Flush` | grub/util/grub-mkimagexx.c:1628-1637 | closes the open block and advances the running address by its size |
| `FixupTable.FixupWriter.Store` | grub/util/grub-mkimagexx.c:1643-1668 | opens a block for the page if none is open and stores the entry; refuses exactly when the block is full |
| `FixupTable.FixupWriter.AddFixupEntry` | grub/util/grub-mkimagexx.c:1580-1671 | one call of the builder, in both its adding and its flushing use, does what `Add` and `Finish` say |
| `FixupTable.FixupWriter.Emit` | grub/util/grub-mkimagexx.c:2047-2063 | the emitted section is the finished blocks in order, and its length is the running address, which is the closing assert |
| `Relocation.RelocateSymbols` | grub/util/grub-mkimagexx.c:642-720 | every symbol's value becomes the address it stands for: its section's address plus offset and value, the bss start, the end, or its own value; stops exactly on an unresolvable symbol; the start address is that of the first `_start` or `start` |
| `Relocation.ApplyReloc` | grub/util/grub-mkimagexx.c:936-1015 | one 386 or x86-64 relocation gives the section contents of `Patch`, or is refused as unsupported; what the word then holds is LinkedImage.LinkedWordsAreRight |
| `Relocation.RelocateAddrs` | grub/util/grub-mkimagexx.c:859-1034 | the loop over all relocation entries gives the section contents of `Relocated`, and fails when that does; what the words then hold is LinkedImage.LinkedWordsAreRight, when it fails LinkedImage.RelocatesIff |
| `Relocation.TranslatedIffTargetKept` | grub/util/grub-mkimagexx.c:2294-2319 | a relocation section takes part in the fixup table if and only if the section it patches is kept |
| `Relocation.FixupsOfReloc` | grub/util/grub-mkimagexx.c:1707-1747 | an absolute relocation that reaches the output gets exactly one fixup, for its own word and of its width; every other relocation gets none |
| `Relocation.MakeRelocSection` | grub/util/grub-mkimagexx.c:2166-2237 | the emitted .reloc section is the table of exactly those fixups; fails when a fixup cannot be expressed or a block overflows |
| `Relocation.ImageOfRelocated` | grub/util/grub-mkimagexx.c:859-1034 | relocating section contents and then copying them out is the same as patching the copied image |
| `Relocation.DeltaShift` | grub/util/grub-mkimagexx.c:936-1015 | moving the link base moves the amount added by the base for absolute relocations and not at all for PC-relative ones, for section-defined symbols |
| `Relocation.StraySymbolShows` | grub/util/grub-mkimagexx.c:642-720 | a relocation against an absolute or undefined symbol makes the loaded image differ from the one linked at the load address, at every base that is not a multiple of what the word can hold |
| `Relocation.LoadingIsLinkingIff` | grub/util/grub-mkimagexx.c:859-1034 | for any base at all, linking at 0 and adding the base at exactly the emitted fixups gives the bytes of linking at that base, if and only if every relocation that reaches the output is against a section-defined symbol or the base is zero in its word |
| `Relocation.TableAlwaysFits` | grub/util/grub-mkimagexx.c:2166-2237 | relocations of words that do not overlap never overflow the fixup table |
| `Relocation.RelocatingCommutesWithLoading` | grub/util/grub-mkimagexx.c:859-1034 | an image linked at 0 is right at every load address, if and only if every relocation that reaches the output is against a section-defined symbol; one base that is not zero in 32 bits decides it |
| `Relocation.StrayKernelFails` | grub/util/grub-mkimagexx.c:642-720 | a kernel of one relocation against an absolute symbol is linked and is wrong at every base below 4 GiB but 0 |
| `Relocation.LoadedImageRunsIff` | grub/util/grub-mkimagexx.c:2166-2237 | the same through the bytes of the .reloc section as a loader reads them, with the same condition both ways |
| `LinkedImage.LinkedWordsAreRight` | grub/util/grub-mkimagexx.c:895-1030 | every word that a relocation in the output patches holds, modulo its size, what was stored there plus symbol plus addend, less the address of the word for the PC-relative types, by type number and section address |
| `LinkedImage.LoadedWordsAreRight` | grub/util/grub-mkimagexx.c:895-1030 | after a loader has added any base at the fixups, the absolute words of that equation have grown by the base and the PC-relative ones have not |
| `LinkedImage.LinkedHoldsSections` | grub/util/grub-mkimagexx.c:2655-2672 | every byte of the linked image that no relocation patches is its section's file byte, zero in a NOBITS section, and what was there before outside all sections |
| `LinkedImage.RelocatesIff` | grub/util/grub-mkimagexx.c:936-1030 | linking succeeds if and only if every relocation that is applied has one of the type numbers 0, 1, 2 on EM_386, and 0, 1, 2, 4, 10, 11, 24 on EM_X86_64 |
| `LinkedImage.FixupsIff` | grub/util/grub-mkimagexx.c:1707-1747 | the fixups can be made if and only if no relocation of an allocated section has the type number 10 or 11 on EM_X86_64 |
| `LinkedImage.SymbolNamesByte` | grub/util/grub-mkimagexx.c:640-720 | a symbol's value, less the virtual offset, is the place in the image of the very byte of its section that it names |
| `LinkedImage.BssSymbols` | grub/util/grub-mkimagexx.c:677-690 | `__bss_start` lies behind all text and data and before all bss, and `_end` behind everything |
| `RiscvImmediates.BranchDecodes` | grub/util/grub-mkimagexx.c:1426-1435 | the patched conditional branch decodes to the offset if and only if the offset is even and in range |
| `RiscvImmediates.BranchKeepsRest` | grub/util/grub-mkimagexx.c:1426-1435 | bits outside the branch immediate are kept |
| `RiscvImmediates.JalDecodes` | grub/util/grub-mkimagexx.c:1436-1445 | the patched JAL decodes to the offset if and only if it is even and in range |
| `RiscvImmediates.JalKeepsRest` | grub/util/grub-mkimagexx.c:1436-1445 | bits outside the JAL immediate are kept |
| `RiscvImmediates.RvcBranchDecodes` | grub/util/grub-mkimagexx.c:1460-1470 | the same for the compressed branch, with its other bits kept |
| `RiscvImmediates.RvcJumpDecodes` | grub/util/grub-mkimagexx.c:1471-1485 | the same for the compressed jump, with its other bits kept |
| `RiscvImmediates.UpperDecodes` | grub/util/grub-mkimagexx.c:1486-1496 | the upper-immediate patch decodes to the rounded high part and keeps the low 12 bits |
| `RiscvImmediates.LowIDecodes` | grub/util/grub-mkimagexx.c:1526-1530 | the I-format low part decodes to the signed low 12 bits and keeps the rest |
| `RiscvImmediates.LowSDecodes` | grub/util/grub-mkimagexx.c:1526-1536 | the S-format low part decodes to the signed low 12 bits and keeps the rest |
| `RiscvImmediates.HalvesAddUp` | grub/util/grub-mkimagexx.c:1451-1457 | high and low part sum to the offset modulo 2^32, and exactly if it is below 2^31 - 2^11; the 2 KiB above that the range test lets through come out 2^32 short |
| `RiscvImmediates.PairModulo` | grub/util/grub-mkimagexx.c:1544-1560 | high and low part of any value sum to it modulo 2^32 |
| `RiscvRelocation.FindHi20` | grub/util/grub-mkimagexx.c:1502-1541 | the backward search finds a PCREL_HI20 at the named address, and finds none only if there is none |
| `RiscvRelocation.RelocateSection` | grub/util/grub-mkimagexx.c:1379-1569 | the loop over a relocation section, every type included, gives the bytes that `Relocate` describes, or stops where it does |
| `RiscvRelocation.RelocateStopsIff` | grub/util/grub-mkimagexx.c:1446-1569 | the run stops exactly at an offset outside the signed 32-bit range, a low part whose high part is missing, or an unknown type |
| `RiscvRelocation.PcrelPairReaches` | grub/util/grub-mkimagexx.c:1486-1543 | after any run, a low part and the high part it names, if nothing else patches their instructions, together reach that high part's symbol plus addend from its location |
| `RiscvRelocation.CallReaches` | grub/util/grub-mkimagexx.c:1446-1459 | after any run, the two instructions of a CALL reach symbol plus addend |
| `RiscvRelocation.BranchReaches` | grub/util/grub-mkimagexx.c:1426-1445 | after any run, a branch or JAL goes to its symbol if and only if the offset is even and in range |
| `RiscvRelocation.RvcReaches` | grub/util/grub-mkimagexx.c:1460-1485 | the same for the compressed branch and jump |
| `RiscvRelocation.AbsolutePairReaches` | grub/util/grub-mkimagexx.c:1544-1560 | an absolute HI20 and LO12 against one value give it back modulo 2^32 |
| `RiscvRelocation.AddSubDifference` | grub/util/grub-mkimagexx.c:1399-1425 | after any run, a place that an ADD and a SUB share, in either order, holds what it held plus the difference of their symbols, if and only if it is wider than a byte or its byte reads the same turned around |
| `RiscvRelocation.LoneSum` | grub/util/grub-mkimagexx.c:1399-1425 | after any run, a place that only one ADD or SUB patches holds what it held plus or minus that value, and in a byte the value minus what it held for SUB |
| `RiscvRelocation.ByteDifferenceFails` | grub/util/grub-mkimagexx.c:1399-1425 | a byte that is to hold the distance 1 comes out as 255, because the 8-bit SUB subtracts the wrong way round |
| `ArmTrampolines.GetTrampolineSize` | grub/util/grub-mkimagexx.c:774-846 | the counted size is the sum over all relocations, and the count fails exactly on an unknown relocation |
| `ArmTrampolines.ParityIsKept` | grub/util/grub-mkimagexx.c:642-720 | relocating a symbol whose section sits at an even address keeps its Thumb bit |
| `ArmTrampolines.ConsumedWithinCounted` | grub/util/grub-mkimagexx.c:1299-1369 | a branch never takes more trampoline bytes than were counted for it |
| `ArmTrampolines.TrampolinePerBranch` | grub/util/grub-mkimagexx.c:820-845 | by type number: a Thumb branch is counted and takes 8 bytes for an even target, an ARM branch 16 for an odd one, and nothing else takes any |
| `ArmTrampolines.TrampolinesFit` | grub/util/grub-mkimagexx.c:775-846 | at every point of the second pass the bytes consumed are at most the bytes counted in the first |
| `ArmTrampolines.OddMoveOverruns` | grub/util/grub-mkimagexx.c:1342-1369 | a symbol that moves by an odd amount breaks that bound for some addend |
| `ArmTrampolines.TrampolinesSurvive` | grub/util/grub-mkimagexx.c:2412-2423 | every trampoline lies word-aligned between text and data, before the next one, and the final copy leaves its bytes alone |
| `ArmTrampolines.Jump24RoundTrip` | grub/grub-core/kern/arm/dl_helper.c:212-245 | storing a 24-bit branch offset and reading it back gives the offset rounded down to a word, and the opcode byte is kept |
| `ArmTrampolines.ThmRoundTrip` | grub/grub-core/kern/arm/dl_helper.c:67-126 | the same for the Thumb branch pair, up to the lowest bit |
| `ArmTrampolines.ArmTrampolineLands` | grub/util/grub-mkimagexx.c:1347-1362 | the ARM-to-Thumb trampoline runs its three instructions to the symbol plus the patched section's address |
| `ArmTrampolines.ThumbTrampolineLands` | grub/util/grub-mkimagexx.c:1314-1329 | the Thumb-to-ARM trampoline likewise |
| `ArmTrampolines.ArmBranchLands` | grub/util/grub-mkimagexx.c:1342-1369 | for every stored displacement g, a direct ARM branch lands the patched section's address and g + 8 past its symbol, and a trampoline is hit if and only if g is -8; with that g branches are right if and only if the section is at address 0 |
| `ArmTrampolines.ArmBranchMisses` | grub/util/grub-mkimagexx.c:1342-1369 | a branch in a section placed at 0x40 lands 0x40 past its symbol |
| `ArmTrampolines.ThumbBranchLands` | grub/util/grub-mkimagexx.c:1299-1340 | the same for Thumb branches, with -4 |
| `ModuleArea.TotalModuleSize` | grub/util/mkimage.c:914-992 | the sizing pass gives the info header plus one slot per object |
| `ModuleArea.SizeEach` | grub/util/mkimage.c:919-948 | keys: one slot each |
| `ModuleArea.SizeMaybe` | grub/util/mkimage.c:950-988 | an optional file counts its slot, padded as its kind wants |
| `ModuleArea.SizeFlag` | grub/util/mkimage.c:970-974 | a flag is a bare header |
| `ModuleArea.WriteObject` | grub/util/mkimage.c:1051-1175 | writes one header and its contents into zeroed room and ends behind its slot |
| `ModuleArea.WriteObjects` | grub/util/mkimage.c:1051-1175 | a list of objects goes into consecutive slots |
| `ModuleArea.WriteArea` | grub/util/mkimage.c:1018-1175 | the writing pass ends exactly at the start plus the total of the sizing pass, and has put the area's bytes there and changed nothing else; which input is where is ModuleArea.WalkShowsInputs |
| `ModuleArea.SizeRoundsToSlot` | grub/include/grub/kernel.h:104-110 | rounding a header's size field up to a pointer gives the slot |
| `ModuleArea.WalkVisitsAll` | grub/include/grub/kernel.h:104-110 | the kernel's walk over the written area visits every object written once, in order, and stops at its end |
| `ModuleArea.ContentsAreShown` | grub/util/mkimage.c:1018-1175 | what the walk shows of an object starts with its contents and has its type; keys come back exactly |
| `ModuleArea.WalkShowsInputs` | grub/include/grub/kernel.h:25-110 | the walk over the written area shows the inputs and nothing else: by type number, the modules, keys, memory disk, device tree, flags, configuration and prefix given, each zero-padded as its type wants, in that order of types |
| `PeImage.LaySections` | grub/util/mkimage.c:1477-1548 | the EFI case builds exactly the section table and stores SBAT and relocations behind the modules |
| `PeImage.PlacedSizes` | grub/util/grub-mkimagexx.c:2426-2464 | placement makes header, text and kernel sizes whole file blocks in the right order |
| `PeImage.SectionsTileFile` | grub/util/mkimage.c:1390-1548 | for every placed EFI kernel, every accepted list of fixups and every module area, the sections cover the file from header to end without gap or overlap, with virtual address equal to raw offset, and `mods` starts where the module area was written and holds it |
| `PeImage.TableIsBlocks` | grub/util/grub-mkimagexx.c:1596-1615 | the closing flush pads the relocation table to whole file blocks |
| `PeImage.TilesIffWholeBlocks` | grub/util/mkimage.c:1390-1548 | the section arithmetic tiles the file for a relocation table of whole file blocks and for no other size |
| `PeImage.SectionsByName` | grub/util/mkimage.c:1477-1548 | the section table names .text, .data, mods, .sbat if there is one, and .reloc in this order; every allocated section of the kernel lies in .text if executable and else in .data, and the module area in mods |
| `PeImage.BuildPe` | grub/util/mkimage.c:1377-1553 | the written file has the computed size and holds kernel, modules, SBAT and relocation table where the section table says |
| `PeImage.MappedParts` | grub/util/mkimage.c:1377-1553 | mapping the sections puts core image and relocation table at their virtual addresses |
| `EfiImage.LoadImage` | grub/util/grub-mkimagexx.c:2468-2680 | places, relocates and copies the kernel into a buffer with room for the modules, and makes its relocation table: the image holds every section and every relocated word as LinkedImage states them; stops exactly for unresolved symbols, a missing entry point or an unsupported relocation |
| `EfiImage.GenerateEfi` | grub/util/mkimage.c:883-1553 | the whole EFI build delivers the file of the kernel as placed with the module area of its inputs, and fails exactly for X.509 keys and for kernels that do not build |
| `EfiImage.LoadedFileRunsIff` | grub/util/mkimage.c:1377-1553 | a loader that maps that file, reads the relocation table from memory and adds its base there has the module area as written, every relocated word right for that base, and the kernel linked at that base if and only if every relocation moves along with the base |
| `EfiImage.BootedKernelSeesModules` | grub/include/grub/kernel.h:104-110 | the booted kernel's walk over the mapped module area shows the inputs of the build and nothing else, by type number, contents and order |
| `Resolver.PathNamesModule` | grub/util/resolve.c:138-188 | the path computed for a module names that module again |
| `Resolver.NameOfPath` | grub/util/resolve.c:138-162 | the name of a path is what stands between its last slash and .mod |
| `Resolver.RankDecreases` | grub/util/resolve.c:190-233 | below a module that reaches no cycle the rank goes down along every dependency, so the recursion that marks only afterwards ends |
| `Resolver.FirstDeps` | grub/util/resolve.c:213-220 | the first matching entry of the dependency list counts |
| `Resolver.Lists.AddModule` | grub/util/resolve.c:190-233 | prepends the module and what it needs that is not there yet, each name once and behind everything it depends on |
| `Resolver.Lists.AddDependencies` | grub/util/resolve.c:213-220 | the inner loop adds all direct dependencies and only things reached through them |
| `Resolver.ClosedUnderPaths` | grub/util/resolve.c:190-233 | a list in that order holds everything its members reach |
| `Resolver.ReversedOrder` | grub/util/resolve.c:264-275 | reversing turns dependencies-behind into dependencies-before |
| `Resolver.ResolveDependencies` | grub/util/resolve.c:236-276 | when the requests reach no cycle, the result names distinct modules, exactly the closure of the requests, each after everything it depends on, and every path is the one for some request or dependency name that was written |
| `Resolver.OrderedOnlyIfAcyclic` | grub/util/resolve.c:190-233 | no list in that order holds a module that reaches a cycle |
| `GlyphSort.Starts` | grub/util/grub-mkfont.c:1291-1296 | counting and summing gives for each digit the first slot of that digit |
| `GlyphSort.Pass` | grub/util/grub-mkfont.c:1291-1300 | one counting sort puts each glyph into its own slot |
| `GlyphSort.PosOrder` | grub/util/grub-mkfont.c:1291-1300 | slots follow the digit, then the input order, and differ |
| `GlyphSort.TwoPassOrder` | grub/util/grub-mkfont.c:1286-1314 | low digit first, then high digit, orders by the full 32-bit code, stably |
| `GlyphSort.SortGlyphs` | grub/util/grub-mkfont.c:1286-1314 | every output slot is written for exactly one glyph; the result is sorted by code and stable |
| `Pf2Font.FontWriter.WriteSection` | grub/util/grub-mkfont.c:726-756 | name, length and data of a section are appended |
| `Pf2Font.FontWriter.WriteStringSection` | grub/util/grub-mkfont.c:726-741 | a string section is appended and the running offset advanced to match |
| `Pf2Font.FontWriter.WriteBe16Section` | grub/util/grub-mkfont.c:743-756 | the same for a 16-bit section |
| `Pf2Font.FontWriter.WritePreamble` | grub/util/grub-mkfont.c:844-917 | after the preamble the running offset is the file length |
| `Pf2Font.FontWriter.WriteIndex` | grub/util/grub-mkfont.c:931-950 | the index holds, for offsets running ahead over unwritten data, the codes and offsets of all glyphs |
| `Pf2Font.FontWriter.WriteData` | grub/util/grub-mkfont.c:952-974 | the glyph records are appended in order |
| `Pf2Font.FontWriter.WriteFont` | grub/util/grub-mkfont.c:830-978 | the file is preamble, index and data |
| `Pf2Font.EntryPointsAtRecord` | grub/util/grub-mkfont.c:936-974 | each index entry names its glyph's code and the byte position of its record, and reading there returns the five fields and the bitmap |
| `Pf2Font.Measure` | grub/util/grub-mkfont.c:256-266 | the font's maxima and extremes are those of its glyphs |
| `Pf2Font.LineHoldsGlyphs` | grub/util/grub-mkfont.c:898-912 | where the font does not give ascent and descent, those written hold every measured glyph and are no larger than some glyph needs |
| `Pf2Load.LoadIndex` | grub/grub-core/font/font.c:279-364 | the index is taken if and only if it is whole entries with strictly ascending codes, and the quick index points at the right entries |
| `Pf2Load.FindGlyph` | grub/grub-core/font/font.c:709-752 | quick index or binary search find exactly the entry with that code |
| `Pf2Load.LoadFont` | grub/grub-core/font/font.c:442-685 | the section loop with all its failures and the final test for required data |
| `Pf2Load.GetGlyph` | grub/grub-core/font/font.c:758-845 | the glyph of a loaded font for a code, nothing if it is larger than the font's maxima |
| `Pf2Load.LoadsAs` | grub/grub-core/font/font.c:538-645 | the section loop over a written font ends with exactly the values written, or fails on the index |
| `Pf2Load.LoadsIff` | grub/grub-core/font/font.c:661-664 | a written font loads if and only if it has a glyph, its codes strictly ascend, and maxima, ascent and descent survive 16 bits |
| `Pf2Load.EveryGlyphIsFound` | grub/grub-core/font/font.c:758-845 | in a font that loads every glyph within the maxima comes back under its code with all fields and its bitmap, a larger one does not, and no other code finds anything |
| `Pf2Load.FontDescribesItself` | grub/util/grub-mkfont.c:845-890 | a reader of the written file finds the format mark, full name, family, weight and slant under their four-letter names |
| `Pf2Load.FontMeasuresItself` | grub/util/grub-mkfont.c:887-917 | and likewise point size, greatest width and height, ascent and descent, in 16 bits |
| `Pf2Load.SortedFontShowsAll` | grub/util/grub-mkfont.c:1286-1314 | from the glyphs as added: the font loads if and only if no two glyphs share a code, some glyph is not empty, none reaches 0x8000 pixels, and ascent and descent are not zero in 16 bits; then it shows every glyph |
| `Pf2Load.EmptyGlyphsAreRefused` | grub/grub-core/font/font.c:661-669 | a font of empty glyphs, or of none, is refused |
| `GlyphBitmap.CutRows` | grub/util/grub-mkfont.c:191-212 | cuts only blank rows from top and bottom, and all of them |
| `GlyphBitmap.CutColumns` | grub/util/grub-mkfont.c:214-234 | cuts only blank columns from both sides, and all of them |
| `GlyphBitmap.Crop` | grub/util/grub-mkfont.c:187-235 | the remaining box is the smallest that holds the picture, of height 0 if it is blank |
| `GlyphBitmap.Packer.AddPixel` | grub/util/grub-mkfont.c:122-136 | appends one bit to the bits packed so far, most significant first |
| `GlyphBitmap.PackBox` | grub/util/grub-mkfont.c:240-274 | packs the box row by row into exactly ceil(w*h/8) bytes |
| `GlyphBitmap.AddGlyph` | grub/util/grub-mkfont.c:187-274 | the glyph has the cropped size, its offsets and the packed box |
| `GlyphBitmap.PackedGlyphShowsPicture` | grub/util/grub-mkfont.c:187-274 | unpacking the glyph at its offsets sets exactly the source pixels, at every point of the plane |
| `FontPipeline.PicturesReachTheScreen` | grub/util/grub-mkfont.c:187-274 | through cropping, packing, sorting, writing, loading and looking up, the pixels shown for a code are those of its picture |
| `FontPipeline.BlankFontIsRefused` | grub/grub-core/font/font.c:661-669 | blank pictures crop to nothing, and a font of them is refused |
| `GlyphBitmap.PrintLine` | grub/util/grub-mkfont.c:798-825 | the bit reader consumes exactly the glyph's pixels of one line and prints them |
| `GlyphBitmap.PrintGlyph` | grub/util/grub-mkfont.c:776-826 | every printed character shows the pixel at its place, or the frame |
| `TarHeader.ParseDigits` | grub/util/grub-mkstandalone.c:160-167 | reading back an octal field of n digits gives the value |
| `TarHeader.SetTarValue` | grub/util/grub-mkstandalone.c:160-167 | writes the octal digits of the value into the field, leaves its last byte and everything else |
| `TarHeader.ComputeChecksum` | grub/util/grub-mkstandalone.c:169-178 | stores seven digits of the sum taken with the field as spaces, and leaves the last space |
| `TarHeader.SummedVerifies` | grub/util/grub-mkstandalone.c:169-178 | the stored checksum verifies although the field is part of the summed header |
| `TarHeader.MakeHeader` | grub/util/grub-mkstandalone.c:281-294 | the filled header block is the one specified field by field |
| `TarHeader.HeaderRoundTrip` | grub/util/grub-mkstandalone.c:281-294 | a ustar reader recovers name, size and type from any header, checksum included |
| `TarHeader.HeaderLayout` | grub/util/grub-mkstandalone.c:124-144 | the header's fields are at the byte offsets and hold the constants of the ustar format |
| `TarArchive.NormalName` | grub/util/grub-mkstandalone.c:197-202 | the loops compute the normalised name |
| `TarArchive.NormalIsTidy` | grub/util/grub-mkstandalone.c:197-202 | normalising leaves no leading or doubled slash and keeps the path's components |
| `TarArchive.NormalOfTidy` | grub/util/grub-mkstandalone.c:197-202 | a name without such slashes is left alone |
| `TarArchive.RecordIsBlocks` | grub/util/grub-mkstandalone.c:249-307 | every record is a multiple of 512 bytes, so every header starts on a block boundary |
| `TarArchive.ArchiveIsBlocks` | grub/util/grub-mkstandalone.c:249-307 | the same for the whole archive |
| `TarArchive.Writer.WritePad` | grub/util/grub-mkstandalone.c:154-158 | pads to the next block boundary |
| `TarArchive.Writer.WriteLongName` | grub/util/grub-mkstandalone.c:249-270 | a name over 99 bytes is stored in an 'L' record of its own |
| `TarArchive.Writer.CopyData` | grub/util/grub-mkstandalone.c:298-304 | the copy loop appends the file's contents, whatever the buffer boundaries |
| `TarArchive.Writer.AddRegular` | grub/util/grub-mkstandalone.c:249-307 | appends the complete record of one file |
| `TarArchive.Writer.AddTarFile` | grub/util/grub-mkstandalone.c:180-309 | appends the records of `FilesIn`; TarArchive.NodeRoutes says which files these are |
| `TarArchive.FilesAreTidy` | grub/util/grub-mkstandalone.c:204-247 | however a tree is nested, the archived names are normalised |
| `TarArchive.ArchiveRoundTrip` | grub/util/grub-mkstandalone.c:249-307 | a reader gets back the same names and contents in order from any list of files, long names included |
| `TarArchive.MakeMemdisk` | grub/util/grub-mkstandalone.c:346-370 | the finished memdisk reads back as one file per route to a regular file, in depth-first order, under a normalised name with the components of the names along the route and with the contents found at its end |
| `TarArchive.NodeRoutes` | grub/util/grub-mkstandalone.c:204-247 | the files taken from one entry are exactly those on the routes through it to a regular file, each once, in order, under the normalised prefix and path |
| `TarArchive.EntryRoutes` | grub/util/grub-mkstandalone.c:204-247 | the same for the first n entries of a directory |
| `TarArchive.PathParts` | grub/util/grub-mkstandalone.c:204-247 | the components of a route's path are the components of the names along it |
| `TarArchive.MemdiskHoldsRoutes` | grub/util/grub-mkstandalone.c:346-370 | for every list of trees whose files fit the format, the archive read back is one file per route, in order |
| `TarFs.FindRecord` | grub/grub-core/fs/tar.c:73-233 | the boot-time driver's search step finds a written record with its name and contents, or takes an empty name for the end |
| `TarFs.DriverReads` | grub/grub-core/fs/tar.c:73-233 | the driver sees the files in order up to the first one without a name |
| `TarFs.MemdiskIsReadable` | grub/grub-core/fs/tar.c:254-280 | it mounts every archive that has a file, and sees all files if and only if none has the empty name |
| `TarFs.TreesAreMounted` | grub/grub-core/fs/tar.c:254-280 | the boot-time driver sees all files of the trees if and only if none lies on a route whose names are nothing but slashes |
| `TarFs.EmptyNameIff` | grub/util/grub-mkstandalone.c:197-202 | an archived name is empty if and only if its path is nothing but slashes |
| `Autogen.Parser.Feed` | grub/gentpl.py:322-347 | one token: the table's transition and its handler, or an error |
| `Autogen.Parser.ReadDefinitionsFile` | grub/gentpl.py:349-428 | the token loop is the run of the machine, and reports an error exactly when that does |
| `Autogen.DepthIsOpenBraces` | grub/gentpl.py:329-344 | in every run the stack has grown by the braces opened and not closed |
| `Autogen.AcceptedIsBalanced` | grub/gentpl.py:322-344 | an accepted file closes as many braces as it opens, and no prefix closes more |
| `AutogenSyntax.StmtsParse` | grub/gentpl.py:357-428 | from any state that expects a name, the printed statements add exactly their items and leave the stack as it was |
| `AutogenSyntax.FileParses` | grub/gentpl.py:349-428 | every printed file is accepted and adds exactly its items to the root definition |
| `AutogenSyntax.TreeRoundTrip` | grub/gentpl.py:349-428 | every definition tree of any depth comes back from its printed tokens |
| `AutogenSyntax.IntendedIff` | grub/gentpl.py:326-347 | every value lands under the name its statement starts with if and only if no index differs from its name and no block before a comma leaves another name behind |
| `AutogenSyntax.CommaAfterBlock` | grub/gentpl.py:329-344 | the value after `a = { b = "x"; },` is filed under b |
| `AutogenGrammar.AcceptedIsPrinted` | grub/gentpl.py:349-428 | every accepted file is the print of a header and well-formed statements |
| `AutogenGrammar.AcceptsExactlyTheGrammar` | grub/gentpl.py:349-428 | the table accepts exactly that language, and the root definition gains exactly the items of the syntax |
| `Install.BackupOf` | grub/util/grub-install-common.c:245-255 | a name is managed if and only if the name with a tilde is recognised as its backup |
| `Install.BackupEnds` | grub/util/grub-install-common.c:245-255 | a recognised backup ends in a tilde, belongs to a managed name and is not itself managed |
| `Install.ManagedNames` | grub/util/grub-install-common.c:245-255 | a name is managed if and only if it ends in .mod, .lst, .img, .efi or .mo and is not menu.lst, or is one of the three names listed; and its backup is that name with a tilde |
| `Install.Pass` | grub/util/grub-install-common.c:243-286 | one pass over a directory in any listing order deletes or renames exactly the managed entries of its mode |
| `Install.PreparedAt` | grub/util/grub-install-common.c:343-349 | after clean_grub_dir managed names are free and their contents are in the backups |
| `Install.RolledBackAt` | grub/util/grub-install-common.c:311-315 | deleting new files and restoring backups puts back what the backups hold and leaves other files |
| `Install.CommittedAt` | grub/util/grub-install-common.c:309-310 | dropping backups leaves everything else |
| `Install.Installer.CleanDir` | grub/util/grub-install-common.c:224-288 | changes only the directory named; a missing one is an error except when deleting backups |
| `Install.Installer.CleanGrubDir` | grub/util/grub-install-common.c:343-349 | backs up and registers the directory, or fails and changes nothing |
| `Install.Installer.FinishDir` | grub/util/grub-install-common.c:305-315 | one registered directory is committed or rolled back |
| `Install.Installer.RestoreBackupAtExit` | grub/util/grub-install-common.c:291-322 | the owning process treats every registered directory in order, up to the first to be rolled back that has gone; a child process nothing |
| `Install.ExitPerDirectory` | grub/util/grub-install-common.c:303-317 | a directory is treated once per registration and otherwise left alone |
| `Install.RollbackRestores` | grub/util/grub-install-common.c:303-317 | before the point of no return a directory registered once gets back exactly its managed files, no backup stays, other files are untouched |
| `Install.CommitKeeps` | grub/util/grub-install-common.c:303-317 | after it exactly the new managed files stay, without backups |
| `Install.RollbackIffOnce` | grub/util/grub-install-common.c:303-349 | in every run, rollback gives back the managed files of a registration if and only if the directory was registered only once or had none |
| `Install.SecondRegistrationLosesAll` | grub/util/grub-install-common.c:303-349 | registering a directory again after a new file went in loses old and new managed files on rollback |
| `Install.InstallIsTransaction` | grub/util/grub-install-common.c:224-349 | for every sequence of registrations and installer writes, stopped anywhere, each directory registered once ends as rolled back or committed |
| `Install.OthersUntouched` | grub/util/grub-install-common.c:303-317 | a directory never registered stays as the run left it |
| `FrameBitmap.FullWord` | kernel/memory.c:43-55 | a word is all ones if and only if its 32 bits are set, so skipping it loses nothing |
| `FrameBitmap.SetAddsOne` | kernel/memory.c:22-27 | setting a bit adds exactly that frame to the used set |
| `FrameBitmap.ClearRemovesOne` | kernel/memory.c:29-34 | clearing a bit removes exactly that frame |
| `FrameBitmap.Allocator.SetFrame` | kernel/memory.c:22-27 | the words and the set they stand for, with that frame added |
| `FrameBitmap.Allocator.ClearFrame` | kernel/memory.c:29-34 | the words and the set they stand for, with that frame removed |
| `FrameBitmap.Allocator.TestFrame` | kernel/memory.c:36-41 | nonzero if and only if the frame is used |
| `FrameBitmap.Allocator.FirstFreeFrame` | kernel/memory.c:43-55 | the lowest free frame, and none only if all are used |
| `FrameBitmap.Allocator.AllocFrame` | kernel/memory.c:57-65 | takes the lowest free frame and no other; a null pointer and no change when full |
| `FrameBitmap.Allocator.FreeFrame` | kernel/memory.c:67-69 | removes exactly the frame from the used set |
| `FrameBitmap.StepKeepsAccounts` | kernel/memory.c:57-69 | every call keeps the used set equal to what was reserved plus what clients hold, with no frame held twice |
| `FrameBitmap.RunsNeverShareFrames` | kernel/memory.c:57-69 | in every run of allocations and releases, at every moment, no held frame is shared, and an allocation gives the lowest frame neither reserved nor held |
| `FrameBitmap.Serve` | kernel/memory.c:57-69 | the bitmap serving any client's calls is such a run |
| `PageTables.Paging.MapPage` | kernel/memory.c:105-139 | the new state is `Mapped` of the old one: table created if its pointer is null, one entry filled |
| `PageTables.Paging.CreateTable` | kernel/memory.c:110-129 | a frame is taken, entered in both directory arrays, and all 1024 entries cleared |
| `PageTables.NewTableIsInvisible` | kernel/memory.c:110-129 | with frame 0 taken, creating a table changes no page's translation and keeps tables in distinct used frames |
| `PageTables.EntryIsOnePage` | kernel/memory.c:131-138 | filling an entry sets that page's frame and rights and changes no other page |
| `PageTables.MapSetsOnePage` | kernel/memory.c:105-139 | with frame 0 taken and a frame to be had, map_page sets exactly one page's translation |
| `PageTables.WalkIsTranslate` | kernel/memory.c:105-139 | the processor's walk over directory and table, byte address by byte address, is the translation by page |
| `PageTables.MapMovesOnePage` | kernel/memory.c:105-139 | on every address of the 32-bit space, the walk after map_page goes to the new frame inside the page mapped and where it went before elsewhere |
| `PageTables.EntryFields` | kernel/memory.c:131-138 | the entry's frame and rights are those of the physical address and of the flag bits, and its other fields are kept, or clear in a new table |
| `PageTables.MapLeavesFrames` | kernel/memory.c:105-139 | it uses up at most one frame and writes to no other used frame than the page's table |
| `PageTables.LinkedIffSpared` | kernel/memory.c:113 | the processor walks the table just made if and only if or-ing the flags into its address leaves it alone |
| `PageTables.MapAllTranslates` | kernel/memory.c:105-139 | over any run of mappings every page translates to the frame last asked for it |
| `PageTables.CanMapAllIff` | kernel/memory.c:105-139 | a run of mappings can be made if and only if the free frames are at least as many as the tables still to be made |
| `PageTables.AllocIsNullIff` | kernel/memory.c:57-65 | the allocator's pointer is null if and only if frame 0 is free or all frames are used |
| `PageTables.MappingLastsIff` | kernel/memory.c:105-139 | a mapping survives the next one in its table if and only if the table was there, or frame 0 is taken and some frame is free |
| `PageTables.Paging.PagingInit` | kernel/memory.c:71-93 | after the boot-time loop pages 1 to 1023 are identity-mapped and page 0 has no translation, since frame 0 is not reserved |
| `PciWindows.Bridge.WriteBases` | grub/grub-core/bus/bonito.c:91-101 | the window register packs the six-bit base of each window |
| `PciWindows.Bridge.MapRange` | grub/grub-core/bus/bonito.c:103-134 | shares the first window in use that holds the range, otherwise opens the first unused one, otherwise fails exactly when none fits |
| `PciWindows.Bridge.MapRangeCached` | grub/grub-core/bus/bonito.c:150-156 | the same mapping at its cached address |
| `PciWindows.Bridge.UnmapRange` | grub/grub-core/bus/bonito.c:158-176 | releases the window of the address, cached or not, and fails exactly when it is not in use |
| `PciWindows.RegisterHolds` | grub/grub-core/bus/bonito.c:91-101 | the bridge reads back every window's base from the register |
| `PciWindows.HoldsIff` | grub/grub-core/bus/bonito.c:112-131 | a window opened for a range that does not wrap holds it if and only if it ends within 0x3f00000 bytes of its 64 MiB block for the first window, and within the block for the others |
| `PciWindows.FreeWindowServes` | grub/grub-core/bus/bonito.c:122-131 | with all windows free, every range that ends within its block is served |
| `PciWindows.StepKeeps` | grub/grub-core/bus/bonito.c:103-176 | every served call keeps each counter equal to the live mappings of its window and the bases of windows in use |
| `PciWindows.RunsAreConsistent` | grub/grub-core/bus/bonito.c:103-176 | in every run, at every moment, counters are exact, every live address goes to the bus address it was requested for, and bases of windows in use do not move |
| `PciWindows.NoWrapIsSafe` | grub/grub-core/bus/bonito.c:112-131 | a range that does not run past the end of the address space is safe |
| `PciWindows.RightIffSafe` | grub/grub-core/bus/bonito.c:112-131 | a request is translated right in every run of safe requests that ends with it, if and only if it does not end in a lower window than it starts in after 32-bit wrap-around |
| `PciWindows.UnsafeGoesWrong` | grub/grub-core/bus/bonito.c:112-131 | any other request is served wrong in a run of two calls from boot |
| `PciWindows.LiveReachesIff` | grub/grub-core/bus/bonito.c:112-131 | at every moment of every run of safe requests, a live mapping reaches its whole range inside the window if and only if base plus size does not wrap |
| `PciWindows.ReachesIffNoWrap` | grub/grub-core/bus/bonito.c:112-131 | a safe request reaches its whole range in every run that ends with it, if and only if base plus size does not wrap or no window ever takes it |
| `PciWindows.WrappingIsServed` | grub/grub-core/bus/bonito.c:122-131 | a range that wraps and that a window takes is served right after boot and not reached as a whole |
| `PciWindows.WrappingExample` | grub/grub-core/bus/bonito.c:122-131 | 4 GiB less 128 bytes from 0x100 on is such a range |

## Left out

- FixupTable.RoundTrip: for arbitrary fixups requires that the last block leaves room for the final padding, because its buffer has room for 0x1000 entries and the source does not check; FixupTable.SpreadFits shows it for words that do not overlap.
- Relocation.RelocatingCommutesWithLoading: covers EM_386 and EM_X86_64 with relocation sections named after the section they patch and words that do not overlap; the other machines' PE fixups are not modelled.
- LinkedImage.BssSymbols: speaks of places in the image, since the source adds no virtual offset to these two symbols.
- ModuleArea.WalkShowsInputs: for inputs below 0xffff_f000 bytes each, whose sizes fit the 32-bit field, and an area whose size fits a pointer.
- TarArchive.MakeMemdisk: the routes are stated for paths without zero bytes, and for paths and files below 4 GiB.
- RiscvRelocation.RelocateSection: symbol values and addresses are unbounded.
- ArmTrampolines.ArmBranchLands: one patch at a time; the in-place run over ARM relocations and R_ARM_THM_JUMP19 are left out.
- SectionLayout.LocateSections: relocatable targets only; the fixed addresses of other targets need no placement.
- PeImage.BuildPe: the fields of the PE optional header are taken as given bytes.
- EfiImage.GenerateEfi: EM_386 and EM_X86_64, for kernels whose patched words do not overlap and whose image stays below 4 GiB; the symbol table section is taken to exist and the header's bytes are an input.
- Resolver.ResolveDependencies: takes the dependency list as parsed; splitting the list file into lines is left out, and so is the unbounded recursion on a request that reaches a cycle.
- Pf2Font.FontWriter.WriteFont: offsets are those of a file below 4 GiB, and the font's full name is an input.
- Pf2Load.LoadFont: the font's name, point size and weight are read over but not kept, and registering the font is left out.
- GlyphBitmap.AddGlyph: the rendered bitmap is an input, as FreeType is not part of this model.
- TarArchive.Writer.AddTarFile: directory entries come sorted, since `qsort` is a library; files of 4 GiB and more, whose size field wraps, are outside `Storable`.
- TarFs.FindRecord: modes, times and link targets of entries are not modelled.
- Autogen.Parser.ReadDefinitionsFile: takes tokens, so splitting text into tokens, comments and `#if` directives is left out; definitions are values here and not shared list objects, the root definition being the current one while no block is open.
- Install.Pass: renames and deletions do not fail, and directory entries are files.
- FrameBitmap.Allocator.AllocFrame: addresses are unbounded; they fit 32 bits for up to 2^20 frames.
- PageTables.Paging.MapPage: there is one directory, the kernel's, and the bitmap's own place in physical memory is not modelled.
- PageTables.MappingLastsIff: for flags below 0x1000; larger ones are covered by PageTables.LinkedIffSpared and MapSetsOnePage.
- PciWindows.Bridge.MapRange: usage counters are unbounded, and the 3A branch, a constant or-mask without state, is left out.
- Loading CR0 and CR3, interrupts, keyboard, terminal and video are left out as hardware access, and so is the kernel's heap, which only counts upwards and never frees.
- IA-64, LoongArch and AArch64 instruction patching is left out; their trampoline and GOT areas are placed but not filled.
- Command-line parsing, compression, hashing, and the boot image formats other than EFI are left out.
