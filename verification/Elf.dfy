/** The parts of an ELF kernel and of an image target that the image builder looks
    at (grub/util/grub-mkimagexx.c), and its section classification. */
module Elf {
  import opened Bytes

  datatype ImageId = ImageEfi | ImageUboot | ImageCoreboot | ImageOther

  datatype Machine = Em386 | EmX8664 | EmArm | EmAarch64 | EmIa64 | EmRiscv | EmOther

  // struct grub_install_image_target_desc
  datatype Target = Target(
    id: ImageId,
    machine: Machine,
    vaddrOffset: nat,
    sectionAlign: nat,
    modAlign: nat)

  datatype SectionType = ProgBits | NoBits | Rel | Rela | SymTab | OtherType

  // A section header with the file bytes it refers to; a NOBITS section has a size
  // and no bytes.
  datatype Section = Section(
    name: string,
    kind: SectionType,
    alloc: bool,
    exec: bool,
    align: nat,
    size: nat,
    contents: seq<byte>)

  ghost predicate ValidSection(s: Section) {
    s.kind != NoBits ==> |s.contents| == s.size
  }

  predicate IsRelocatable(t: Target) {
    t.id == ImageEfi || t.id == ImageUboot || (t.id == ImageCoreboot && t.machine == EmArm)
  }

  predicate IsText(t: Target, s: Section) {
    (IsRelocatable(t) || s.kind == ProgBits) && s.exec && s.alloc
  }

  predicate IsData(t: Target, s: Section) {
    (IsRelocatable(t) || s.kind == ProgBits) && !s.exec && s.alloc && s.kind != NoBits
  }

  predicate IsBss(t: Target, s: Section) {
    IsRelocatable(t) && !s.exec && s.alloc && s.kind == NoBits
  }

  // Sections that end up in the output.
  predicate IsKept(t: Target, s: Section) {
    IsText(t, s) || IsData(t, s) || (IsBss(t, s) && (t.id == ImageEfi || !IsRelocatable(t)))
  }

  // The classes by a section's flags: EFI images keep all that is allocated, the other
  // relocatable ones leave the bss out, and fixed images keep program contents only.
  lemma KeptIff(t: Target, s: Section)
    ensures t.id == ImageEfi ==> (IsKept(t, s) <==> s.alloc)
    ensures t.id == ImageUboot || (t.id == ImageCoreboot && t.machine == EmArm) ==>
              (IsKept(t, s) <==> s.alloc && (s.exec || s.kind != NoBits))
    ensures t.id == ImageOther || (t.id == ImageCoreboot && t.machine != EmArm) ==> (IsKept(t, s) <==> s.alloc && s.kind == ProgBits)
  {
  }

  lemma ClassIff(t: Target, s: Section)
    requires t.id == ImageEfi || t.id == ImageUboot || (t.id == ImageCoreboot && t.machine == EmArm)
    ensures IsText(t, s) <==> s.alloc && s.exec
    ensures IsData(t, s) <==> s.alloc && !s.exec && s.kind != NoBits
    ensures IsBss(t, s) <==> s.alloc && !s.exec && s.kind == NoBits
  {
  }

  predicate HasPrefix(s: string, p: string) {
    |p| <= |s| && s[..|p|] == p
  }

  // Index of the first section called `name`, or |sections|.
  function FindSection(sections: seq<Section>, name: string): (i: nat)
    ensures i <= |sections|
    ensures i < |sections| ==> sections[i].name == name
    ensures forall j :: 0 <= j < i ==> sections[j].name != name
  {
    if sections == [] then 0
    else if sections[0].name == name then 0
    else 1 + FindSection(sections[1..], name)
  }

  // is_kept_reloc_section: a `.rel.X` or `.rela.X` section counts as kept when the
  // section it is named after is; under any other name it always does.
  predicate IsKeptReloc(t: Target, sections: seq<Section>, s: Section) {
    if HasPrefix(s.name, ".rela.") then KeptByName(t, sections, s.name[5..])
    else if HasPrefix(s.name, ".rel.") then KeptByName(t, sections, s.name[4..])
    else true
  }

  predicate KeptByName(t: Target, sections: seq<Section>, name: string) {
    var i := FindSection(sections, name);
    i < |sections| && IsKept(t, sections[i])
  }
}
