/** Section placement and the final copy: `put_section`, `locate_sections` and
    `grub_mkimage_load_image` of grub/util/grub-mkimagexx.c, for relocatable targets. */
module SectionLayout {
  import opened Align
  import opened Bytes
  import opened Elf

  // struct grub_mkimage_layout, the fields placement sets.
  datatype Layout = Layout(
    kernelSize: nat,
    execSize: nat,
    trampOff: nat,
    bssStart: nat,
    end: nat)

  // put_section: the section's address; its end is the next current address.
  function PutAddress(t: Target, s: Section, current: nat): (a: nat)
    ensures current <= a <= current + s.align
    ensures s.align > 0 ==> (a + t.vaddrOffset) % s.align == 0
  {
    if s.align > 0 then AlignUp(current + t.vaddrOffset, s.align) - t.vaddrOffset else current
  }

  // ALIGN_UP (x + vaddr_offset, section_align) - vaddr_offset
  function AlignSection(t: Target, x: nat): (r: nat)
    requires t.sectionAlign > 0
    ensures x <= r < x + t.sectionAlign
    ensures (r + t.vaddrOffset) % t.sectionAlign == 0
  {
    AlignUp(x + t.vaddrOffset, t.sectionAlign) - t.vaddrOffset
  }

  datatype Class = Text | Data | Bss

  predicate InClass(t: Target, c: Class, s: Section) {
    match c
    case Text => IsText(t, s)
    case Data => IsData(t, s)
    case Bss => IsBss(t, s)
  }

  // The sections of one class, among the first `n`, lie in [lo, hi): aligned, in
  // index order, one after the other.
  ghost predicate PlacedIn(t: Target, ss: seq<Section>, n: nat, addrs: seq<nat>, c: Class, lo: nat, hi: nat)
    requires n <= |ss| == |addrs|
  {
    && lo <= hi
    && (forall i :: 0 <= i < n && InClass(t, c, ss[i]) ==>
        && lo <= addrs[i] && addrs[i] + ss[i].size <= hi
        && (ss[i].align > 0 ==> (addrs[i] + t.vaddrOffset) % ss[i].align == 0))
    && (forall i, j :: 0 <= i < j < n && InClass(t, c, ss[i]) && InClass(t, c, ss[j]) ==>
        addrs[i] + ss[i].size <= addrs[j])
  }

  // What locate_sections promises, `tramp` being the bytes of ARM trampolines.
  ghost predicate Placed(t: Target, ss: seq<Section>, tramp: nat, addrs: seq<nat>, l: Layout)
    requires |ss| == |addrs| && t.sectionAlign > 0
  {
    && PlacedIn(t, ss, |ss|, addrs, Text, 0, if t.machine == EmArm then l.trampOff else l.execSize)
    && (t.machine == EmArm ==> l.trampOff % 16 == 0 && l.trampOff + tramp <= l.execSize)
    && (l.execSize + t.vaddrOffset) % t.sectionAlign == 0
    && PlacedIn(t, ss, |ss|, addrs, Data, l.execSize, l.bssStart)
    && PlacedIn(t, ss, |ss|, addrs, Bss, l.bssStart, l.end)
    && (l.end + t.vaddrOffset) % t.sectionAlign == 0
    && l.kernelSize == (if t.id == ImageEfi then l.end else l.bssStart)
  }

  // What the sections of one class, among the first `n`, take up at most.
  ghost function ClassRoom(t: Target, ss: seq<Section>, n: nat, c: Class): nat
    requires n <= |ss|
  {
    if n == 0 then 0
    else ClassRoom(t, ss, n - 1, c) + if InClass(t, c, ss[n - 1]) then ss[n - 1].size + ss[n - 1].align else 0
  }

  ghost function ImageRoom(t: Target, ss: seq<Section>, tramp: nat): nat {
    ClassRoom(t, ss, |ss|, Text) + ClassRoom(t, ss, |ss|, Data) + ClassRoom(t, ss, |ss|, Bss) + tramp + 32 + 2 * t.sectionAlign
  }

  lemma PlaceStep(t: Target, ss: seq<Section>, i: nat, addrs: seq<nat>, c: Class, lo: nat, current: nat)
    requires i < |ss| == |addrs|
    requires PlacedIn(t, ss, i, addrs, c, lo, current)
    ensures var a := PutAddress(t, ss[i], current);
            PlacedIn(t, ss, i + 1, addrs[i := a], c, lo, a + ss[i].size)
  {
  }

  lemma PlaceNone(t: Target, ss: seq<Section>, addrs: seq<nat>, c: Class, lo: nat)
    requires |ss| == |addrs|
    ensures PlacedIn(t, ss, 0, addrs, c, lo, lo)
  {
  }

  lemma PlaceSkip(t: Target, ss: seq<Section>, i: nat, addrs: seq<nat>, c: Class, lo: nat, current: nat)
    requires i < |ss| == |addrs| && !InClass(t, c, ss[i])
    requires PlacedIn(t, ss, i, addrs, c, lo, current)
    ensures PlacedIn(t, ss, i + 1, addrs, c, lo, current)
  {
  }

  // One of the three placing loops of locate_sections.
  method PlaceClass(t: Target, ss: seq<Section>, c: Class, addrs: array<nat>, start: nat) returns (current: nat)
    requires addrs.Length == |ss|
    modifies addrs
    ensures PlacedIn(t, ss, |ss|, addrs[..], c, start, current) && current <= start + ClassRoom(t, ss, |ss|, c)
    ensures forall i :: 0 <= i < |ss| && !InClass(t, c, ss[i]) ==> addrs[i] == old(addrs[i])
  {
    hide PlacedIn, PutAddress;
    current := start;
    PlaceNone(t, ss, addrs[..], c, start);
    for i := 0 to |ss|
      invariant PlacedIn(t, ss, i, addrs[..], c, start, current) && current <= start + ClassRoom(t, ss, i, c)
      invariant forall j :: 0 <= j < |ss| && !(j < i && InClass(t, c, ss[j])) ==> addrs[j] == old(addrs[j])
    {
      if InClass(t, c, ss[i]) {
        ghost var before := addrs[..];
        PlaceStep(t, ss, i, before, c, start, current);
        addrs[i] := PutAddress(t, ss[i], current);
        assert addrs[..] == before[i := addrs[i]];
        current := addrs[i] + ss[i].size;
      } else {
        PlaceSkip(t, ss, i, addrs[..], c, start, current);
      }
    }
  }

  lemma PlacedInFrame(t: Target, ss: seq<Section>, a: seq<nat>, b: seq<nat>, c: Class,
                      lo: nat, hi: nat, hi': nat)
    requires |ss| == |a| == |b|
    requires PlacedIn(t, ss, |ss|, a, c, lo, hi) && hi <= hi'
    requires forall i :: 0 <= i < |ss| && InClass(t, c, ss[i]) ==> a[i] == b[i]
    ensures PlacedIn(t, ss, |ss|, b, c, lo, hi')
  {
  }

  // Every virtual address is the address plus the offset.
  method SetVaddrs(t: Target, addrs: array<nat>, vaddrs: array<nat>)
    requires addrs.Length == vaddrs.Length && addrs != vaddrs
    modifies vaddrs
    ensures forall i :: 0 <= i < addrs.Length ==> vaddrs[i] == addrs[i] + t.vaddrOffset
  {
    for i := 0 to addrs.Length
      invariant forall j :: 0 <= j < i ==> vaddrs[j] == addrs[j] + t.vaddrOffset
    {
      vaddrs[i] := addrs[i] + t.vaddrOffset;
    }
  }

  lemma OneClass(t: Target, ss: seq<Section>)
    ensures forall i, c, d :: 0 <= i < |ss| && InClass(t, c, ss[i]) && InClass(t, d, ss[i]) ==> c == d
  {
  }

  method LocateSections(t: Target, ss: seq<Section>, tramp: nat, addrs: array<nat>, vaddrs: array<nat>)
    returns (l: Layout)
    requires IsRelocatable(t) && t.sectionAlign > 0
    requires addrs.Length == vaddrs.Length == |ss| && addrs != vaddrs
    modifies addrs, vaddrs
    ensures Placed(t, ss, tramp, addrs[..], l) && l.end <= ImageRoom(t, ss, tramp)
    ensures forall i :: 0 <= i < |ss| ==> vaddrs[i] == addrs[i] + t.vaddrOffset
  {
    OneClass(t, ss);
    hide PlacedIn, ClassRoom, InClass, AlignUp, AlignSection;
    var kernelSize := PlaceClass(t, ss, Text, addrs, 0);
    ghost var textEnd, textAddrs := kernelSize, addrs[..];
    var trampOff := 0;
    if t.machine == EmArm {
      kernelSize := AlignUp(kernelSize, 16);
      trampOff := kernelSize;
      kernelSize := kernelSize + AlignUp(tramp, 16);
    }
    var execSize := AlignSection(t, kernelSize);
    var bssStart := PlaceClass(t, ss, Data, addrs, execSize);
    ghost var dataAddrs := addrs[..];
    var bssEnd := PlaceClass(t, ss, Bss, addrs, bssStart);
    SetVaddrs(t, addrs, vaddrs);
    var end := AlignSection(t, bssEnd);
    l := Layout(if t.id == ImageEfi then end else bssStart, execSize, trampOff, bssStart, end);
    PlacedInFrame(t, ss, textAddrs, addrs[..], Text, 0, textEnd, if t.machine == EmArm then trampOff else execSize);
    PlacedInFrame(t, ss, dataAddrs, addrs[..], Data, execSize, bssStart, bssStart);
    PlacedInFrame(t, ss, addrs[..], addrs[..], Bss, bssStart, bssEnd, end);
  }

  /* ---- consequences of a placement ---- */

  // The range a section occupies in the output image.
  ghost predicate Occupies(ss: seq<Section>, addrs: seq<nat>, i: nat, p: nat)
    requires i < |ss| == |addrs|
  {
    addrs[i] <= p < addrs[i] + ss[i].size
  }

  // Text, trampolines, data and bss are pairwise disjoint and in that order; all
  // allocated sections are disjoint from each other.
  lemma PlacementSeparates(t: Target, ss: seq<Section>, tramp: nat, addrs: seq<nat>, l: Layout, i: nat, j: nat, p: nat)
    requires IsRelocatable(t) && |ss| == |addrs| && t.sectionAlign > 0
    requires Placed(t, ss, tramp, addrs, l)
    requires i < |ss| && j < |ss| && i != j && ss[i].alloc && ss[j].alloc
    requires Occupies(ss, addrs, i, p)
    ensures !Occupies(ss, addrs, j, p)
    ensures IsText(t, ss[i]) ==> p < l.execSize
    ensures IsData(t, ss[i]) ==> l.execSize <= p < l.bssStart
    ensures IsBss(t, ss[i]) ==> l.bssStart <= p < l.end
    ensures t.machine == EmArm ==> !(l.trampOff <= p < l.trampOff + tramp)
  {
  }

  // What the copy loop relies on.
  ghost predicate KeptDisjoint(t: Target, ss: seq<Section>, addrs: seq<nat>)
    requires |ss| == |addrs|
  {
    forall i, j :: 0 <= i < j < |ss| && IsKept(t, ss[i]) && IsKept(t, ss[j]) ==>
      addrs[i] + ss[i].size <= addrs[j] || addrs[j] + ss[j].size <= addrs[i]
  }

  lemma PlacementIsDisjoint(t: Target, ss: seq<Section>, tramp: nat, addrs: seq<nat>, l: Layout)
    requires IsRelocatable(t) && |ss| == |addrs| && t.sectionAlign > 0
    requires Placed(t, ss, tramp, addrs, l)
    ensures KeptDisjoint(t, ss, addrs)
  {
  }

  // Every kept section lies below the kernel size that placement computed.
  lemma KeptBelowKernelSize(t: Target, ss: seq<Section>, tramp: nat, addrs: seq<nat>, l: Layout, i: nat)
    requires IsRelocatable(t) && |ss| == |addrs| && t.sectionAlign > 0
    requires Placed(t, ss, tramp, addrs, l)
    requires i < |ss| && IsKept(t, ss[i])
    ensures addrs[i] + ss[i].size <= l.kernelSize
  {
  }

  /* ---- areas behind the sections ---- */

  // Trampolines (IA-64), jump table (IA-64) and GOT (IA-64, AArch64), laid out by
  // grub_mkimage_load_image after placement.
  datatype Areas = Areas(trampOff: nat, jmpOff: nat, gotOff: nat, kernelSize: nat)

  const PE_ALIGN: nat := 4096 // GRUB_PE32_FILE_ALIGNMENT == GRUB_PE32_SECTION_ALIGNMENT

  function PlaceAreas(t: Target, l: Layout, tramp: nat, nfuncs: nat, got: nat): Areas
    requires t.id == ImageUboot || t.id == ImageCoreboot ==> t.modAlign > 0
  {
    var k0 := if t.id == ImageUboot || t.id == ImageCoreboot then AlignUp(l.kernelSize, t.modAlign) else l.kernelSize;
    var a :=
      if t.machine == EmIa64 then
        var trampOff := AlignUp(k0, 16);
        var jmpOff := trampOff + AlignUp(tramp, 16);
        var gotOff := jmpOff + 16 * nfuncs;
        Areas(trampOff, jmpOff, gotOff, gotOff + AlignUp(got, 16))
      else if t.machine == EmAarch64 then
        Areas(l.trampOff, 0, AlignUp(k0, 16), AlignUp(k0, 16) + AlignUp(got, 16))
      else Areas(l.trampOff, 0, 0, k0);
    if t.id == ImageEfi then a.(kernelSize := AlignUp(a.kernelSize, PE_ALIGN)) else a
  }

  // The areas come after every kept section, in order and disjoint, and inside
  // the final kernel size, which for EFI is a multiple of the file alignment.
  lemma AreasFollowSections(t: Target, ss: seq<Section>, tramp0: nat, addrs: seq<nat>, l: Layout, tramp: nat, nfuncs: nat, got: nat)
    requires IsRelocatable(t) && |ss| == |addrs| && t.sectionAlign > 0
    requires t.id == ImageUboot || t.id == ImageCoreboot ==> t.modAlign > 0
    requires Placed(t, ss, tramp0, addrs, l)
    ensures var a := PlaceAreas(t, l, tramp, nfuncs, got);
            && (forall i :: 0 <= i < |ss| && IsKept(t, ss[i]) ==> addrs[i] + ss[i].size <= l.kernelSize <= a.kernelSize)
            && (t.machine == EmAarch64 ==> l.kernelSize <= a.gotOff && a.gotOff + got <= a.kernelSize)
            && (t.machine == EmIa64 ==>
                  && l.kernelSize <= a.trampOff && a.trampOff + tramp <= a.jmpOff
                  && a.jmpOff + 16 * nfuncs <= a.gotOff && a.gotOff + got <= a.kernelSize)
            && (t.id == ImageEfi ==> a.kernelSize % PE_ALIGN == 0)
  {
    forall i | 0 <= i < |ss| && IsKept(t, ss[i]) ensures addrs[i] + ss[i].size <= l.kernelSize {
      KeptBelowKernelSize(t, ss, tramp0, addrs, l, i);
    }
  }

  /* ---- the copy loop ---- */

  function OutputBytes(s: Section): (b: seq<byte>)
    requires ValidSection(s)
    ensures |b| == s.size
  {
    if s.kind == NoBits then Zeros(s.size) else s.contents
  }

  // The image holds the section at `at`: zeros for NOBITS, else the file's bytes.
  ghost predicate ShowsSection(s: Section, at: nat, img: seq<byte>) {
    && at + s.size <= |img|
    && if s.kind == NoBits then forall p :: at <= p < at + s.size ==> img[p] == 0
       else img[at..at + s.size] == s.contents
  }

  ghost predicate Fits(t: Target, ss: seq<Section>, addrs: seq<nat>, size: nat) {
    && |ss| == |addrs|
    && forall i :: 0 <= i < |ss| && IsKept(t, ss[i]) ==> ValidSection(ss[i]) && addrs[i] + ss[i].size <= size
  }

  // Copying the sections listed in `order`, one after the other.
  ghost function CopyIn(t: Target, ss: seq<Section>, addrs: seq<nat>, order: seq<nat>, img: seq<byte>): (r: seq<byte>)
    requires Fits(t, ss, addrs, |img|)
    requires forall k :: 0 <= k < |order| ==> order[k] < |ss|
    ensures |r| == |img|
    decreases |order|
  {
    if order == [] then img
    else
      var i := order[|order| - 1];
      var before := CopyIn(t, ss, addrs, order[..|order| - 1], img);
      if IsKept(t, ss[i]) then Splice(before, addrs[i], OutputBytes(ss[i])) else before
  }

  lemma {:induction false} CopyOutside(t: Target, ss: seq<Section>, addrs: seq<nat>, order: seq<nat>, img: seq<byte>, p: nat)
    requires Fits(t, ss, addrs, |img|) && p < |img|
    requires forall k :: 0 <= k < |order| ==> order[k] < |ss|
    requires forall k :: 0 <= k < |order| && IsKept(t, ss[order[k]]) ==> !Occupies(ss, addrs, order[k], p)
    ensures CopyIn(t, ss, addrs, order, img)[p] == img[p]
    decreases |order|
  {
    if order != [] {
      CopyOutside(t, ss, addrs, order[..|order| - 1], img, p);
    }
  }

  lemma {:induction false} CopyInside(t: Target, ss: seq<Section>, addrs: seq<nat>, order: seq<nat>, img: seq<byte>, k: nat, p: nat)
    requires Fits(t, ss, addrs, |img|)
    requires forall m :: 0 <= m < |order| ==> order[m] < |ss|
    requires k < |order| && IsKept(t, ss[order[k]]) && Occupies(ss, addrs, order[k], p)
    requires forall m :: 0 <= m < |order| && order[m] != order[k] && IsKept(t, ss[order[m]]) ==> !Occupies(ss, addrs, order[m], p)
    ensures CopyIn(t, ss, addrs, order, img)[p] == OutputBytes(ss[order[k]])[p - addrs[order[k]]]
    decreases |order|
  {
    hide IsKept;
    if order[|order| - 1] != order[k] {
      CopyInside(t, ss, addrs, order[..|order| - 1], img, k, p);
    }
  }

  // Main result.  After placement, copying the kept sections in any order that
  // visits each of them leaves every kept section's bytes at its address and
  // changes nothing else: not the trampolines between text and data, not the
  // jump table and not the GOT behind the sections.
  lemma CopyAnyOrder(t: Target, ss: seq<Section>, tramp: nat, addrs: seq<nat>, l: Layout, order: seq<nat>, img: seq<byte>)
    requires IsRelocatable(t) && |ss| == |addrs| && t.sectionAlign > 0
    requires Placed(t, ss, tramp, addrs, l)
    requires Fits(t, ss, addrs, |img|)
    requires forall k :: 0 <= k < |order| ==> order[k] < |ss|
    requires forall i :: 0 <= i < |ss| ==> i in order
    ensures var r := CopyIn(t, ss, addrs, order, img);
            && (forall i :: 0 <= i < |ss| && IsKept(t, ss[i]) ==> ShowsSection(ss[i], addrs[i], r))
            && (forall p :: l.kernelSize <= p < |img| ==> r[p] == img[p])
            && (t.machine == EmArm ==> forall p :: l.trampOff <= p < l.trampOff + tramp && p < |img| ==> r[p] == img[p])
  {
    var r := CopyIn(t, ss, addrs, order, img);
    PlacementIsDisjoint(t, ss, tramp, addrs, l);
    forall i | 0 <= i < |ss| && IsKept(t, ss[i]) ensures ShowsSection(ss[i], addrs[i], r) {
      SectionShows(t, ss, addrs, order, img, i);
    }
    forall p | l.kernelSize <= p < |img| ensures r[p] == img[p] {
      forall i | 0 <= i < |ss| && IsKept(t, ss[i]) ensures !Occupies(ss, addrs, i, p) {
        KeptBelowKernelSize(t, ss, tramp, addrs, l, i);
      }
      CopyOutside(t, ss, addrs, order, img, p);
    }
    if t.machine == EmArm {
      forall p | l.trampOff <= p < l.trampOff + tramp && p < |img| ensures r[p] == img[p] {
        CopyOutside(t, ss, addrs, order, img, p);
      }
    }
  }

  lemma SectionShows(t: Target, ss: seq<Section>, addrs: seq<nat>, order: seq<nat>, img: seq<byte>, i: nat)
    requires Fits(t, ss, addrs, |img|) && KeptDisjoint(t, ss, addrs)
    requires forall k :: 0 <= k < |order| ==> order[k] < |ss|
    requires i < |ss| && i in order && IsKept(t, ss[i])
    ensures ShowsSection(ss[i], addrs[i], CopyIn(t, ss, addrs, order, img))
  {
    hide CopyIn, KeptDisjoint, IsKept;
    var r := CopyIn(t, ss, addrs, order, img);
    forall p | addrs[i] <= p < addrs[i] + ss[i].size ensures r[p] == OutputBytes(ss[i])[p - addrs[i]] {
      SectionByte(t, ss, addrs, order, img, i, p);
    }
    assert r[addrs[i]..addrs[i] + ss[i].size] == OutputBytes(ss[i]);
  }

  lemma SectionByte(t: Target, ss: seq<Section>, addrs: seq<nat>, order: seq<nat>, img: seq<byte>, i: nat, p: nat)
    requires Fits(t, ss, addrs, |img|) && KeptDisjoint(t, ss, addrs)
    requires forall k :: 0 <= k < |order| ==> order[k] < |ss|
    requires i < |ss| && i in order && IsKept(t, ss[i]) && Occupies(ss, addrs, i, p)
    ensures CopyIn(t, ss, addrs, order, img)[p] == OutputBytes(ss[i])[p - addrs[i]]
  {
    var k :| 0 <= k < |order| && order[k] == i;
    CopyInside(t, ss, addrs, order, img, k, p);
  }

  ghost function IndexOrder(n: nat): (o: seq<nat>)
    ensures |o| == n
    ensures forall k :: 0 <= k < n ==> o[k] == k
  {
    seq(n, i => i)
  }

  // The loop at the end of grub_mkimage_load_image.
  method CopySections(t: Target, ss: seq<Section>, addrs: seq<nat>, img: array<byte>)
    requires Fits(t, ss, addrs, img.Length)
    modifies img
    ensures img[..] == CopyIn(t, ss, addrs, IndexOrder(|ss|), old(img[..]))
    ensures KeptDisjoint(t, ss, addrs) ==> forall i :: 0 <= i < |ss| && IsKept(t, ss[i]) ==> ShowsSection(ss[i], addrs[i], img[..])
  {
    for i := 0 to |ss|
      invariant img[..] == CopyIn(t, ss, addrs, IndexOrder(i), old(img[..]))
    {
      assert IndexOrder(i + 1)[..i] == IndexOrder(i);
      if IsKept(t, ss[i]) {
        Memcpy(img, addrs[i], OutputBytes(ss[i]));
      }
    }
    CopyShows(t, ss, addrs, old(img[..]));
  }

  lemma CopyShows(t: Target, ss: seq<Section>, addrs: seq<nat>, img: seq<byte>)
    requires Fits(t, ss, addrs, |img|)
    ensures KeptDisjoint(t, ss, addrs) ==>
              forall i :: 0 <= i < |ss| && IsKept(t, ss[i]) ==> ShowsSection(ss[i], addrs[i], CopyIn(t, ss, addrs, IndexOrder(|ss|), img))
  {
    hide CopyIn, KeptDisjoint, IsKept, ShowsSection;
    if KeptDisjoint(t, ss, addrs) {
      forall i | 0 <= i < |ss| && IsKept(t, ss[i]) ensures ShowsSection(ss[i], addrs[i], CopyIn(t, ss, addrs, IndexOrder(|ss|), img)) {
        assert IndexOrder(|ss|)[i] == i;
        SectionShows(t, ss, addrs, IndexOrder(|ss|), img, i);
      }
    }
  }
}
