/** The module area behind the kernel: the sizing and the writing pass of
    `grub_install_generate_image` (grub/util/mkimage.c) and the walk that the booted
    kernel makes over it (FOR_MODULES in grub/include/grub/kernel.h). */
module ModuleArea {
  import opened Align
  import opened Bytes
  import opened Options
  import opened SectionLayout

  const HEADER: nat := 8 // struct grub_module_header: type and size
  const MAGIC: nat := 0x676d696d // "gmim"
  const TWO32: nat := 0x1_0000_0000

  const OBJ_TYPE_ELF: nat := 0
  const OBJ_TYPE_MEMDISK: nat := 1
  const OBJ_TYPE_CONFIG: nat := 2
  const OBJ_TYPE_PREFIX: nat := 3
  const OBJ_TYPE_GPG_PUBKEY: nat := 4
  const OBJ_TYPE_X509_PUBKEY: nat := 5
  const OBJ_TYPE_DTB: nat := 6
  const OBJ_TYPE_DISABLE_SHIM_LOCK: nat := 7
  const OBJ_TYPE_DISABLE_CLI: nat := 8

  // voidp_sizeof and bigendian of the target.
  datatype Arch = Arch(voidp: nat, endian: Endian)

  ghost predicate ValidArch(a: Arch) {
    a.voidp == 4 || a.voidp == 8
  }

  // What goes into the image besides the kernel.
  datatype Inputs = Inputs(
    modules: seq<seq<byte>>,
    pubkeys: seq<seq<byte>>,
    x509keys: seq<seq<byte>>,
    memdisk: Option<seq<byte>>,
    dtb: Option<seq<byte>>,
    disableShimLock: bool,
    disableCli: bool,
    config: Option<seq<byte>>,
    prefix: Option<seq<byte>>)

  datatype Object = Object(kind: nat, contents: seq<byte>)

  // Bytes reserved for the contents: configuration and prefix keep a final NUL, the
  // memory disk is padded to disk blocks.
  function Room(a: Arch, o: Object): nat
    requires a.voidp > 0
  {
    if o.kind == OBJ_TYPE_MEMDISK then AlignUp(|o.contents|, 512)
    else if o.kind == OBJ_TYPE_CONFIG || o.kind == OBJ_TYPE_PREFIX then AlignUp(|o.contents| + 1, a.voidp)
    else AlignUp(|o.contents|, a.voidp)
  }

  // The size field: public keys record their exact size, all others the padded one.
  function SizeField(a: Arch, o: Object): nat
    requires a.voidp > 0
  {
    HEADER + if o.kind == OBJ_TYPE_GPG_PUBKEY || o.kind == OBJ_TYPE_X509_PUBKEY then |o.contents| else Room(a, o)
  }

  function Slot(a: Arch, o: Object): nat
    requires a.voidp > 0
  {
    HEADER + Room(a, o)
  }

  function Slots(a: Arch, os: seq<Object>): nat
    requires a.voidp > 0
  {
    if os == [] then 0 else Slot(a, os[0]) + Slots(a, os[1..])
  }

  function InfoSize(a: Arch): nat {
    if a.voidp == 8 then 24 else 12
  }

  function Each(kind: nat, blobs: seq<seq<byte>>): (r: seq<Object>)
    ensures |r| == |blobs|
    ensures forall i :: 0 <= i < |blobs| ==> r[i] == Object(kind, blobs[i])
  {
    if blobs == [] then [] else [Object(kind, blobs[0])] + Each(kind, blobs[1..])
  }

  function Maybe(kind: nat, blob: Option<seq<byte>>): seq<Object> {
    match blob case None => [] case Some(b) => [Object(kind, b)]
  }

  function Flag(kind: nat, on: bool): seq<Object> {
    if on then [Object(kind, [])] else []
  }

  // All objects in the order they are written.
  function Objects(i: Inputs): seq<Object> {
    Each(OBJ_TYPE_ELF, i.modules) + Each(OBJ_TYPE_GPG_PUBKEY, i.pubkeys) + Each(OBJ_TYPE_X509_PUBKEY, i.x509keys)
    + Maybe(OBJ_TYPE_MEMDISK, i.memdisk) + Maybe(OBJ_TYPE_DTB, i.dtb)
    + Flag(OBJ_TYPE_DISABLE_SHIM_LOCK, i.disableShimLock) + Flag(OBJ_TYPE_DISABLE_CLI, i.disableCli)
    + Maybe(OBJ_TYPE_CONFIG, i.config) + Maybe(OBJ_TYPE_PREFIX, i.prefix)
  }

  /* ---- the sizing pass ---- */

  lemma {:induction false} SlotsConcat(a: Arch, xs: seq<Object>, ys: seq<Object>)
    requires a.voidp > 0
    ensures Slots(a, xs + ys) == Slots(a, xs) + Slots(a, ys)
    decreases |xs|
  {
    if xs == [] {
      assert xs + ys == ys;
    } else {
      assert (xs + ys)[1..] == xs[1..] + ys;
      SlotsConcat(a, xs[1..], ys);
    }
  }

  method SizeEach(a: Arch, kind: nat, blobs: seq<seq<byte>>) returns (size: nat)
    requires a.voidp > 0
    requires kind !in {OBJ_TYPE_MEMDISK, OBJ_TYPE_CONFIG, OBJ_TYPE_PREFIX}
    ensures size == Slots(a, Each(kind, blobs))
  {
    size := 0;
    for j := 0 to |blobs|
      invariant size + Slots(a, Each(kind, blobs[j..])) == Slots(a, Each(kind, blobs))
    {
      var curs := AlignUp(|blobs[j]|, a.voidp);
      size := size + curs + HEADER;
      assert blobs[j..][1..] == blobs[j + 1..];
      assert Each(kind, blobs[j..])[1..] == Each(kind, blobs[j + 1..]);
    }
  }

  // The sizing pass, in the source's order: keys, memory disk, device tree, flags,
  // configuration, prefix, and the modules last.
  method TotalModuleSize(a: Arch, i: Inputs) returns (total: nat)
    requires ValidArch(a)
    ensures total == InfoSize(a) + Slots(a, Objects(i))
  {
    hide Room, Slots, Each, Objects, Slot, SlotIf, Maybe, Flag;
    total := InfoSize(a);
    var keys := SizeEach(a, OBJ_TYPE_GPG_PUBKEY, i.pubkeys);
    var x509 := SizeEach(a, OBJ_TYPE_X509_PUBKEY, i.x509keys);
    var memdisk := SizeMaybe(a, OBJ_TYPE_MEMDISK, i.memdisk);
    var dtb := SizeMaybe(a, OBJ_TYPE_DTB, i.dtb);
    var shim := SizeFlag(a, OBJ_TYPE_DISABLE_SHIM_LOCK, i.disableShimLock);
    var cli := SizeFlag(a, OBJ_TYPE_DISABLE_CLI, i.disableCli);
    var config := SizeMaybe(a, OBJ_TYPE_CONFIG, i.config);
    var prefix := SizeMaybe(a, OBJ_TYPE_PREFIX, i.prefix);
    var modules := SizeEach(a, OBJ_TYPE_ELF, i.modules);
    total := total + keys + x509 + memdisk + dtb + shim + cli + config + prefix + modules;
    SlotsOfObjects(a, i);
  }

  // An optional file: padded to disk blocks for the memory disk, with a final NUL for
  // configuration and prefix, to a pointer otherwise.
  method SizeMaybe(a: Arch, kind: nat, blob: Option<seq<byte>>) returns (size: nat)
    requires a.voidp > 0
    ensures size == SlotIf(a, Maybe(kind, blob))
  {
    size := 0;
    if blob.Some? {
      var n := |blob.value|;
      if kind == OBJ_TYPE_MEMDISK {
        size := AlignUp(n, 512) + HEADER;
      } else if kind == OBJ_TYPE_CONFIG || kind == OBJ_TYPE_PREFIX {
        size := AlignUp(n + 1, a.voidp) + HEADER;
      } else {
        size := AlignUp(n, a.voidp) + HEADER;
      }
    }
  }

  // A flag is a bare header.
  method SizeFlag(a: Arch, kind: nat, on: bool) returns (size: nat)
    requires a.voidp > 0 && kind !in {OBJ_TYPE_MEMDISK, OBJ_TYPE_CONFIG, OBJ_TYPE_PREFIX}
    ensures size == SlotIf(a, Flag(kind, on))
  {
    AlignUpOfMultiple(0, a.voidp);
    size := if on then HEADER else 0;
  }

  ghost function SlotIf(a: Arch, os: seq<Object>): nat
    requires a.voidp > 0
  {
    if os == [] then 0 else Slot(a, os[0])
  }

  lemma SlotsOfOne(a: Arch, os: seq<Object>)
    requires a.voidp > 0 && |os| <= 1
    ensures Slots(a, os) == SlotIf(a, os)
  {
    if os != [] {
      assert Slots(a, os[1..]) == 0;
    }
  }

  lemma SlotsOfObjects(a: Arch, i: Inputs)
    requires a.voidp > 0
    ensures Slots(a, Objects(i)) ==
      Slots(a, Each(OBJ_TYPE_ELF, i.modules)) + Slots(a, Each(OBJ_TYPE_GPG_PUBKEY, i.pubkeys))
      + Slots(a, Each(OBJ_TYPE_X509_PUBKEY, i.x509keys))
      + SlotIf(a, Maybe(OBJ_TYPE_MEMDISK, i.memdisk)) + SlotIf(a, Maybe(OBJ_TYPE_DTB, i.dtb))
      + SlotIf(a, Flag(OBJ_TYPE_DISABLE_SHIM_LOCK, i.disableShimLock)) + SlotIf(a, Flag(OBJ_TYPE_DISABLE_CLI, i.disableCli))
      + SlotIf(a, Maybe(OBJ_TYPE_CONFIG, i.config)) + SlotIf(a, Maybe(OBJ_TYPE_PREFIX, i.prefix))
  {
    hide Slot, Slots, SlotIf, Each, Maybe, Flag;
    var x1 := Each(OBJ_TYPE_ELF, i.modules);
    var x2 := x1 + Each(OBJ_TYPE_GPG_PUBKEY, i.pubkeys);
    var x3 := x2 + Each(OBJ_TYPE_X509_PUBKEY, i.x509keys);
    var x4 := x3 + Maybe(OBJ_TYPE_MEMDISK, i.memdisk);
    var x5 := x4 + Maybe(OBJ_TYPE_DTB, i.dtb);
    var x6 := x5 + Flag(OBJ_TYPE_DISABLE_SHIM_LOCK, i.disableShimLock);
    var x7 := x6 + Flag(OBJ_TYPE_DISABLE_CLI, i.disableCli);
    var x8 := x7 + Maybe(OBJ_TYPE_CONFIG, i.config);
    SlotsConcat(a, x1, Each(OBJ_TYPE_GPG_PUBKEY, i.pubkeys));
    SlotsConcat(a, x2, Each(OBJ_TYPE_X509_PUBKEY, i.x509keys));
    AddMaybe(a, x3, OBJ_TYPE_MEMDISK, i.memdisk);
    AddMaybe(a, x4, OBJ_TYPE_DTB, i.dtb);
    AddFlag(a, x5, OBJ_TYPE_DISABLE_SHIM_LOCK, i.disableShimLock);
    AddFlag(a, x6, OBJ_TYPE_DISABLE_CLI, i.disableCli);
    AddMaybe(a, x7, OBJ_TYPE_CONFIG, i.config);
    AddMaybe(a, x8, OBJ_TYPE_PREFIX, i.prefix);
  }

  lemma AddMaybe(a: Arch, xs: seq<Object>, kind: nat, b: Option<seq<byte>>)
    requires a.voidp > 0
    ensures Slots(a, xs + Maybe(kind, b)) == Slots(a, xs) + SlotIf(a, Maybe(kind, b))
  {
    SlotsConcat(a, xs, Maybe(kind, b));
    SlotsOfOne(a, Maybe(kind, b));
  }

  lemma AddFlag(a: Arch, xs: seq<Object>, kind: nat, on: bool)
    requires a.voidp > 0
    ensures Slots(a, xs + Flag(kind, on)) == Slots(a, xs) + SlotIf(a, Flag(kind, on))
  {
    SlotsConcat(a, xs, Flag(kind, on));
    SlotsOfOne(a, Flag(kind, on));
  }

  /* ---- the writing pass ---- */

  function ObjectBytes(a: Arch, o: Object): (s: seq<byte>)
    requires a.voidp > 0
    ensures |s| == Slot(a, o)
  {
    Encode(a.endian, o.kind, 4) + Encode(a.endian, SizeField(a, o), 4) + o.contents + Zeros(Room(a, o) - |o.contents|)
  }

  function AllBytes(a: Arch, os: seq<Object>): (s: seq<byte>)
    requires a.voidp > 0
    ensures |s| == Slots(a, os)
  {
    if os == [] then [] else ObjectBytes(a, os[0]) + AllBytes(a, os[1..])
  }

  // struct grub_module_info32 or grub_module_info64.
  function InfoBytes(a: Arch, total: nat): (s: seq<byte>)
    requires ValidArch(a)
    ensures |s| == InfoSize(a)
  {
    Encode(a.endian, MAGIC, 4) + Zeros(a.voidp - 4)
    + Encode(a.endian, InfoSize(a), a.voidp) + Encode(a.endian, total, a.voidp)
  }

  function AreaBytes(a: Arch, i: Inputs): (s: seq<byte>)
    requires ValidArch(a)
    ensures |s| == InfoSize(a) + Slots(a, Objects(i))
  {
    InfoBytes(a, InfoSize(a) + Slots(a, Objects(i))) + AllBytes(a, Objects(i))
  }

  lemma SpliceConcat(img: seq<byte>, at: nat, x: seq<byte>, y: seq<byte>)
    requires at + |x| + |y| <= |img|
    ensures Splice(Splice(img, at, x), at + |x|, y) == Splice(img, at, x + y)
  {
  }

  lemma SpliceEmpty(img: seq<byte>, at: nat)
    requires at <= |img|
    ensures Splice(img, at, []) == img
  {
  }

  // Zero bytes need not be written over zeros.
  lemma SpliceZeros(img: seq<byte>, at: nat, x: seq<byte>, n: nat)
    requires at + |x| + n <= |img|
    requires forall p :: at + |x| <= p < at + |x| + n ==> img[p] == 0
    ensures Splice(img, at, x) == Splice(img, at, x + Zeros(n))
  {
  }

  ghost predicate ZeroFrom(img: seq<byte>, lo: nat, hi: nat) {
    hi <= |img| && forall p :: lo <= p < hi ==> img[p] == 0
  }

  // Writes one header and its contents; returns the offset behind the slot.
  method WriteObject(a: Arch, o: Object, img: array<byte>, offset: nat) returns (next: nat)
    requires a.voidp > 0 && ZeroFrom(img[..], offset, offset + Slot(a, o))
    modifies img
    ensures next == offset + Slot(a, o)
    ensures img[..] == Splice(old(img[..]), offset, ObjectBytes(a, o))
  {
    hide Room, Encode, SizeField;
    ghost var before := img[..];
    var kind := Encode(a.endian, o.kind, 4);
    var size := Encode(a.endian, SizeField(a, o), 4);
    Memcpy(img, offset, kind);
    Memcpy(img, offset + 4, size);
    SpliceConcat(before, offset, kind, size);
    RoomSuffices(a, o);
    Memcpy(img, offset + HEADER, o.contents);
    SpliceConcat(before, offset, kind + size, o.contents);
    SpliceZeros(before, offset, kind + size + o.contents, Room(a, o) - |o.contents|);
    next := offset + HEADER + Room(a, o);
  }

  lemma RoomSuffices(a: Arch, o: Object)
    requires a.voidp > 0
    ensures |o.contents| <= Room(a, o)
  {
  }

  lemma ZerosBehind(img: seq<byte>, at: nat, data: seq<byte>, lo: nat, hi: nat)
    requires ZeroFrom(img, at, hi) && at + |data| <= lo <= hi
    ensures forall top :: lo <= top <= hi ==> ZeroFrom(Splice(img, at, data), lo, top)
  {
  }

  method WriteObjects(a: Arch, os: seq<Object>, img: array<byte>, offset: nat) returns (next: nat)
    requires a.voidp > 0 && ZeroFrom(img[..], offset, offset + Slots(a, os))
    modifies img
    ensures next == offset + Slots(a, os)
    ensures img[..] == Splice(old(img[..]), offset, AllBytes(a, os))
  {
    hide Slot, ObjectBytes;
    ghost var before := img[..];
    assert offset + Slots(a, os) <= |before|;
    hide ZeroFrom;
    next := offset;
    SpliceEmpty(before, offset);
    hide Splice;
    for j := 0 to |os|
      invariant next + Slots(a, os[j..]) == offset + Slots(a, os)
      invariant next == offset + Slots(a, os[..j])
      invariant img[..] == Splice(before, offset, AllBytes(a, os[..j]))
    {
      assert os[j..] == [os[j]] + os[j + 1..];
      AllBytesAppend(a, os[..j], os[j]);
      assert os[..j] + [os[j]] == os[..j + 1];
      ZerosBehind(before, offset, AllBytes(a, os[..j]), next, offset + Slots(a, os));
      SpliceConcat(before, offset, AllBytes(a, os[..j]), ObjectBytes(a, os[j]));
      next := WriteObject(a, os[j], img, next);
    }
    assert os[..|os|] == os;
  }

  lemma {:induction false} AllBytesAppend(a: Arch, os: seq<Object>, o: Object)
    requires a.voidp > 0
    ensures AllBytes(a, os + [o]) == AllBytes(a, os) + ObjectBytes(a, o)
    ensures Slots(a, os + [o]) == Slots(a, os) + Slot(a, o)
    decreases |os|
  {
    hide ObjectBytes, Slot;
    if os == [] {
      assert os + [o] == [o];
      assert AllBytes(a, [o][1..]) == [];
    } else {
      assert (os + [o])[1..] == os[1..] + [o];
      AllBytesAppend(a, os[1..], o);
    }
  }

  // The writing pass: starting at `start` (behind the kernel, or 0 when the modules
  // come first), it ends exactly where the sizing pass said.
  method WriteArea(a: Arch, i: Inputs, total: nat, img: array<byte>, start: nat) returns (end: nat)
    requires ValidArch(a) && total == InfoSize(a) + Slots(a, Objects(i))
    requires ZeroFrom(img[..], start, start + total)
    modifies img
    ensures end == start + total
    ensures img[..] == Splice(old(img[..]), start, AreaBytes(a, i))
  {
    hide Slots, Objects, AllBytes, InfoBytes, Encode;
    ghost var before := img[..];
    var info := InfoBytes(a, total);
    Memcpy(img, start, info);
    ZerosBehind(before, start, info, start + |info|, start + total);
    hide ZeroFrom, Splice;
    end := WriteObjects(a, Objects(i), img, start + InfoSize(a));
    SpliceConcat(before, start, info, AllBytes(a, Objects(i)));
  }

  /* ---- the kernel's walk ---- */

  // FOR_MODULES from the first header on: each step goes forward by the header's size
  // rounded up to a pointer.  None stands for a walk that leaves the area.
  function Walk(a: Arch, s: seq<byte>): Option<seq<Object>>
    requires ValidArch(a)
    decreases |s|
  {
    if s == [] then Some([])
    else if |s| < HEADER then None
    else
      var size := Decode(a.endian, s[4..8]);
      if size < HEADER || AlignUp(size, a.voidp) > |s| then None
      else match Walk(a, s[AlignUp(size, a.voidp)..])
        case None => None
        case Some(rest) => Some([Object(Decode(a.endian, s[..4]), s[HEADER..size])] + rest)
  }

  function WalkArea(a: Arch, area: seq<byte>): Option<seq<Object>>
    requires ValidArch(a)
  {
    var n := InfoSize(a);
    if |area| < n || Decode(a.endian, area[..4]) != MAGIC then None
    else
      var offset := Decode(a.endian, area[a.voidp..2 * a.voidp]);
      var size := Decode(a.endian, area[2 * a.voidp..3 * a.voidp]);
      if offset > size || size > |area| then None else Walk(a, area[offset..size])
  }

  // An object as the walk shows it: with its padding, except for public keys.
  function Shown(a: Arch, o: Object): Object
    requires a.voidp > 0
  {
    Object(o.kind, o.contents + Zeros(SizeField(a, o) - HEADER - |o.contents|))
  }

  function AllShown(a: Arch, os: seq<Object>): (r: seq<Object>)
    requires a.voidp > 0
    ensures |r| == |os|
    ensures forall i :: 0 <= i < |os| ==> r[i] == Shown(a, os[i])
  {
    if os == [] then [] else [Shown(a, os[0])] + AllShown(a, os[1..])
  }

  ghost predicate Encodable(a: Arch, os: seq<Object>)
    requires a.voidp > 0
  {
    forall i :: 0 <= i < |os| ==> os[i].kind < TWO32 && SizeField(a, os[i]) < TWO32
  }

  // Rounding the size field up gives back the slot.
  lemma SizeRoundsToSlot(a: Arch, o: Object)
    requires ValidArch(a)
    ensures AlignUp(SizeField(a, o), a.voidp) == Slot(a, o)
  {
    var n := if o.kind == OBJ_TYPE_GPG_PUBKEY || o.kind == OBJ_TYPE_X509_PUBKEY then |o.contents| else Room(a, o);
    assert HEADER % a.voidp == 0;
    AlignUpAdd(HEADER, n, a.voidp);
    if n == Room(a, o) {
      RoomIsAligned(a, o);
      AlignUpOfMultiple(n, a.voidp);
    }
  }

  lemma RoomIsAligned(a: Arch, o: Object)
    requires ValidArch(a)
    ensures Room(a, o) % a.voidp == 0
  {
    if o.kind == OBJ_TYPE_MEMDISK {
      var n := AlignUp(|o.contents|, 512);
      BlockIsAligned(n);
    }
  }

  lemma BlockIsAligned(n: nat)
    requires n % 512 == 0
    ensures n % 4 == 0 && n % 8 == 0
  {
    assert n == 8 * (64 * (n / 512));
    assert n == 4 * (128 * (n / 512));
  }

  lemma WalkObject(a: Arch, o: Object, rest: seq<byte>)
    requires ValidArch(a) && o.kind < TWO32 && SizeField(a, o) < TWO32
    ensures var s := ObjectBytes(a, o) + rest;
            && Decode(a.endian, s[..4]) == o.kind
            && Decode(a.endian, s[4..8]) == SizeField(a, o)
            && Object(o.kind, s[HEADER..SizeField(a, o)]) == Shown(a, o)
            && s[Slot(a, o)..] == rest
  {
    hide Room, Encode, Decode;
    RoomSuffices(a, o);
    var s := ObjectBytes(a, o) + rest;
    Powers();
    DecodeEncode(a.endian, o.kind, 4);
    DecodeEncode(a.endian, SizeField(a, o), 4);
    assert s[..4] == Encode(a.endian, o.kind, 4);
    assert s[4..8] == Encode(a.endian, SizeField(a, o), 4);
    ObjectShown(a, o, rest);
  }

  lemma ObjectShown(a: Arch, o: Object, rest: seq<byte>)
    requires a.voidp > 0
    ensures HEADER <= SizeField(a, o) <= |ObjectBytes(a, o)|
    ensures (ObjectBytes(a, o) + rest)[HEADER..SizeField(a, o)] == o.contents + Zeros(SizeField(a, o) - HEADER - |o.contents|)
  {
    hide Encode, AlignUp;
    RoomSuffices(a, o);
    SlotBound(a, o);
    var s, n := ObjectBytes(a, o) + rest, SizeField(a, o);
    hide Room;
    assert s[HEADER..HEADER + |o.contents|] == o.contents;
    assert s[HEADER + |o.contents|..n] == Zeros(n - HEADER - |o.contents|);
  }

  lemma {:induction false} WalkAllBytes(a: Arch, os: seq<Object>)
    requires ValidArch(a) && Encodable(a, os)
    ensures Walk(a, AllBytes(a, os)) == Some(AllShown(a, os))
    decreases |os|
  {
    hide Decode, ObjectBytes, Slot, SizeField, Shown, AlignUp;
    if os != [] {
      var rest := AllBytes(a, os[1..]);
      WalkObject(a, os[0], rest);
      SizeRoundsToSlot(a, os[0]);
      SlotBound(a, os[0]);
      WalkAllBytes(a, os[1..]);
    }
  }

  lemma SlotBound(a: Arch, o: Object)
    requires a.voidp > 0
    ensures HEADER <= SizeField(a, o) <= Slot(a, o)
  {
  }

  // Main result.  For every set of inputs, the kernel walking the written area visits
  // every object exactly once, in order, with its contents, and stops at its end.
  lemma WalkVisitsAll(a: Arch, i: Inputs)
    requires ValidArch(a) && Encodable(a, Objects(i))
    requires InfoSize(a) + Slots(a, Objects(i)) < Pow256(a.voidp)
    ensures WalkArea(a, AreaBytes(a, i)) == Some(AllShown(a, Objects(i)))
  {
    hide Decode, Encode, Slots, Objects, AllBytes, AllShown, Pow256, Encodable;
    var total := InfoSize(a) + Slots(a, Objects(i));
    var area := AreaBytes(a, i);
    InfoFields(a, total, AllBytes(a, Objects(i)));
    assert area[InfoSize(a)..total] == AllBytes(a, Objects(i));
    WalkAllBytes(a, Objects(i));
  }

  lemma InfoFields(a: Arch, total: nat, rest: seq<byte>)
    requires ValidArch(a) && total < Pow256(a.voidp)
    ensures var area := InfoBytes(a, total) + rest;
            && Decode(a.endian, area[..4]) == MAGIC
            && Decode(a.endian, area[a.voidp..2 * a.voidp]) == InfoSize(a)
            && Decode(a.endian, area[2 * a.voidp..3 * a.voidp]) == total
  {
    Powers();
    hide Decode, Encode, Pow256;
    var area := InfoBytes(a, total) + rest;
    DecodeEncode(a.endian, MAGIC, 4);
    DecodeEncode(a.endian, InfoSize(a), a.voidp);
    DecodeEncode(a.endian, total, a.voidp);
    assert area[..4] == Encode(a.endian, MAGIC, 4);
    assert area[a.voidp..2 * a.voidp] == Encode(a.endian, InfoSize(a), a.voidp);
    assert area[2 * a.voidp..3 * a.voidp] == Encode(a.endian, total, a.voidp);
  }

  // The contents are recovered: what is shown begins with them.
  lemma ContentsAreShown(a: Arch, i: Inputs, j: nat)
    requires ValidArch(a) && j < |Objects(i)|
    ensures AllShown(a, Objects(i))[j].kind == Objects(i)[j].kind
    ensures Objects(i)[j].contents <= AllShown(a, Objects(i))[j].contents
    ensures Objects(i)[j].kind in {OBJ_TYPE_GPG_PUBKEY, OBJ_TYPE_X509_PUBKEY} ==> AllShown(a, Objects(i))[j] == Objects(i)[j]
  {
  }

  /* ---- which input becomes which object ---- */

  // The contents of the objects of one type, in order.
  function OfType(os: seq<Object>, kind: nat): seq<seq<byte>> {
    if os == [] then []
    else OfType(os[..|os| - 1], kind) + if os[|os| - 1].kind == kind then [os[|os| - 1].contents] else []
  }

  // c is b filled up with zeros to a multiple of `unit`, by less than one unit.
  ghost predicate IsPadded(unit: nat, b: seq<byte>, c: seq<byte>)
    requires unit > 0
  {
    b <= c && |c| < |b| + unit && |c| % unit == 0 && forall p :: |b| <= p < |c| ==> c[p] == 0
  }

  // c is b with at least one zero behind it, filled up to a multiple of `unit`.
  ghost predicate IsTerminated(unit: nat, b: seq<byte>, c: seq<byte>)
    requires unit > 0
  {
    b < c && |c| <= |b| + unit && |c| % unit == 0 && forall p :: |b| <= p < |c| ==> c[p] == 0
  }

  ghost predicate AllPadded(unit: nat, bs: seq<seq<byte>>, cs: seq<seq<byte>>)
    requires unit > 0
  {
    |cs| == |bs| && forall j :: 0 <= j < |bs| ==> IsPadded(unit, bs[j], cs[j])
  }

  // The place of a type in the area.
  function Rank(kind: nat): nat {
    match kind
    case 0 => 0
    case 4 => 1
    case 5 => 2
    case 1 => 3
    case 6 => 4
    case 7 => 5
    case 8 => 6
    case 2 => 7
    case 3 => 8
    case _ => 9
  }

  ghost predicate RanksAscend(os: seq<Object>, top: nat) {
    && (forall p :: 0 <= p < |os| ==> Rank(os[p].kind) <= top)
    && forall p, q :: 0 <= p < q < |os| ==> Rank(os[p].kind) <= Rank(os[q].kind)
  }

  // The walk shows the inputs and nothing else, by the type numbers of kernel.h: 0 modules,
  // 1 memory disk, 2 configuration, 3 prefix, 4 and 5 keys, 6 device tree, 7 and 8 flags.
  ghost predicate ShowsInputs(a: Arch, i: Inputs, os: seq<Object>)
    requires a.voidp > 0
  {
    && AllPadded(a.voidp, i.modules, OfType(os, 0))
    && OfType(os, 4) == i.pubkeys && OfType(os, 5) == i.x509keys
    && AllPadded(512, One(i.memdisk), OfType(os, 1))
    && AllPadded(a.voidp, One(i.dtb), OfType(os, 6))
    && |OfType(os, 7)| == (if i.disableShimLock then 1 else 0)
    && |OfType(os, 8)| == (if i.disableCli then 1 else 0)
    && |OfType(os, 2)| == |One(i.config)| && (i.config.Some? ==> IsTerminated(a.voidp, i.config.value, OfType(os, 2)[0]))
    && |OfType(os, 3)| == |One(i.prefix)| && (i.prefix.Some? ==> IsTerminated(a.voidp, i.prefix.value, OfType(os, 3)[0]))
    && RanksAscend(os, 8)
  }

  function One(blob: Option<seq<byte>>): seq<seq<byte>> {
    match blob case None => [] case Some(b) => [b]
  }

  lemma {:induction false} OfTypeConcat(xs: seq<Object>, ys: seq<Object>, kind: nat)
    ensures OfType(xs + ys, kind) == OfType(xs, kind) + OfType(ys, kind)
    decreases |ys|
  {
    if ys == [] {
      assert xs + ys == xs;
    } else {
      var n := |ys| - 1;
      assert (xs + ys)[..|xs| + n] == xs + ys[..n];
      OfTypeConcat(xs, ys[..n], kind);
    }
  }

  // One part of the area: some blobs written under one type.
  function Part(a: Arch, kind: nat, blobs: seq<seq<byte>>): (r: seq<Object>)
    requires a.voidp > 0
    ensures |r| == |blobs| && forall j :: 0 <= j < |r| ==> r[j] == Shown(a, Object(kind, blobs[j]))
  {
    if blobs == [] then [] else [Shown(a, Object(kind, blobs[0]))] + Part(a, kind, blobs[1..])
  }

  lemma {:induction false} OfTypePart(a: Arch, kind: nat, blobs: seq<seq<byte>>, k: nat)
    requires a.voidp > 0
    ensures k != kind ==> OfType(Part(a, kind, blobs), k) == []
    ensures k == kind ==> |OfType(Part(a, kind, blobs), k)| == |blobs|
    ensures k == kind ==> forall j :: 0 <= j < |blobs| ==> OfType(Part(a, kind, blobs), k)[j] == Shown(a, Object(kind, blobs[j])).contents
    decreases |blobs|
  {
    hide Shown, OfType, Part;
    if blobs == [] {
      OfTypeNone(k);
    } else {
      var n := |blobs| - 1;
      OfTypePart(a, kind, blobs[..n], k);
      ShownKind(a, Object(kind, blobs[n]));
      OfTypeLast(Part(a, kind, blobs[..n]), Shown(a, Object(kind, blobs[n])), k);
      assert Part(a, kind, blobs) == Part(a, kind, blobs[..n]) + [Shown(a, Object(kind, blobs[n]))];
    }
  }

  lemma OfTypeNone(kind: nat)
    ensures OfType([], kind) == []
  {
  }

  lemma OfTypeLast(os: seq<Object>, o: Object, kind: nat)
    ensures OfType(os + [o], kind) == OfType(os, kind) + if o.kind == kind then [o.contents] else []
  {
    assert (os + [o])[..|os|] == os;
  }

  lemma ShownKind(a: Arch, o: Object)
    requires a.voidp > 0
    ensures Shown(a, o).kind == o.kind
  {
  }

  // The nine parts in the order they are written, each with its type.
  datatype Segment = Segment(kind: nat, blobs: seq<seq<byte>>)

  function Segments(i: Inputs): (r: seq<Segment>)
    ensures |r| == 9
  {
    [ Segment(0, i.modules), Segment(4, i.pubkeys), Segment(5, i.x509keys), Segment(1, One(i.memdisk)), Segment(6, One(i.dtb)),
      Segment(7, if i.disableShimLock then [[]] else []), Segment(8, if i.disableCli then [[]] else []),
      Segment(2, One(i.config)), Segment(3, One(i.prefix)) ]
  }

  ghost function Joined(a: Arch, ss: seq<Segment>, n: nat): seq<Object>
    requires a.voidp > 0 && n <= |ss|
  {
    if n == 0 then [] else Joined(a, ss, n - 1) + Part(a, ss[n - 1].kind, ss[n - 1].blobs)
  }

  ghost function Parts(a: Arch, i: Inputs): seq<Object>
    requires a.voidp > 0
  {
    Joined(a, Segments(i), 9)
  }

  lemma AllShownConcat(a: Arch, xs: seq<Object>, ys: seq<Object>)
    requires a.voidp > 0
    ensures AllShown(a, xs + ys) == AllShown(a, xs) + AllShown(a, ys)
  {
    hide Shown, AllShown;
  }

  lemma ShownEach(a: Arch, kind: nat, blobs: seq<seq<byte>>)
    requires a.voidp > 0
    ensures AllShown(a, Each(kind, blobs)) == Part(a, kind, blobs)
  {
    hide Shown, AllShown, Part, Each;
  }

  lemma ShownMaybe(a: Arch, kind: nat, blob: Option<seq<byte>>)
    requires a.voidp > 0
    ensures AllShown(a, Maybe(kind, blob)) == Part(a, kind, One(blob))
  {
    hide Shown;
  }

  lemma ShownFlag(a: Arch, kind: nat, on: bool)
    requires a.voidp > 0
    ensures AllShown(a, Flag(kind, on)) == Part(a, kind, if on then [[]] else [])
  {
    hide Shown;
  }

  // One more part behind those already shown.
  lemma ShownStep(a: Arch, i: Inputs, n: nat, xs: seq<Object>, ys: seq<Object>, kind: nat, blobs: seq<seq<byte>>)
    requires a.voidp > 0 && n < 9 && Segments(i)[n] == Segment(kind, blobs)
    requires AllShown(a, xs) == Joined(a, Segments(i), n) && AllShown(a, ys) == Part(a, kind, blobs)
    ensures AllShown(a, xs + ys) == Joined(a, Segments(i), n + 1)
  {
    hide Shown, AllShown, Part, Segments;
    AllShownConcat(a, xs, ys);
  }

  lemma ShownModulesAndKeys(a: Arch, i: Inputs) returns (xs: seq<Object>)
    requires a.voidp > 0
    ensures xs == Each(OBJ_TYPE_ELF, i.modules) + Each(OBJ_TYPE_GPG_PUBKEY, i.pubkeys) + Each(OBJ_TYPE_X509_PUBKEY, i.x509keys)
    ensures AllShown(a, xs) == Joined(a, Segments(i), 3)
  {
    assert AllShown(a, []) == Joined(a, Segments(i), 0) == [];
    hide Shown, AllShown, Part, Each, Joined;
    ShownEach(a, 0, i.modules);
    ShownEach(a, 4, i.pubkeys);
    ShownEach(a, 5, i.x509keys);
    var x1, x2, x3 := Each(0, i.modules), Each(4, i.pubkeys), Each(5, i.x509keys);
    assert [] + x1 == x1;
    ShownStep(a, i, 0, [], x1, 0, i.modules);
    ShownStep(a, i, 1, x1, x2, 4, i.pubkeys);
    ShownStep(a, i, 2, x1 + x2, x3, 5, i.x509keys);
    xs := x1 + x2 + x3;
  }

  lemma ShownFiles(a: Arch, i: Inputs, xs: seq<Object>)
    requires a.voidp > 0 && AllShown(a, xs) == Joined(a, Segments(i), 3)
    ensures AllShown(a, xs + Maybe(OBJ_TYPE_MEMDISK, i.memdisk) + Maybe(OBJ_TYPE_DTB, i.dtb)) == Joined(a, Segments(i), 5)
  {
    hide Shown, AllShown, Part, Maybe, Joined, One;
    ShownMaybe(a, 1, i.memdisk);
    ShownMaybe(a, 6, i.dtb);
    var x4, x5 := Maybe(1, i.memdisk), Maybe(6, i.dtb);
    ShownStep(a, i, 3, xs, x4, 1, One(i.memdisk));
    ShownStep(a, i, 4, xs + x4, x5, 6, One(i.dtb));
  }

  lemma ShownFlags(a: Arch, i: Inputs, xs: seq<Object>)
    requires a.voidp > 0 && AllShown(a, xs) == Joined(a, Segments(i), 5)
    ensures AllShown(a, xs + Flag(OBJ_TYPE_DISABLE_SHIM_LOCK, i.disableShimLock) + Flag(OBJ_TYPE_DISABLE_CLI, i.disableCli))
         == Joined(a, Segments(i), 7)
  {
    hide Shown, AllShown, Part, Flag, Joined;
    ShownFlag(a, 7, i.disableShimLock);
    ShownFlag(a, 8, i.disableCli);
    var x6, x7 := Flag(7, i.disableShimLock), Flag(8, i.disableCli);
    ShownStep(a, i, 5, xs, x6, 7, if i.disableShimLock then [[]] else []);
    ShownStep(a, i, 6, xs + x6, x7, 8, if i.disableCli then [[]] else []);
  }

  lemma ShownTexts(a: Arch, i: Inputs, xs: seq<Object>)
    requires a.voidp > 0 && AllShown(a, xs) == Joined(a, Segments(i), 7)
    ensures AllShown(a, xs + Maybe(OBJ_TYPE_CONFIG, i.config) + Maybe(OBJ_TYPE_PREFIX, i.prefix)) == Joined(a, Segments(i), 9)
  {
    hide Shown, AllShown, Part, Maybe, Joined, One;
    ShownMaybe(a, 2, i.config);
    ShownMaybe(a, 3, i.prefix);
    var x8, x9 := Maybe(2, i.config), Maybe(3, i.prefix);
    ShownStep(a, i, 7, xs, x8, 2, One(i.config));
    ShownStep(a, i, 8, xs + x8, x9, 3, One(i.prefix));
  }

  lemma ShownParts(a: Arch, i: Inputs)
    requires a.voidp > 0
    ensures AllShown(a, Objects(i)) == Parts(a, i)
  {
    hide Shown, AllShown, Part, Each, Maybe, Flag, One, Joined, Segments;
    var xs := ShownModulesAndKeys(a, i);
    ShownFiles(a, i, xs);
    var ys := xs + Maybe(OBJ_TYPE_MEMDISK, i.memdisk) + Maybe(OBJ_TYPE_DTB, i.dtb);
    ShownFlags(a, i, ys);
    ShownTexts(a, i, ys + Flag(OBJ_TYPE_DISABLE_SHIM_LOCK, i.disableShimLock) + Flag(OBJ_TYPE_DISABLE_CLI, i.disableCli));
  }

  // The contents that the walk shows for one blob.
  lemma ShownContents(a: Arch, kind: nat, b: seq<byte>)
    requires ValidArch(a) && kind <= 8
    ensures var c := Shown(a, Object(kind, b)).contents;
            && (kind == 4 || kind == 5 ==> c == b)
            && (kind == 0 || kind == 6 ==> IsPadded(a.voidp, b, c))
            && (kind == 1 ==> IsPadded(512, b, c))
            && (kind == 2 || kind == 3 ==> IsTerminated(a.voidp, b, c))
  {
    var o := Object(kind, b);
    assert o.contents + Zeros(0) == b;
  }

  // The objects of type k come from the part with that type.
  lemma {:induction false} TypeIsSegment(a: Arch, ss: seq<Segment>, n: nat, k: nat)
    requires a.voidp > 0 && n <= |ss| && forall x, y :: 0 <= x < y < |ss| ==> ss[x].kind != ss[y].kind
    ensures (forall m :: 0 <= m < n ==> ss[m].kind != k) ==> OfType(Joined(a, ss, n), k) == []
    ensures forall m :: 0 <= m < n && ss[m].kind == k ==> OfType(Joined(a, ss, n), k) == OfType(Part(a, k, ss[m].blobs), k)
    decreases n
  {
    hide Part, OfType;
    if n == 0 {
      NothingOfType(k);
    } else {
      var last := ss[n - 1];
      TypeIsSegment(a, ss, n - 1, k);
      OfTypeConcat(Joined(a, ss, n - 1), Part(a, last.kind, last.blobs), k);
      OfTypePart(a, last.kind, last.blobs, k);
    }
  }

  lemma NothingOfType(k: nat)
    ensures OfType([], k) == []
  {
  }

  ghost function Blobs(i: Inputs, k: nat): seq<seq<byte>> {
    match k
    case 0 => i.modules
    case 4 => i.pubkeys
    case 5 => i.x509keys
    case 1 => One(i.memdisk)
    case 6 => One(i.dtb)
    case 7 => if i.disableShimLock then [[]] else []
    case 8 => if i.disableCli then [[]] else []
    case 2 => One(i.config)
    case 3 => One(i.prefix)
    case _ => []
  }

  lemma TypeIsBlobs(a: Arch, i: Inputs, k: nat)
    requires a.voidp > 0 && k <= 8
    ensures |OfType(Parts(a, i), k)| == |Blobs(i, k)|
    ensures forall j :: 0 <= j < |Blobs(i, k)| ==> OfType(Parts(a, i), k)[j] == Shown(a, Object(k, Blobs(i, k)[j])).contents
  {
    hide Part, OfType, One, Shown, Joined;
    var ss := Segments(i);
    TypeIsSegment(a, ss, 9, k);
    var m := Rank(k);
    assert ss[m].kind == k && ss[m].blobs == Blobs(i, k);
    OfTypePart(a, k, Blobs(i, k), k);
  }

  lemma RanksMore(a: Arch, xs: seq<Object>, top: nat, kind: nat, blobs: seq<seq<byte>>)
    requires a.voidp > 0 && RanksAscend(xs, top) && top <= Rank(kind)
    ensures RanksAscend(xs + Part(a, kind, blobs), Rank(kind))
  {
    hide Part, Shown, Rank;
    var ys := Part(a, kind, blobs);
    forall j | 0 <= j < |ys| ensures ys[j].kind == kind { ShownKind(a, Object(kind, blobs[j])); }
  }

  lemma {:induction false} SegmentsAscend(a: Arch, i: Inputs, n: nat)
    requires a.voidp > 0 && n <= 9
    ensures RanksAscend(Joined(a, Segments(i), n), if n == 0 then 0 else n - 1)
    decreases n
  {
    hide Part, One, RanksAscend;
    if n == 0 {
      NoRanks();
    } else {
      SegmentsAscend(a, i, n - 1);
      var last := Segments(i)[n - 1];
      assert Rank(last.kind) == n - 1;
      RanksMore(a, Joined(a, Segments(i), n - 1), if n == 1 then 0 else n - 2, last.kind, last.blobs);
    }
  }

  lemma NoRanks()
    ensures RanksAscend([], 0)
  {
  }

  lemma PartsShowInputs(a: Arch, i: Inputs)
    requires ValidArch(a)
    ensures ShowsInputs(a, i, Parts(a, i))
  {
    SegmentsAscend(a, i, 9);
    hide Parts, OfType, IsPadded, IsTerminated, RanksAscend, AllPadded, One, TypeShown;
    TypeIsShown(a, i, 0);
    TypeIsShown(a, i, 1);
    TypeIsShown(a, i, 2);
    TypeIsShown(a, i, 3);
    TypeIsShown(a, i, 4);
    TypeIsShown(a, i, 5);
    TypeIsShown(a, i, 6);
    TypeIsShown(a, i, 7);
    TypeIsShown(a, i, 8);
    ModulesAndKeys(a, i);
    FilesAndFlags(a, i);
    Texts(a, i);
  }

  lemma TypeIsShown(a: Arch, i: Inputs, k: nat)
    requires ValidArch(a) && k <= 8
    ensures TypeShown(a, i, k)
  {
    hide Parts, OfType, Shown, IsPadded, IsTerminated, Blobs;
    TypeIsBlobs(a, i, k);
    forall j | 0 <= j < |Blobs(i, k)| ensures BlobShown(a, k, Blobs(i, k)[j], OfType(Parts(a, i), k)[j]) {
      ShownContents(a, k, Blobs(i, k)[j]);
    }
  }

  lemma ModulesAndKeys(a: Arch, i: Inputs)
    requires a.voidp > 0 && TypeShown(a, i, 0) && TypeShown(a, i, 4) && TypeShown(a, i, 5)
    ensures AllPadded(a.voidp, i.modules, OfType(Parts(a, i), 0))
    ensures OfType(Parts(a, i), 4) == i.pubkeys && OfType(Parts(a, i), 5) == i.x509keys
  {
    hide Parts, OfType, IsPadded, IsTerminated;
  }

  lemma FilesAndFlags(a: Arch, i: Inputs)
    requires a.voidp > 0 && TypeShown(a, i, 1) && TypeShown(a, i, 6) && TypeShown(a, i, 7) && TypeShown(a, i, 8)
    ensures AllPadded(512, One(i.memdisk), OfType(Parts(a, i), 1)) && AllPadded(a.voidp, One(i.dtb), OfType(Parts(a, i), 6))
    ensures |OfType(Parts(a, i), 7)| == (if i.disableShimLock then 1 else 0) && |OfType(Parts(a, i), 8)| == (if i.disableCli then 1 else 0)
  {
    hide Parts, OfType, IsPadded, IsTerminated, One;
  }

  lemma Texts(a: Arch, i: Inputs)
    requires a.voidp > 0 && TypeShown(a, i, 2) && TypeShown(a, i, 3)
    ensures |OfType(Parts(a, i), 2)| == |One(i.config)| && (i.config.Some? ==> IsTerminated(a.voidp, i.config.value, OfType(Parts(a, i), 2)[0]))
    ensures |OfType(Parts(a, i), 3)| == |One(i.prefix)| && (i.prefix.Some? ==> IsTerminated(a.voidp, i.prefix.value, OfType(Parts(a, i), 3)[0]))
  {
    hide Parts, OfType, IsPadded, IsTerminated;
  }

  ghost predicate BlobShown(a: Arch, k: nat, b: seq<byte>, c: seq<byte>)
    requires a.voidp > 0
  {
    && (k == 4 || k == 5 ==> c == b)
    && (k == 0 || k == 6 ==> IsPadded(a.voidp, b, c))
    && (k == 1 ==> IsPadded(512, b, c))
    && (k == 2 || k == 3 ==> IsTerminated(a.voidp, b, c))
  }

  ghost predicate TypeShown(a: Arch, i: Inputs, k: nat)
    requires a.voidp > 0
  {
    && |OfType(Parts(a, i), k)| == |Blobs(i, k)|
    && forall j :: 0 <= j < |Blobs(i, k)| ==> BlobShown(a, k, Blobs(i, k)[j], OfType(Parts(a, i), k)[j])
  }

  // Every file is less than 4 GiB with its header and padding.
  ghost predicate SmallInputs(i: Inputs) {
    && (forall j :: 0 <= j < |i.modules| ==> |i.modules[j]| < 0xffff_f000)
    && (forall j :: 0 <= j < |i.pubkeys| ==> |i.pubkeys[j]| < 0xffff_f000)
    && (forall j :: 0 <= j < |i.x509keys| ==> |i.x509keys[j]| < 0xffff_f000)
    && (i.memdisk.Some? ==> |i.memdisk.value| < 0xffff_f000)
    && (i.dtb.Some? ==> |i.dtb.value| < 0xffff_f000)
    && (i.config.Some? ==> |i.config.value| < 0xffff_f000)
    && (i.prefix.Some? ==> |i.prefix.value| < 0xffff_f000)
  }

  ghost predicate AllSmall(os: seq<Object>) {
    forall j :: 0 <= j < |os| ==> os[j].kind <= 8 && |os[j].contents| < 0xffff_f000
  }

  lemma BothSmall(xs: seq<Object>, ys: seq<Object>)
    requires AllSmall(xs) && AllSmall(ys)
    ensures AllSmall(xs + ys)
  {
  }

  lemma SmallIsEncodable(a: Arch, i: Inputs)
    requires ValidArch(a) && SmallInputs(i)
    ensures Encodable(a, Objects(i))
  {
    SmallPieces(i);
    hide SizeField, AllSmall, Each, Maybe, Flag;
    var x2 := Each(OBJ_TYPE_ELF, i.modules) + Each(OBJ_TYPE_GPG_PUBKEY, i.pubkeys);
    var x3 := x2 + Each(OBJ_TYPE_X509_PUBKEY, i.x509keys);
    var x4 := x3 + Maybe(OBJ_TYPE_MEMDISK, i.memdisk);
    var x5 := x4 + Maybe(OBJ_TYPE_DTB, i.dtb);
    var x6 := x5 + Flag(OBJ_TYPE_DISABLE_SHIM_LOCK, i.disableShimLock);
    var x7 := x6 + Flag(OBJ_TYPE_DISABLE_CLI, i.disableCli);
    var x8 := x7 + Maybe(OBJ_TYPE_CONFIG, i.config);
    BothSmall(Each(OBJ_TYPE_ELF, i.modules), Each(OBJ_TYPE_GPG_PUBKEY, i.pubkeys));
    BothSmall(x2, Each(OBJ_TYPE_X509_PUBKEY, i.x509keys));
    BothSmall(x3, Maybe(OBJ_TYPE_MEMDISK, i.memdisk));
    BothSmall(x4, Maybe(OBJ_TYPE_DTB, i.dtb));
    BothSmall(x5, Flag(OBJ_TYPE_DISABLE_SHIM_LOCK, i.disableShimLock));
    BothSmall(x6, Flag(OBJ_TYPE_DISABLE_CLI, i.disableCli));
    BothSmall(x7, Maybe(OBJ_TYPE_CONFIG, i.config));
    BothSmall(x8, Maybe(OBJ_TYPE_PREFIX, i.prefix));
    SmallObjects(a, Objects(i));
  }

  lemma SmallPieces(i: Inputs)
    requires SmallInputs(i)
    ensures AllSmall(Each(OBJ_TYPE_ELF, i.modules)) && AllSmall(Each(OBJ_TYPE_GPG_PUBKEY, i.pubkeys)) && AllSmall(Each(OBJ_TYPE_X509_PUBKEY, i.x509keys))
    ensures AllSmall(Maybe(OBJ_TYPE_MEMDISK, i.memdisk)) && AllSmall(Maybe(OBJ_TYPE_DTB, i.dtb))
    ensures AllSmall(Flag(OBJ_TYPE_DISABLE_SHIM_LOCK, i.disableShimLock)) && AllSmall(Flag(OBJ_TYPE_DISABLE_CLI, i.disableCli))
    ensures AllSmall(Maybe(OBJ_TYPE_CONFIG, i.config)) && AllSmall(Maybe(OBJ_TYPE_PREFIX, i.prefix))
  {
    hide Each;
  }

  lemma SmallObjects(a: Arch, os: seq<Object>)
    requires ValidArch(a) && AllSmall(os)
    ensures Encodable(a, os)
  {
    hide SizeField;
    forall j | 0 <= j < |os| ensures SizeField(a, os[j]) < TWO32 { SmallSize(a, os[j]); }
  }

  lemma SmallSize(a: Arch, o: Object)
    requires ValidArch(a) && |o.contents| < 0xffff_f000
    ensures SizeField(a, o) < TWO32
  {
  }

  // Main result.  The kernel's walk over the written area shows each input under its own
  // type, exactly once, in order and with its bytes, and nothing else.
  lemma WalkShowsInputs(a: Arch, i: Inputs)
    requires ValidArch(a) && SmallInputs(i) && |AreaBytes(a, i)| < Pow256(a.voidp)
    ensures WalkArea(a, AreaBytes(a, i)).Some? && ShowsInputs(a, i, WalkArea(a, AreaBytes(a, i)).value)
  {
    hide WalkArea, AreaBytes, Pow256, Parts, Objects, AllShown, Encodable, Slots;
    SmallIsEncodable(a, i);
    WalkVisitsAll(a, i);
    ShownParts(a, i);
    PartsShowInputs(a, i);
  }
}
