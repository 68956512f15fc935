/** ARM branches: `arm_get_trampoline_size` and the EM_ARM case of `relocate_addrs`
    in grub/util/grub-mkimagexx.c, with the branch encodings of
    grub/grub-core/kern/arm/dl_helper.c.

    A branch that changes between ARM and Thumb state goes through a trampoline.
    The room for trampolines is counted before symbols are relocated; the
    trampolines are written afterwards. */
module ArmTrampolines {
  import Align
  import opened Bytes
  import opened Elf
  import opened Options
  import opened SectionLayout
  import opened Relocation

  const R_ARM_ABS32 := 2
  const R_ARM_THM_CALL := 10
  const R_ARM_CALL := 28
  const R_ARM_JUMP24 := 29
  const R_ARM_THM_JUMP24 := 30
  const R_ARM_V4BX := 40
  const R_ARM_THM_JUMP19 := 51

  predicate IsThumbBranch(r: Reloc) {
    r.kind == R_ARM_THM_CALL || r.kind == R_ARM_THM_JUMP24 || r.kind == R_ARM_THM_JUMP19
  }

  predicate IsArmBranch(r: Reloc) {
    r.kind == R_ARM_CALL || r.kind == R_ARM_JUMP24
  }

  predicate IsKnown(r: Reloc) {
    IsThumbBranch(r) || IsArmBranch(r) || r.kind == R_ARM_ABS32 || r.kind == R_ARM_V4BX
  }

  const THUMB_TRAMPOLINE: nat := 8
  const ARM_TRAMPOLINE: nat := 16

  /* ---- the two passes ---- */

  ghost predicate ValidArm(t: Target, k: Kernel) {
    && t.machine == EmArm
    && |k.sections| == |k.addrs|
    && (forall i :: 0 <= i < |k.relocs| ==> k.relocs[i].target < |k.sections| && k.relocs[i].symbol < |k.symbols|)
    && (forall i :: 0 <= i < |k.symbols| ==> SymbolAddress(t, k, k.symbols[i]).Some?)
  }

  // Bytes counted for one relocation, from the symbol value in the file.
  function Counted(k: Kernel, r: Reloc): nat
    requires r.symbol < |k.symbols|
  {
    var odd := (k.symbols[r.symbol].value + r.addend) % 2 == 1;
    if IsThumbBranch(r) && !odd then THUMB_TRAMPOLINE
    else if IsArmBranch(r) && odd then ARM_TRAMPOLINE
    else 0
  }

  // The branch target as an offset in the image.
  function BranchTarget(t: Target, k: Kernel, r: Reloc): int
    requires r.symbol < |k.symbols| && SymbolAddress(t, k, k.symbols[r.symbol]).Some?
  {
    var s := SymbolAddress(t, k, k.symbols[r.symbol]).value + r.addend - t.vaddrOffset;
    if IsThumbBranch(r) && !k.symbols[r.symbol].func && s % 2 == 0 then s + 1 else s
  }

  // Bytes written for one relocation, from the relocated symbol.
  function Consumed(t: Target, k: Kernel, r: Reloc): nat
    requires r.symbol < |k.symbols| && SymbolAddress(t, k, k.symbols[r.symbol]).Some?
  {
    if !Applied(t, k, r) then 0
    else if IsThumbBranch(r) && BranchTarget(t, k, r) % 2 == 0 then THUMB_TRAMPOLINE
    else if IsArmBranch(r) && BranchTarget(t, k, r) % 2 == 1 then ARM_TRAMPOLINE
    else 0
  }

  ghost function TotalCounted(t: Target, k: Kernel, n: nat): nat
    requires ValidArm(t, k) && n <= |k.relocs|
  {
    if n == 0 then 0 else TotalCounted(t, k, n - 1) + Counted(k, k.relocs[n - 1])
  }

  ghost function TotalConsumed(t: Target, k: Kernel, n: nat): nat
    requires ValidArm(t, k) && n <= |k.relocs|
  {
    if n == 0 then 0 else TotalConsumed(t, k, n - 1) + Consumed(t, k, k.relocs[n - 1])
  }

  // The symbol moves by an even amount: its section lies at an even address, or it
  // does not move and the image starts at an even address.
  ghost predicate MovesEvenly(t: Target, k: Kernel, s: Symbol) {
    match s.home
    case InSection(i) => i < |k.addrs| && k.addrs[i] % 2 == 0
    case Absolute => t.vaddrOffset % 2 == 0
    case Undefined => s.name == "" && t.vaddrOffset % 2 == 0
  }

  lemma EvenPart(r: int, k: int)
    ensures (2 * k + r) % 2 == r % 2
  {
  }

  // Adding an even amount in 32 bits changes a number by an even amount.
  lemma EvenMove(v: nat, a: nat, off: nat)
    requires a % 2 == 0
    ensures ((v + (a + off)) % 0x1_0000_0000 - off - v) % 2 == 0
  {
    var x := v + (a + off);
    var k := 0x8000_0000 * (x / 0x1_0000_0000);
    assert x == 2 * k + x % 0x1_0000_0000;
    EvenPart(a, -k);
  }

  // Relocating keeps the bit that marks Thumb code.
  lemma ParityIsKept(t: Target, k: Kernel, s: Symbol)
    requires t.machine == EmArm && SymbolAddress(t, k, s).Some? && MovesEvenly(t, k, s)
    ensures (SymbolAddress(t, k, s).value - t.vaddrOffset - s.value) % 2 == 0
  {
    match s.home
    case InSection(i) =>
      EvenMove(s.value, k.addrs[i], t.vaddrOffset);
    case _ =>
      EvenPart(t.vaddrOffset, 0 - t.vaddrOffset);
  }

  lemma ConsumedWithinCounted(t: Target, k: Kernel, r: Reloc)
    requires t.machine == EmArm && r.symbol < |k.symbols| && SymbolAddress(t, k, k.symbols[r.symbol]).Some?
    requires (IsThumbBranch(r) || IsArmBranch(r)) && Applied(t, k, r) ==> MovesEvenly(t, k, k.symbols[r.symbol])
    ensures Consumed(t, k, r) <= Counted(k, r)
  {
    if (IsThumbBranch(r) || IsArmBranch(r)) && Applied(t, k, r) {
      ParityIsKept(t, k, k.symbols[r.symbol]);
    }
  }

  // The two passes relocation by relocation, by type number: a Thumb branch (10, 30, 51) to
  // ARM code takes 8 bytes and an ARM branch (28, 29) to Thumb code 16.  Only Thumb branches to
  // ARM code that is not a function are counted and not used.
  lemma TrampolinePerBranch(t: Target, k: Kernel, r: Reloc)
    requires t.machine == EmArm && r.symbol < |k.symbols| && SymbolAddress(t, k, k.symbols[r.symbol]).Some?
    requires Applied(t, k, r) && MovesEvenly(t, k, k.symbols[r.symbol])
    ensures var odd := (k.symbols[r.symbol].value + r.addend) % 2 == 1;
            && (r.kind == 10 || r.kind == 30 || r.kind == 51 ==>
                  Counted(k, r) == (if odd then 0 else 8) && Consumed(t, k, r) == if odd || !k.symbols[r.symbol].func then 0 else 8)
            && (r.kind == 28 || r.kind == 29 ==> Counted(k, r) == Consumed(t, k, r) == if odd then 16 else 0)
            && (r.kind !in {10, 28, 29, 30, 51} ==> Counted(k, r) == Consumed(t, k, r) == 0)
  {
    ParityIsKept(t, k, k.symbols[r.symbol]);
    hide SymbolAddress, Applied, MovesEvenly;
    SameParity(SymbolAddress(t, k, k.symbols[r.symbol]).value - t.vaddrOffset, k.symbols[r.symbol].value, r.addend);
  }

  lemma SameParity(x: int, y: int, addend: int)
    requires (x - y) % 2 == 0
    ensures (x + addend) % 2 == (y + addend) % 2
  {
    var h := (x - y) / 2;
    assert x + addend == 2 * h + (y + addend);
    EvenPart(y + addend, h);
  }

  ghost predicate BranchesMoveEvenly(t: Target, k: Kernel)
    requires ValidArm(t, k)
  {
    forall i :: 0 <= i < |k.relocs| && (IsThumbBranch(k.relocs[i]) || IsArmBranch(k.relocs[i])) && Applied(t, k, k.relocs[i])
      ==> MovesEvenly(t, k, k.symbols[k.relocs[i].symbol])
  }

  // The bound of the two passes, at every point of the second one.
  lemma {:induction false} TrampolinesFit(t: Target, k: Kernel, n: nat, m: nat)
    requires ValidArm(t, k) && BranchesMoveEvenly(t, k) && n <= m <= |k.relocs|
    ensures TotalConsumed(t, k, n) <= TotalCounted(t, k, n) <= TotalCounted(t, k, m)
    decreases m
  {
    hide Counted, Consumed, Applied, MovesEvenly, SymbolAddress;
    if n < m {
      TrampolinesFit(t, k, n, m - 1);
    } else if n > 0 {
      TrampolinesFit(t, k, n - 1, n - 1);
      ConsumedWithinCounted(t, k, k.relocs[n - 1]);
    }
  }

  // Conversely, a symbol that moves by an odd amount breaks the bound: some branch
  // to it consumes a trampoline nobody counted.
  lemma OddMoveOverruns(t: Target, k: Kernel, r: Reloc)
    requires t.machine == EmArm && r.symbol < |k.symbols| && SymbolAddress(t, k, k.symbols[r.symbol]).Some?
    requires Applied(t, k, r) && r.kind == R_ARM_CALL
    requires (SymbolAddress(t, k, k.symbols[r.symbol]).value - t.vaddrOffset - k.symbols[r.symbol].value) % 2 == 1
    ensures exists addend: nat :: Counted(k, r.(addend := addend)) < Consumed(t, k, r.(addend := addend))
  {
    var s := k.symbols[r.symbol];
    var addend := s.value % 2;
    assert Counted(k, r.(addend := addend)) == 0;
    assert BranchTarget(t, k, r.(addend := addend)) % 2 == 1;
    assert Consumed(t, k, r.(addend := addend)) == ARM_TRAMPOLINE;
  }

  // arm_get_trampoline_size
  method GetTrampolineSize(t: Target, k: Kernel) returns (ok: bool, size: nat)
    requires ValidArm(t, k)
    ensures ok <==> forall i :: 0 <= i < |k.relocs| ==> IsKnown(k.relocs[i])
    ensures ok ==> size == TotalCounted(t, k, |k.relocs|)
  {
    size := 0;
    for j := 0 to |k.relocs|
      invariant size == TotalCounted(t, k, j)
      invariant forall i :: 0 <= i < j ==> IsKnown(k.relocs[i])
    {
      var r := k.relocs[j];
      var symAddr := k.symbols[r.symbol].value + r.addend;
      if r.kind == R_ARM_ABS32 || r.kind == R_ARM_V4BX {
      } else if IsThumbBranch(r) {
        if symAddr % 2 == 0 {
          size := size + THUMB_TRAMPOLINE;
        }
      } else if IsArmBranch(r) {
        if symAddr % 2 == 1 {
          size := size + ARM_TRAMPOLINE;
        }
      } else {
        return false, size;
      }
    }
    ok := true;
  }

  /* ---- where the trampolines lie ---- */

  // Address of the trampoline for relocation `n`: `tr` has advanced by what the
  // relocations before it consumed.
  ghost function TrampolineAt(t: Target, k: Kernel, n: nat): nat
    requires ValidArm(t, k) && n <= |k.relocs|
  {
    k.layout.trampOff + TotalConsumed(t, k, n)
  }

  // With the layout computed by placement for the counted size, every trampoline lies
  // between text and data, word-aligned, before the next one; and copying the
  // sections out afterwards leaves its bytes alone.
  lemma TrampolinesSurvive(t: Target, k: Kernel, n: nat, img: seq<byte>, p: nat)
    requires IsRelocatable(t) && t.sectionAlign > 0 && ValidArm(t, k) && BranchesMoveEvenly(t, k)
    requires Placed(t, k.sections, TotalCounted(t, k, |k.relocs|), k.addrs, k.layout)
    requires Fits(t, k.sections, k.addrs, |img|)
    requires n < |k.relocs|
    requires TrampolineAt(t, k, n) <= p < TrampolineAt(t, k, n) + Consumed(t, k, k.relocs[n]) && p < |img|
    ensures TrampolineAt(t, k, n) % 4 == 0
    ensures TrampolineAt(t, k, n) + Consumed(t, k, k.relocs[n]) == TrampolineAt(t, k, n + 1) <= k.layout.execSize
    ensures CopyIn(t, k.sections, k.addrs, IndexOrder(|k.sections|), img)[p] == img[p]
  {
    hide PlacedIn, Consumed, Counted, CopyIn, Applied, SymbolAddress, MovesEvenly, Fits;
    TrampolinesFit(t, k, n + 1, |k.relocs|);
    TrampolineAligned(t, k, n);
    var order := IndexOrder(|k.sections|);
    forall i | 0 <= i < |k.sections| ensures i in order {
      assert order[i] == i;
    }
    CopyAnyOrder(t, k.sections, TotalCounted(t, k, |k.relocs|), k.addrs, k.layout, order, img);
  }

  lemma {:induction false} TrampolineAligned(t: Target, k: Kernel, n: nat)
    requires ValidArm(t, k) && n <= |k.relocs| && k.layout.trampOff % 16 == 0
    ensures TrampolineAt(t, k, n) % 4 == 0
    decreases n
  {
    if n > 0 {
      TrampolineAligned(t, k, n - 1);
      hide Applied, BranchTarget, SymbolAddress;
      FourMore(TrampolineAt(t, k, n - 1), Consumed(t, k, k.relocs[n - 1]));
    } else {
      SixteenIsFour(k.layout.trampOff);
    }
  }

  lemma FourMore(x: nat, c: nat)
    requires x % 4 == 0 && (c == 0 || c == THUMB_TRAMPOLINE || c == ARM_TRAMPOLINE)
    ensures (x + c) % 4 == 0
  {
  }

  lemma SixteenIsFour(x: nat)
    requires x % 16 == 0
    ensures x % 4 == 0
  {
    Align.DivMod(x, 16);
    Align.MultipleHasNoRemainder(x / 16 * 4, 4);
    assert x / 16 * 4 * 4 == x;
  }

  /* ---- where branches land ---- */

  const TWO32: nat := 0x1_0000_0000

  // grub_arm_jump24_get_offset, _check_offset and _set_offset.
  function Jump24Get(w: nat): int {
    var x := w % 0x100_0000 * 4;
    if x >= 0x200_0000 then x - 0x400_0000 else x
  }

  predicate Jump24Check(off: int) {
    -0x200_0000 <= off < 0x200_0000
  }

  function Jump24Set(w: nat, off: int): nat {
    w / 0x100_0000 * 0x100_0000 + off / 4 % 0x100_0000
  }

  lemma Jump24RoundTrip(w: nat, off: int)
    requires Jump24Check(off)
    ensures Jump24Get(Jump24Set(w, off)) == off - off % 4
    ensures Jump24Set(w, off) / 0x100_0000 == w / 0x100_0000
  {
    var q := off / 4 % 0x100_0000;
    assert (w / 0x100_0000 * 0x100_0000 + q) % 0x100_0000 == q;
  }

  // An ARM-state branch at `p` goes to p + 8 + offset; a Thumb one to p + 4 + offset.
  function ArmDestination(p: nat, w: nat): int {
    p + 8 + Jump24Get(w)
  }

  // ldr ip, [pc, #4]; add ip, ip, pc; bx ip; .word v -- run at `tr` in ARM state.
  // The load reads the fourth word and the add sees pc == tr + 12.
  datatype ArmTrampoline = ArmTrampoline(ldr: nat, add: nat, bx: nat, literal: nat)

  predicate ArmTrampolineRuns(c: ArmTrampoline) {
    c.ldr == 0xe59fc004 && c.add == 0xe08cc00f && c.bx == 0xe12fff1c
  }

  function ArmTrampolineDestination(c: ArmTrampoline, tr: nat): nat {
    (c.literal + tr + 12) % TWO32
  }

  // bx pc; nop; b off -- entered at `tr` in Thumb state, continues at tr + 4 in ARM.
  datatype ThumbTrampoline = ThumbTrampoline(bxPc: nat, branch: nat)

  predicate ThumbTrampolineRuns(c: ThumbTrampoline) {
    c.bxPc == 0x46c04778 && c.branch / 0x100_0000 == 0xea
  }

  function ThumbTrampolineDestination(c: ThumbTrampoline, tr: nat): int {
    ArmDestination(tr + 4, c.branch)
  }

  // What the EM_ARM case computes for one branch: `s` is the branch target in the
  // image, `sec` the address of the patched section, `off` the place in it, `tr` the
  // next trampoline.
  function NewOffset(s: int, tr: nat, sec: nat): int {
    s - (tr - sec) - 12
  }

  function MakeArmTrampoline(s: int, tr: nat, sec: nat): ArmTrampoline {
    var v := NewOffset(s, tr, sec);
    ArmTrampoline(0xe59fc004, 0xe08cc00f, 0xe12fff1c, (if v % 2 == 0 then v + 1 else v) % TWO32)
  }

  function MakeThumbTrampoline(s: int, tr: nat, sec: nat): Option<ThumbTrampoline> {
    var v := NewOffset(s, tr, sec);
    if !Jump24Check(v) then None else Some(ThumbTrampoline(0x46c04778, v / 4 % 0x100_0000 + 0xea00_0000))
  }

  // R_ARM_CALL and R_ARM_JUMP24; None where the source stops.
  function PatchArm(w: nat, s: int, off: nat, sec: nat, tr: nat): Option<nat> {
    var target := if s % 2 == 1 then tr - sec else s;
    var o := Jump24Get(w) + (target - off);
    if (target - off) % 2 == 1 || !Jump24Check(o) then None else Some(Jump24Set(w, o))
  }

  lemma ArmTrampolineLands(s: int, tr: nat, sec: nat)
    requires s % 2 == 1 && tr % 4 == 0 && sec % 2 == 0
    ensures ArmTrampolineRuns(MakeArmTrampoline(s, tr, sec))
    ensures ArmTrampolineDestination(MakeArmTrampoline(s, tr, sec), tr) == (s + sec) % TWO32
  {
    OddOffset(s, tr, sec);
    WrapLater(NewOffset(s, tr, sec), tr + 12);
  }

  lemma OddOffset(s: int, tr: nat, sec: nat)
    requires s % 2 == 1 && tr % 4 == 0 && sec % 2 == 0
    ensures NewOffset(s, tr, sec) % 2 == 1
  {
    var a, b, c := s / 2, tr / 4, sec / 2;
    assert s == 2 * a + 1 && tr == 4 * b && sec == 2 * c;
    assert NewOffset(s, tr, sec) == 2 * (a - 2 * b + c - 6) + 1;
    EvenPart(1, a - 2 * b + c - 6);
  }

  lemma WrapLater(v: int, t: int)
    ensures (v % TWO32 + t) % TWO32 == (v + t) % TWO32
  {
    var q := v / TWO32;
    assert v + t == q * TWO32 + (v % TWO32 + t);
  }

  lemma ThumbTrampolineLands(s: int, tr: nat, sec: nat)
    requires MakeThumbTrampoline(s, tr, sec).Some? && s % 4 == 0 && tr % 4 == 0 && sec % 4 == 0
    ensures ThumbTrampolineRuns(MakeThumbTrampoline(s, tr, sec).value)
    ensures ThumbTrampolineDestination(MakeThumbTrampoline(s, tr, sec).value, tr) == s + sec
  {
    var v := NewOffset(s, tr, sec);
    Jump24RoundTrip(0xea00_0000, v);
  }

  // Where an ARM branch finally goes: through the trampoline if it was made.
  function ArmLanding(w: nat, s: int, off: nat, sec: nat, tr: nat): Option<int> {
    match PatchArm(w, s, off, sec, tr)
    case None => None
    case Some(w') =>
      if s % 2 == 0 then Some(ArmDestination(sec + off, w'))
      else if ArmDestination(sec + off, w') == tr then Some(ArmTrampolineDestination(MakeArmTrampoline(s, tr, sec), tr))
      else None
  }

  // For every displacement g already in the instruction word: a direct branch lands `sec`
  // bytes and g + 8 past its symbol, and a branch that needs a trampoline hits it exactly
  // when g is -8, and then lands `sec` bytes past the symbol too.  The direct displacement
  // does not subtract the address of the patched section, and the trampoline's adds it; so
  // with the usual g branches are right in the section placed at address zero and in no
  // other.
  lemma ArmBranchLands(w: nat, s: nat, off: nat, sec: nat, tr: nat)
    requires PatchArm(w, s, off, sec, tr).Some?
    requires off % 4 == 0 && sec % 4 == 0 && tr % 4 == 0 && (s % 2 == 1 || s % 4 == 0)
    requires s + sec < TWO32
    ensures var g := Jump24Get(w);
            && (s % 2 == 0 ==> ArmLanding(w, s, off, sec, tr) == Some(s + sec + (g + 8)))
            && (s % 2 == 1 ==> ArmLanding(w, s, off, sec, tr) == if g == -8 then Some(s + sec) else None)
            && (g == -8 ==> (ArmLanding(w, s, off, sec, tr) == Some(s) <==> sec == 0))
  {
    if s % 2 == 1 {
      BranchViaTrampoline(w, s, off, sec, tr);
    } else {
      BranchDirectly(w, s, off, sec, tr);
    }
  }

  // For example, the usual branch and link at the start of a section placed at 0x40, to a
  // symbol at 0x100.
  lemma ArmBranchMisses()
    ensures PatchArm(0xebff_fffe, 0x100, 0, 0x40, 0).Some? && ArmLanding(0xebff_fffe, 0x100, 0, 0x40, 0) == Some(0x140)
  {
    assert Jump24Get(0xebff_fffe) == -8;
    hide ArmLanding, Jump24Get;
    ArmBranchLands(0xebff_fffe, 0x100, 0, 0x40, 0);
  }

  lemma BranchDirectly(w: nat, s: nat, off: nat, sec: nat, tr: nat)
    requires PatchArm(w, s, off, sec, tr).Some?
    requires off % 4 == 0 && s % 4 == 0 && s % 2 == 0
    ensures ArmLanding(w, s, off, sec, tr) == Some(s + sec + (Jump24Get(w) + 8))
  {
    WordOffset(w);
    hide Jump24Get, Jump24Set, Jump24Check, MakeArmTrampoline, ArmTrampolineDestination;
    SumsOfFours(s, 0, off);
    SumsOfFours(s - off, -Jump24Get(w), 0);
    Jump24RoundTrip(w, Jump24Get(w) + (s - off));
  }

  lemma BranchViaTrampoline(w: nat, s: nat, off: nat, sec: nat, tr: nat)
    requires PatchArm(w, s, off, sec, tr).Some?
    requires off % 4 == 0 && sec % 4 == 0 && tr % 4 == 0 && s % 2 == 1 && s + sec < TWO32
    ensures ArmLanding(w, s, off, sec, tr) == if Jump24Get(w) == -8 then Some(s + sec) else None
  {
    WordOffset(w);
    hide Jump24Get, Jump24Set, Jump24Check, MakeArmTrampoline, ArmTrampolineDestination;
    SumsOfFours(tr, sec, off);
    SumsOfFours(tr - sec - off, -Jump24Get(w), 0);
    FourIsEven(sec);
    Jump24RoundTrip(w, Jump24Get(w) + (tr - sec - off));
    ArmTrampolineLands(s, tr, sec);
    NoWrap(s + sec);
  }

  lemma WordOffset(w: nat)
    ensures Jump24Get(w) % 4 == 0 && -Jump24Get(w) % 4 == 0
  {
    var q := w % 0x100_0000;
    assert Jump24Get(w) == 4 * (if q * 4 >= 0x200_0000 then q - 0x100_0000 else q);
  }

  lemma FourIsEven(x: int)
    requires x % 4 == 0
    ensures x % 2 == 0
  {
    assert x == 2 * (2 * (x / 4));
  }

  lemma SumsOfFours(a: int, b: int, c: int)
    requires a % 4 == 0 && b % 4 == 0 && c % 4 == 0
    ensures (a - b - c) % 4 == 0
  {
  }

  lemma NoWrap(x: nat)
    requires x < TWO32
    ensures x % TWO32 == x
  {
  }

  /* ---- Thumb branches ---- */

  // The 32-bit BL/BLX/B.W word, first halfword on top: sign at 26, imm10 at 16, J1 at
  // 13, J2 at 11, imm11 at 0; `top`, `mid` and `link` are the bits kept by 0xf800d000.
  datatype ThmWord = ThmWord(top: nat, sign: nat, imm10: nat, mid: nat, j1: nat, link: nat, j2: nat, imm11: nat)

  ghost predicate ValidThm(f: ThmWord) {
    f.sign < 2 && f.imm10 < 0x400 && f.j1 < 2 && f.link < 2 && f.j2 < 2 && f.imm11 < 0x800
  }

  function Xor(a: nat, b: nat): nat {
    if a == b then 0 else 1
  }

  // grub_arm_thm_call_get_offset
  function ThmGet(f: ThmWord): int {
    f.sign * 0x100_0000 + (1 - Xor(f.j1, f.sign)) * 0x80_0000 + (1 - Xor(f.j2, f.sign)) * 0x40_0000
    + f.imm10 * 0x1000 + f.imm11 * 2 - f.sign * 0x200_0000
  }

  // grub_arm_thm_call_set_offset; None is "bl/b.w targettting ARM".
  function ThmSet(f: ThmWord, off: int): Option<ThmWord> {
    var isBlx := f.mid == 3 && f.link == 0;
    if !isBlx && off % 2 == 0 then None
    else
      var sign := off / 0x100_0000 % 2;
      Some(ThmWord(f.top, sign, off / 0x1000 % 0x400, f.mid,
                   Xor(sign, 1 - off / 0x80_0000 % 2), if isBlx && off % 2 == 1 then 1 else f.link,
                   Xor(sign, 1 - off / 0x40_0000 % 2), off / 2 % 0x800))
  }

  predicate ThmCheck(off: int) {
    -0x20_0000 <= off < 0x20_0000
  }

  lemma LowPart(off: int)
    ensures off % 0x1000 == off / 2 % 0x800 * 2 + off % 2
  {
    var q, r := off / 0x1000, off % 0x1000;
    assert off == 2 * (0x800 * q) + r;
    assert off / 2 == 0x800 * q + r / 2;
  }

  lemma HighPart(off: int)
    requires ThmCheck(off)
    ensures off / 0x1000 % 0x400 == off / 0x1000 + if off < 0 then 0x400 else 0
  {
  }

  lemma SignPart(off: int)
    requires ThmCheck(off)
    ensures off / 0x100_0000 % 2 == off / 0x80_0000 % 2 == off / 0x40_0000 % 2 == if off < 0 then 1 else 0
  {
  }

  lemma ThmBits(off: int)
    requires ThmCheck(off)
    ensures off - off % 2 == off / 0x1000 % 0x400 * 0x1000 + off / 2 % 0x800 * 2 + (if off < 0 then -0x40_0000 else 0)
    ensures off / 0x100_0000 % 2 == off / 0x80_0000 % 2 == off / 0x40_0000 % 2 == if off < 0 then 1 else 0
  {
    LowPart(off);
    HighPart(off);
    SignPart(off);
  }

  // The offset survives except for its lowest bit, which is the state bit.
  lemma ThmRoundTrip(f: ThmWord, off: int)
    requires ValidThm(f) && ThmCheck(off) && ThmSet(f, off).Some?
    ensures ValidThm(ThmSet(f, off).value)
    ensures ThmGet(ThmSet(f, off).value) == off - off % 2
    ensures ThmSet(f, off).value.top == f.top && ThmSet(f, off).value.mid == f.mid
  {
    ThmBits(off);
  }

  // R_ARM_THM_CALL and R_ARM_THM_JUMP24; None where the source stops.
  function PatchThumb(f: ThmWord, s: int, off: nat, sec: nat, tr: nat): Option<ThmWord> {
    if s % 2 == 0 && MakeThumbTrampoline(s, tr, sec).None? then None
    else
      var target := if s % 2 == 0 then OddUp(tr - sec) else s;
      var o := ThmGet(f) + (target - off);
      if !ThmCheck(o) then None else ThmSet(f, o)
  }

  function OddUp(x: int): int {
    if x % 2 == 0 then x + 1 else x
  }

  function ThumbLanding(f: ThmWord, s: int, off: nat, sec: nat, tr: nat): Option<int> {
    match PatchThumb(f, s, off, sec, tr)
    case None => None
    case Some(f') =>
      var dest := sec + off + 4 + ThmGet(f');
      if s % 2 == 1 then Some(dest + 1)
      else if dest == tr then Some(ThumbTrampolineDestination(MakeThumbTrampoline(s, tr, sec).value, tr))
      else None
  }

  // The same for Thumb, with -4 as the usual displacement: odd targets directly, even (ARM)
  // targets through a trampoline.
  lemma ThumbBranchLands(f: ThmWord, s: nat, off: nat, sec: nat, tr: nat)
    requires ValidThm(f) && PatchThumb(f, s, off, sec, tr).Some?
    requires off % 2 == 0 && sec % 4 == 0 && tr % 4 == 0 && (s % 2 == 1 || s % 4 == 0)
    ensures var g := ThmGet(f);
            && (s % 2 == 1 ==> ThumbLanding(f, s, off, sec, tr) == Some(s + sec + (g + 4)))
            && (s % 2 == 0 ==> ThumbLanding(f, s, off, sec, tr) == if g == -4 then Some(s + sec) else None)
            && (g == -4 ==> (ThumbLanding(f, s, off, sec, tr) == Some(s) <==> sec == 0))
  {
    EvenOffset(f);
    hide ThmGet, ThmSet, ThumbTrampolineDestination, MakeThumbTrampoline;
    if s % 2 == 0 {
      Evens(tr, sec, off, ThmGet(f));
      ThmRoundTrip(f, ThmGet(f) + (OddUp(tr - sec) - off));
      ThumbTrampolineLands(s, tr, sec);
    } else {
      Odds(s, off, ThmGet(f));
      ThmRoundTrip(f, ThmGet(f) + (s - off));
    }
  }

  lemma EvenOffset(f: ThmWord)
    ensures ThmGet(f) % 2 == 0
  {
    var h := f.sign * 0x80_0000 + (1 - Xor(f.j1, f.sign)) * 0x40_0000 + (1 - Xor(f.j2, f.sign)) * 0x20_0000
             + f.imm10 * 0x800 + f.imm11 - f.sign * 0x100_0000;
    assert ThmGet(f) == 2 * h;
  }

  lemma Evens(tr: int, sec: int, off: int, g: int)
    requires tr % 4 == 0 && sec % 4 == 0 && off % 2 == 0 && g % 2 == 0
    ensures OddUp(tr - sec) == tr - sec + 1
    ensures (g + (tr - sec + 1 - off)) % 2 == 1
  {
    hide OddUp;
    EvenRaised(tr / 4, sec / 4);
    Odds(tr - sec + 1, off, g);
  }

  lemma EvenRaised(a: int, b: int)
    ensures OddUp(4 * a - 4 * b) == 4 * a - 4 * b + 1
    ensures (4 * a - 4 * b + 1) % 2 == 1
  {
    assert 4 * a - 4 * b == 2 * (2 * a - 2 * b);
  }

  lemma Odds(s: int, off: int, g: int)
    requires s % 2 == 1 && off % 2 == 0 && g % 2 == 0
    ensures (g + (s - off)) % 2 == 1
  {
    var a, c, d := s / 2, off / 2, g / 2;
    assert s == 2 * a + 1 && off == 2 * c && g == 2 * d;
    assert g + (s - off) == 2 * (d + a - c) + 1;
  }
}
