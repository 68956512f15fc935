/** RISC-V relocations: the EM_RISCV cases of `relocate_addrs` in
    grub/util/grub-mkimagexx.c.  The patches scatter the bits of an offset over an
    instruction word.  The decoders follow the immediate formats of the RISC-V
    User-Level ISA v2.2, sections 2.3, 2.5 and 12.4.  Offsets are 64-bit two's
    complement words. */
module RiscvImmediates {

  // Sign extension of `x` from the bit `top`, the highest it may have set; `ones` is
  // that bit and all above it.
  function SignExtend(x: bv64, top: bv64, ones: bv64): bv64 {
    if x & top == 0 then x else x | ones
  }

  /* ---- branches and jumps ---- */

  function BranchField(off: bv64): bv32 {
    var imm12 := ((off & 0x1000) << 19) as bv32;
    var imm11 := ((off & 0x800) >> 4) as bv32;
    var imm10_5 := ((off & 0x7e0) << 20) as bv32;
    var imm4_1 := ((off & 0x1e) << 7) as bv32;
    imm12 | imm11 | imm10_5 | imm4_1
  }

  function PatchBranch(insn: bv32, off: bv64): bv32 {
    (insn & 0x1fff07f) | BranchField(off)
  }

  function JalField(off: bv64): bv32 {
    var imm20 := ((off & 0x100000) << 11) as bv32;
    var imm19_12 := (off & 0xff000) as bv32;
    var imm11 := ((off & 0x800) << 9) as bv32;
    var imm10_1 := ((off & 0x7fe) << 20) as bv32;
    imm20 | imm19_12 | imm11 | imm10_1
  }

  function PatchJal(insn: bv32, off: bv64): bv32 {
    (insn & 0xfff) | JalField(off)
  }

  function PatchRvcBranch(insn: bv16, off: bv64): bv16 {
    var imm8 := ((off & 0x100) << 4) as bv16;
    var imm7_6 := ((off & 0xc0) >> 1) as bv16;
    var imm5 := ((off & 0x20) >> 3) as bv16;
    var imm4_3 := ((off & 0x18) << 7) as bv16;
    var imm2_1 := ((off & 0x6) << 2) as bv16;
    (insn & 0xe383) | imm8 | imm7_6 | imm5 | imm4_3 | imm2_1
  }

  function PatchRvcJump(insn: bv16, off: bv64): bv16 {
    var imm11 := ((off & 0x800) << 1) as bv16;
    var imm10 := ((off & 0x400) >> 2) as bv16;
    var imm9_8 := ((off & 0x300) << 1) as bv16;
    var imm7 := ((off & 0x80) >> 1) as bv16;
    var imm6 := ((off & 0x40) << 1) as bv16;
    var imm5 := ((off & 0x20) >> 3) as bv16;
    var imm4 := ((off & 0x10) << 7) as bv16;
    var imm3_1 := ((off & 0xe) << 2) as bv16;
    (insn & 0xe003) | imm11 | imm10 | imm9_8 | imm7 | imm6 | imm5 | imm4 | imm3_1
  }

  // B-immediate: inst[31|7|30:25|11:8].
  function DecodeBranch(insn: bv32): bv64 {
    var w := insn as bv64;
    SignExtend((((w >> 31) & 1) << 12) | (((w >> 7) & 1) << 11) | (((w >> 25) & 0x3f) << 5) | (((w >> 8) & 0xf) << 1), 0x1000, 0xffff_ffff_ffff_f000)
  }

  // J-immediate: inst[31|19:12|20|30:21].
  function DecodeJal(insn: bv32): bv64 {
    var w := insn as bv64;
    SignExtend((((w >> 31) & 1) << 20) | (((w >> 12) & 0xff) << 12) | (((w >> 20) & 1) << 11) | (((w >> 21) & 0x3ff) << 1), 0x100000, 0xffff_ffff_fff0_0000)
  }

  // CB format: offset[8|4:3] in inst[12:10], offset[7:6|2:1|5] in inst[6:2].
  function DecodeRvcBranch(insn: bv16): bv64 {
    var w := insn as bv64;
    SignExtend((((w >> 12) & 1) << 8) | (((w >> 10) & 3) << 3) | (((w >> 5) & 3) << 6) | (((w >> 3) & 3) << 1) | (((w >> 2) & 1) << 5), 0x100, 0xffff_ffff_ffff_ff00)
  }

  // CJ format: offset[11|4|9:8|10|6|7|3:1|5] in inst[12:2].
  function DecodeRvcJump(insn: bv16): bv64 {
    var w := insn as bv64;
    SignExtend((((w >> 12) & 1) << 11) | (((w >> 11) & 1) << 4) | (((w >> 9) & 3) << 8) | (((w >> 8) & 1) << 10)
               | (((w >> 7) & 1) << 6) | (((w >> 6) & 1) << 7) | (((w >> 3) & 7) << 1) | (((w >> 2) & 1) << 5), 0x800, 0xffff_ffff_ffff_f800)
  }

  // An even offset from -half up to below half, `low` being -half.
  predicate Reaches(off: bv64, half: bv64, low: bv64) {
    off & 1 == 0 && (off < half || low <= off)
  }

  // The immediate bits do not overlap the kept ones, and only they are decoded.
  lemma BranchFieldApart(off: bv64)
    ensures BranchField(off) & 0x1fff07f == 0
  {
  }

  lemma BranchDecodesField(kept: bv32, field: bv32)
    ensures DecodeBranch((kept & 0x1fff07f) | field) == DecodeBranch(field)
  {
  }

  lemma BranchFieldDecodes(off: bv64)
    ensures DecodeBranch(BranchField(off)) == SignExtend(off & 0x1ffe, 0x1000, 0xffff_ffff_ffff_f000)
  {
  }

  lemma JalFieldApart(off: bv64)
    ensures JalField(off) & 0xfff == 0
  {
  }

  lemma JalDecodesField(kept: bv32, field: bv32)
    ensures DecodeJal((kept & 0xfff) | field) == DecodeJal(field)
  {
  }

  lemma JalFieldDecodes(off: bv64)
    ensures DecodeJal(JalField(off)) == SignExtend(off & 0x1ffffe, 0x100000, 0xffff_ffff_fff0_0000)
  {
  }

  lemma BranchRangeUp(off: bv64)
    requires off & 1 == 0 && off < 0x1000
    ensures SignExtend(off & 0x1ffe, 0x1000, 0xffff_ffff_ffff_f000) == off
  {
  }

  lemma BranchRangeDown(off: bv64)
    requires off & 1 == 0 && 0xffff_ffff_ffff_f000 <= off
    ensures SignExtend(off & 0x1ffe, 0x1000, 0xffff_ffff_ffff_f000) == off
  {
  }

  lemma BranchRangeOnly(off: bv64)
    ensures Reaches(SignExtend(off & 0x1ffe, 0x1000, 0xffff_ffff_ffff_f000), 0x1000, 0xffff_ffff_ffff_f000)
  {
  }

  lemma BranchRange(off: bv64)
    ensures SignExtend(off & 0x1ffe, 0x1000, 0xffff_ffff_ffff_f000) == off <==> Reaches(off, 0x1000, 0xffff_ffff_ffff_f000)
  {
    hide SignExtend;
    BranchRangeOnly(off);
    if off & 1 == 0 && off < 0x1000 {
      BranchRangeUp(off);
    } else if off & 1 == 0 && 0xffff_ffff_ffff_f000 <= off {
      BranchRangeDown(off);
    }
  }

  lemma JalRangeUp(off: bv64)
    requires off & 1 == 0 && off < 0x100000
    ensures SignExtend(off & 0x1ffffe, 0x100000, 0xffff_ffff_fff0_0000) == off
  {
  }

  lemma JalRangeDown(off: bv64)
    requires off & 1 == 0 && 0xffff_ffff_fff0_0000 <= off
    ensures SignExtend(off & 0x1ffffe, 0x100000, 0xffff_ffff_fff0_0000) == off
  {
  }

  lemma JalRangeOnly(off: bv64)
    ensures Reaches(SignExtend(off & 0x1ffffe, 0x100000, 0xffff_ffff_fff0_0000), 0x100000, 0xffff_ffff_fff0_0000)
  {
  }

  lemma JalRange(off: bv64)
    ensures SignExtend(off & 0x1ffffe, 0x100000, 0xffff_ffff_fff0_0000) == off <==> Reaches(off, 0x100000, 0xffff_ffff_fff0_0000)
  {
    hide SignExtend;
    JalRangeOnly(off);
    if off & 1 == 0 && off < 0x100000 {
      JalRangeUp(off);
    } else if off & 1 == 0 && 0xffff_ffff_fff0_0000 <= off {
      JalRangeDown(off);
    }
  }

  lemma MaskedOr(insn: bv32, mask: bv32, field: bv32)
    requires field & mask == 0
    ensures ((insn & mask) | field) & mask == insn & mask
  {
  }

  lemma BranchKeepsRest(insn: bv32, off: bv64)
    ensures PatchBranch(insn, off) & 0x1fff07f == insn & 0x1fff07f
  {
    BranchFieldApart(off);
    hide BranchField;
    MaskedOr(insn, 0x1fff07f, BranchField(off));
  }

  lemma JalKeepsRest(insn: bv32, off: bv64)
    ensures PatchJal(insn, off) & 0xfff == insn & 0xfff
  {
    JalFieldApart(off);
    hide JalField;
    MaskedOr(insn, 0xfff, JalField(off));
  }

  // The source patches without a range check.  The instruction then goes to the
  // wanted place exactly when the offset is even and in range, and all bits outside
  // the immediate are kept in any case.
  lemma BranchDecodes(insn: bv32, off: bv64)
    ensures DecodeBranch(PatchBranch(insn, off)) == off <==> Reaches(off, 0x1000, 0xffff_ffff_ffff_f000)
  {
    hide DecodeBranch, BranchField, SignExtend, Reaches;
    BranchDecodesField(insn, BranchField(off));
    BranchFieldDecodes(off);
    BranchRange(off);
  }

  lemma JalDecodes(insn: bv32, off: bv64)
    ensures DecodeJal(PatchJal(insn, off)) == off <==> Reaches(off, 0x100000, 0xffff_ffff_fff0_0000)
  {
    hide DecodeJal, JalField, SignExtend, Reaches;
    JalDecodesField(insn, JalField(off));
    JalFieldDecodes(off);
    JalRange(off);
  }

  lemma RvcBranchDecodes(insn: bv16, off: bv64)
    ensures DecodeRvcBranch(PatchRvcBranch(insn, off)) == off <==> Reaches(off, 0x100, 0xffff_ffff_ffff_ff00)
    ensures PatchRvcBranch(insn, off) & 0xe383 == insn & 0xe383
  {
  }

  lemma RvcJumpFieldDecodes(insn: bv16, off: bv64)
    ensures DecodeRvcJump(PatchRvcJump(insn, off)) == SignExtend(off & 0xffe, 0x800, 0xffff_ffff_ffff_f800)
  {
  }

  lemma RvcJumpRange(off: bv64)
    ensures SignExtend(off & 0xffe, 0x800, 0xffff_ffff_ffff_f800) == off <==> Reaches(off, 0x800, 0xffff_ffff_ffff_f800)
  {
  }

  lemma RvcJumpKeepsRest(insn: bv16, off: bv64)
    ensures PatchRvcJump(insn, off) & 0xe003 == insn & 0xe003
  {
  }

  lemma RvcJumpDecodes(insn: bv16, off: bv64)
    ensures DecodeRvcJump(PatchRvcJump(insn, off)) == off <==> Reaches(off, 0x800, 0xffff_ffff_ffff_f800)
    ensures PatchRvcJump(insn, off) & 0xe003 == insn & 0xe003
  {
    hide DecodeRvcJump, PatchRvcJump, SignExtend, Reaches;
    RvcJumpFieldDecodes(insn, off);
    RvcJumpRange(off);
    RvcJumpKeepsRest(insn, off);
  }

  /* ---- upper and lower halves ----

     Here offsets are integers and instruction words naturals below 2^32; a mask of
     low bits is a remainder, and an `|` of disjoint fields a sum. */

  const TWO32: nat := 0x1_0000_0000

  // (off + 0x800) & 0xfffff000
  function High(off: int): (h: nat)
    ensures h < TWO32 && h % 0x1000 == 0
  {
    (off + 0x800) / 0x1000 % 0x10_0000 * 0x1000
  }

  // (off - high) & 0xfff
  function Low(off: int): (l: nat)
    ensures l < 0x1000
  {
    (off - High(off)) % 0x1000
  }

  // AUIPC: U-immediate in inst[31:12].
  function PatchUpper(insn: nat, off: int): nat {
    insn % 0x1000 + High(off)
  }

  // I-immediate in inst[31:20].
  function PatchLowI(insn: nat, off: int): nat {
    insn % 0x10_0000 + Low(off) * 0x10_0000
  }

  // S-immediate in inst[31:25|11:7]; the mask 0x1fff07f keeps inst[24:12|6:0].
  function PatchLowS(insn: nat, off: int): nat {
    insn % 0x80 + Low(off) % 0x20 * 0x80 + insn / 0x1000 % 0x2000 * 0x1000 + Low(off) / 0x20 * 0x200_0000
  }

  function Signed32(x: nat): int {
    if x < 0x8000_0000 then x else x - TWO32
  }

  function Signed12(x: nat): int {
    if x < 0x800 then x else x - 0x1000
  }

  function DecodeUpper(insn: nat): int {
    Signed32(insn / 0x1000 * 0x1000)
  }

  function DecodeI(insn: nat): int {
    Signed12(insn / 0x10_0000)
  }

  function DecodeS(insn: nat): int {
    Signed12(insn / 0x200_0000 * 0x20 + insn / 0x80 % 0x20)
  }

  // off == (grub_int32_t) off, the source's reachability test.
  predicate FitsInt32(off: int) {
    -0x8000_0000 <= off < 0x8000_0000
  }

  lemma UpperDecodes(insn: nat, off: int)
    ensures DecodeUpper(PatchUpper(insn, off)) == Signed32(High(off))
    ensures PatchUpper(insn, off) % 0x1000 == insn % 0x1000
  {
  }

  lemma LowIDecodes(insn: nat, off: int)
    ensures DecodeI(PatchLowI(insn, off)) == Signed12(Low(off))
    ensures PatchLowI(insn, off) % 0x10_0000 == insn % 0x10_0000
  {
  }

  // The four fields of an S-format word.
  lemma SFormatFields(a: nat, l: nat, c: nat, h: nat)
    requires a < 0x80 && l < 0x20 && c < 0x2000 && h < 0x80
    ensures var w := a + l * 0x80 + c * 0x1000 + h * 0x200_0000;
            w % 0x80 == a && w / 0x80 % 0x20 == l && w / 0x1000 % 0x2000 == c && w / 0x200_0000 == h
  {
    var w := a + l * 0x80 + c * 0x1000 + h * 0x200_0000;
    assert w / 0x80 == l + 0x20 * (c + h * 0x2000);
    assert w / 0x1000 == c + 0x2000 * h;
  }

  lemma LowSDecodes(insn: nat, off: int)
    ensures DecodeS(PatchLowS(insn, off)) == Signed12(Low(off))
    ensures PatchLowS(insn, off) % 0x80 == insn % 0x80
    ensures PatchLowS(insn, off) / 0x1000 % 0x2000 == insn / 0x1000 % 0x2000
  {
    hide Low;
    SFormatFields(insn % 0x80, Low(off) % 0x20, insn / 0x1000 % 0x2000, Low(off) / 0x20);
  }

  // The two halves of a reachable offset add up to it modulo 2^32, and exactly if it
  // is below 2^31 - 2^11: the test in the source also lets through the 2 KiB above,
  // where a 64-bit hart ends up 2^32 too low.
  lemma HalvesAddUp(off: int)
    requires FitsInt32(off)
    ensures Signed32(High(off)) + Signed12(Low(off)) == if off < 0x7fff_f800 then off else off - TWO32
  {
  }

  // What an instruction pair adds to the program counter of its first instruction.
  function PairSum(hi: nat, lo: nat, stores: bool): int {
    DecodeUpper(hi) + if stores then DecodeS(lo) else DecodeI(lo)
  }

  // The displacement a pair can express for `off`.
  function Reached(off: int): int {
    if off < 0x7fff_f800 then off else off - TWO32
  }

  lemma PairReaches(hi: nat, lo: nat, off: int)
    requires FitsInt32(off)
    ensures PairSum(PatchUpper(hi, off), PatchLowI(lo, off), false) == Reached(off)
    ensures PairSum(PatchUpper(hi, off), PatchLowS(lo, off), true) == Reached(off)
  {
    hide DecodeUpper, DecodeI, DecodeS, PatchUpper, PatchLowI, PatchLowS, High, Low, Signed32, Signed12;
    UpperDecodes(hi, off);
    LowIDecodes(lo, off);
    LowSDecodes(lo, off);
    HalvesAddUp(off);
  }

  // The halves of any value give it back modulo 2^32.
  lemma PairModulo(hi: nat, lo: nat, v: int, stores: bool)
    ensures var sum := PairSum(PatchUpper(hi, v), if stores then PatchLowS(lo, v) else PatchLowI(lo, v), stores);
            (sum - v) % TWO32 == 0
  {
    hide DecodeUpper, DecodeI, DecodeS, PatchUpper, PatchLowI, PatchLowS, High, Low, Signed32, Signed12;
    UpperDecodes(hi, v);
    LowIDecodes(lo, v);
    LowSDecodes(lo, v);
    HalvesModulo(v);
  }

  lemma HalvesModulo(v: int)
    ensures (Signed32(High(v)) + Signed12(Low(v)) - v) % TWO32 == 0
  {
    var h, l := HalvesQuotient(v);
    MultipleOfTwo32(Signed32(High(v)) + Signed12(Low(v)) - v, h);
  }

  lemma MultipleOfTwo32(x: int, q: int)
    requires x == q * TWO32
    ensures x % TWO32 == 0
  {
  }

  lemma HalvesQuotient(v: int) returns (q: int, rest: int)
    ensures Signed32(High(v)) + Signed12(Low(v)) - v == q * TWO32
  {
    var n := (v + 0x800) / 0x1000;
    rest := (v + 0x800) % 0x1000;
    assert v + 0x800 == n * 0x1000 + rest;
    var k := n / 0x10_0000;
    assert High(v) == (n - k * 0x10_0000) * 0x1000;
    LowIs(v, n, rest, k);
    q := -k - (if High(v) < 0x8000_0000 then 0 else 1);
  }

  lemma LowIs(v: int, n: int, rest: int, k: int)
    requires v + 0x800 == n * 0x1000 + rest && 0 <= rest < 0x1000 && High(v) == (n - k * 0x10_0000) * 0x1000
    ensures Signed12(Low(v)) == rest - 0x800
  {
    hide High;
    var q := k * 0x10_0000;
    assert v - High(v) == q * 0x1000 + (rest - 0x800);
    SignedRest(q, rest);
  }

  lemma SignedRest(q: int, rest: int)
    requires 0 <= rest < 0x1000
    ensures Signed12((q * 0x1000 + (rest - 0x800)) % 0x1000) == rest - 0x800
  {
    var x := q * 0x1000 + (rest - 0x800);
    if rest >= 0x800 {
      Remainder(x, q, rest - 0x800);
    } else {
      Remainder(x, q - 1, rest + 0x800);
    }
  }

  lemma Remainder(x: int, q: int, r: int)
    requires x == q * 0x1000 + r && 0 <= r < 0x1000
    ensures x % 0x1000 == r
  {
  }
}
