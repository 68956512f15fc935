/** A whole RISC-V relocation section: the EM_RISCV case of `relocate_addrs` in
    grub/util/grub-mkimagexx.c, patching the bytes of the section it belongs to. */
module RiscvRelocation {
  import Align
  import opened Bytes
  import opened Options
  import opened RiscvImmediates
  import opened WordPatch

  // The relocation types; Add stands for R_RISCV_32 and _64 too.
  datatype Kind = Add(width: nat) | Sub(width: nat) | Branch | Jal | RvcBranch | RvcJump | Call
                | PcrelHi20 | PcrelLo12I | PcrelLo12S | Hi20 | Lo12I | Lo12S | Relax | Unknown

  // `at` is the patched place in the section, `value` is S + A.  For a PCREL_LO12 the value
  // names the address of its HI20.
  datatype Rel = Rel(kind: Kind, at: nat, value: nat)

  function Size(k: Kind): nat {
    match k
    case Add(w) => w
    case Sub(w) => w
    case RvcBranch => 2
    case RvcJump => 2
    case Call => 8
    case Relax => 0
    case Unknown => 0
    case _ => 4
  }

  ghost predicate Valid(rels: seq<Rel>, size: nat) {
    && Reachable(rels, size)
    && forall i :: 0 <= i < |rels| && (rels[i].kind.Add? || rels[i].kind.Sub?) ==> rels[i].kind.width in {1, 2, 4, 8}
  }

  // Every patched place lies in the section.
  ghost predicate Reachable(rels: seq<Rel>, size: nat) {
    forall i :: 0 <= i < |rels| ==> rels[i].at + Size(rels[i].kind) <= size
  }

  // Section address and vaddr_offset together are `org`.
  function Offset(org: nat, r: Rel): int {
    r.value - (org + r.at)
  }

  /* ---- words ---- */

  function Store(t: seq<byte>, at: nat, w: nat, v: int): (r: seq<byte>)
    requires at + w <= |t|
    ensures |r| == |t|
  {
    Splice(t, at, EncodeLE(Wrap(v, w), w))
  }

  lemma Stored(t: seq<byte>, at: nat, w: nat, v: int)
    requires at + w <= |t|
    ensures WordAt(Store(t, at, w, v), at, w) == Wrap(v, w)
  {
    DecodeEncodeLE(Wrap(v, w), w);
  }

  lemma StoredElsewhere(t: seq<byte>, at: nat, w: nat, v: int, a: nat, u: nat)
    requires at + w <= |t| && a + u <= |t| && (at + w <= a || a + u <= at)
    ensures WordAt(Store(t, at, w, v), a, u) == WordAt(t, a, u)
  {
    hide DecodeLE;
    assert Store(t, at, w, v)[a..a + u] == t[a..a + u];
  }

  function Bits32(x: nat): bv32
    requires x < TWO32
  {
    x as bv32
  }

  function Bits16(x: nat): bv16
    requires x < 0x1_0000
  {
    x as bv16
  }

  function Num32(x: bv32): (n: nat)
    ensures n < TWO32
  {
    x as int
  }

  function Num16(x: bv16): (n: nat)
    ensures n < 0x1_0000
  {
    x as int
  }

  // An offset as the 64-bit word it is held in.
  function Bits64(x: int): bv64 { (x % 0x1_0000_0000_0000_0000) as bv64 }

  lemma BitsBack(x: bv32, y: bv16)
    ensures Bits32(Num32(x)) == x && Bits16(Num16(y)) == y
  {
  }

  lemma WordBound(t: seq<byte>, at: nat, w: nat)
    requires at + w <= |t| && (w == 2 || w == 4)
    ensures WordAt(t, at, w) < if w == 2 then 0x1_0000 else TWO32
  {
    Powers();
    DecodeBound(t[at..at + w]);
  }

  lemma {:induction false} DecodeBound(s: seq<byte>)
    ensures DecodeLE(s) < Pow256(|s|)
  {
    if s != [] { DecodeBound(s[1..]); }
  }

  function Insn(t: seq<byte>, at: nat): (n: nat)
    requires at + 4 <= |t|
    ensures n < TWO32
  {
    WordBound(t, at, 4);
    WordAt(t, at, 4)
  }

  function Half(t: seq<byte>, at: nat): (n: nat)
    requires at + 2 <= |t|
    ensures n < 0x1_0000
  {
    WordBound(t, at, 2);
    WordAt(t, at, 2)
  }

  /* ---- one relocation ---- */

  // The backward search for the matching HI20 among the first `k` relocations.
  function FindHi20(org: nat, rels: seq<Rel>, k: nat, address: nat): (r: Option<nat>)
    requires k <= |rels|
    ensures r.Some? ==> r.value < k && rels[r.value].kind == PcrelHi20 && org + rels[r.value].at == address
    ensures r.None? <==> forall i :: 0 <= i < k && rels[i].kind == PcrelHi20 ==> org + rels[i].at != address
    ensures r.Some? ==> forall i :: r.value < i < k && rels[i].kind == PcrelHi20 ==> org + rels[i].at != address
  {
    if k == 0 then None
    else if rels[k - 1].kind == PcrelHi20 && org + rels[k - 1].at == address then Some(k - 1)
    else FindHi20(org, rels, k - 1, address)
  }

  // The patches that need no search and no test.  An 8-bit SUB subtracts the wrong way round.
  function Simple(org: nat, r: Rel, t: seq<byte>): (t': seq<byte>)
    requires r.at + Size(r.kind) <= |t|
    ensures |t'| == |t|
  {
    var off := Offset(org, r);
    match r.kind
    case Add(w) => Store(t, r.at, w, WordAt(t, r.at, w) + r.value)
    case Sub(w) => Store(t, r.at, w, if w == 1 then r.value - WordAt(t, r.at, w) else WordAt(t, r.at, w) - r.value)
    case Branch => Store(t, r.at, 4, Num32(PatchBranch(Bits32(Insn(t, r.at)), Bits64(off))))
    case Jal => Store(t, r.at, 4, Num32(PatchJal(Bits32(Insn(t, r.at)), Bits64(off))))
    case RvcBranch => Store(t, r.at, 2, Num16(PatchRvcBranch(Bits16(Half(t, r.at)), Bits64(off))))
    case RvcJump => Store(t, r.at, 2, Num16(PatchRvcJump(Bits16(Half(t, r.at)), Bits64(off))))
    case Hi20 => Store(t, r.at, 4, PatchUpper(Insn(t, r.at), r.value))
    case Lo12I => Store(t, r.at, 4, PatchLowI(Insn(t, r.at), r.value))
    case Lo12S => Store(t, r.at, 4, PatchLowS(Insn(t, r.at), r.value))
    case _ => t
  }

  // Relocation `j` on the section's bytes; None where the source stops with an error.
  function Step(org: nat, rels: seq<Rel>, j: nat, t: seq<byte>): (r: Option<seq<byte>>)
    requires j < |rels| && rels[j].at + Size(rels[j].kind) <= |t|
    ensures r.Some? ==> |r.value| == |t|
  {
    var r := rels[j];
    var off := Offset(org, r);
    match r.kind
    case Unknown => None
    case PcrelHi20 =>
      if !FitsInt32(off) then None else Some(Store(t, r.at, 4, PatchUpper(Insn(t, r.at), off)))
    case Call =>
      if !FitsInt32(off) then None
      else
        var t1 := Store(t, r.at, 4, PatchUpper(Insn(t, r.at), off));
        Some(Store(t1, r.at + 4, 4, PatchLowI(Insn(t1, r.at + 4), off)))
    case PcrelLo12I =>
      (match FindHi20(org, rels, j, r.value)
       case None => None
       case Some(i) => Some(Store(t, r.at, 4, PatchLowI(Insn(t, r.at), Offset(org, rels[i])))))
    case PcrelLo12S =>
      (match FindHi20(org, rels, j, r.value)
       case None => None
       case Some(i) => Some(Store(t, r.at, 4, PatchLowS(Insn(t, r.at), Offset(org, rels[i])))))
    case _ => Some(Simple(org, r, t))
  }

  function Relocate(org: nat, rels: seq<Rel>, n: nat, t: seq<byte>): (r: Option<seq<byte>>)
    requires n <= |rels| && Reachable(rels, |t|)
    ensures r.Some? ==> |r.value| == |t|
  {
    if n == 0 then Some(t)
    else match Relocate(org, rels, n - 1, t)
      case None => None
      case Some(t') => Step(org, rels, n - 1, t')
  }

  /* ---- what a run leaves at a site ---- */

  // Relocation r touches none of the u bytes at a.
  predicate Clear(r: Rel, a: nat, u: nat) {
    Size(r.kind) == 0 || r.at + Size(r.kind) <= a || a + u <= r.at
  }

  lemma SimpleFrame(org: nat, r: Rel, t: seq<byte>, a: nat, u: nat)
    requires r.at + Size(r.kind) <= |t| && a + u <= |t| && Clear(r, a, u)
    ensures WordAt(Simple(org, r, t), a, u) == WordAt(t, a, u)
  {
    hide WordAt, Store, PatchBranch, PatchJal, PatchRvcBranch, PatchRvcJump, PatchUpper, PatchLowI, PatchLowS, Bits64, Bits32, Bits16, Num32, Num16, Insn, Half;
    var off := Offset(org, r);
    match r.kind
    case Add(w) => if w > 0 { StoredElsewhere(t, r.at, w, WordAt(t, r.at, w) + r.value, a, u); } else { StoreNothing(t, r.at, WordAt(t, r.at, w) + r.value); }
    case Sub(w) =>
      var v := if w == 1 then r.value - WordAt(t, r.at, w) else WordAt(t, r.at, w) - r.value;
      if w > 0 { StoredElsewhere(t, r.at, w, v, a, u); } else { StoreNothing(t, r.at, v); }
    case Branch => StoredElsewhere(t, r.at, 4, Num32(PatchBranch(Bits32(Insn(t, r.at)), Bits64(off))), a, u);
    case Jal => StoredElsewhere(t, r.at, 4, Num32(PatchJal(Bits32(Insn(t, r.at)), Bits64(off))), a, u);
    case RvcBranch => StoredElsewhere(t, r.at, 2, Num16(PatchRvcBranch(Bits16(Half(t, r.at)), Bits64(off))), a, u);
    case RvcJump => StoredElsewhere(t, r.at, 2, Num16(PatchRvcJump(Bits16(Half(t, r.at)), Bits64(off))), a, u);
    case Hi20 => StoredElsewhere(t, r.at, 4, PatchUpper(Insn(t, r.at), r.value), a, u);
    case Lo12I => StoredElsewhere(t, r.at, 4, PatchLowI(Insn(t, r.at), r.value), a, u);
    case Lo12S => StoredElsewhere(t, r.at, 4, PatchLowS(Insn(t, r.at), r.value), a, u);
    case _ =>
  }

  lemma StoreNothing(t: seq<byte>, at: nat, v: int)
    requires at <= |t|
    ensures Store(t, at, 0, v) == t
  {
    assert EncodeLE(Wrap(v, 0), 0) == [];
  }

  lemma StepFrame(org: nat, rels: seq<Rel>, j: nat, t: seq<byte>, a: nat, u: nat)
    requires j < |rels| && rels[j].at + Size(rels[j].kind) <= |t| && a + u <= |t|
    requires Step(org, rels, j, t).Some? && Clear(rels[j], a, u)
    ensures WordAt(Step(org, rels, j, t).value, a, u) == WordAt(t, a, u)
  {
    hide WordAt, Store, PatchUpper, PatchLowI, PatchLowS, Insn, Simple, FindHi20, FitsInt32;
    var r := rels[j];
    var off := Offset(org, r);
    match r.kind
    case Unknown =>
    case PcrelHi20 => StoredElsewhere(t, r.at, 4, PatchUpper(Insn(t, r.at), off), a, u);
    case Call =>
      var t1 := Store(t, r.at, 4, PatchUpper(Insn(t, r.at), off));
      StoredElsewhere(t, r.at, 4, PatchUpper(Insn(t, r.at), off), a, u);
      StoredElsewhere(t1, r.at + 4, 4, PatchLowI(Insn(t1, r.at + 4), off), a, u);
    case PcrelLo12I =>
      StoredElsewhere(t, r.at, 4, PatchLowI(Insn(t, r.at), Offset(org, rels[FindHi20(org, rels, j, r.value).value])), a, u);
    case PcrelLo12S =>
      StoredElsewhere(t, r.at, 4, PatchLowS(Insn(t, r.at), Offset(org, rels[FindHi20(org, rels, j, r.value).value])), a, u);
    case _ => SimpleFrame(org, r, t, a, u);
  }

  lemma {:induction false} RelocateFrame(org: nat, rels: seq<Rel>, m: nat, n: nat, t: seq<byte>, a: nat, u: nat)
    requires m <= n <= |rels| && Reachable(rels, |t|) && a + u <= |t|
    requires Relocate(org, rels, n, t).Some? && forall i :: m <= i < n ==> Clear(rels[i], a, u)
    ensures Relocate(org, rels, m, t).Some?
    ensures WordAt(Relocate(org, rels, n, t).value, a, u) == WordAt(Relocate(org, rels, m, t).value, a, u)
    decreases n
  {
    hide Step, WordAt, Clear;
    if m < n {
      RelocateFrame(org, rels, m, n - 1, t, a, u);
      StepFrame(org, rels, n - 1, Relocate(org, rels, n - 1, t).value, a, u);
    }
  }

  // Only relocation j touches the u bytes at a.
  ghost predicate Alone(rels: seq<Rel>, j: nat, a: nat, u: nat) {
    forall i :: 0 <= i < |rels| && i != j ==> Clear(rels[i], a, u)
  }

  // Then the run leaves there what relocation j made of the original bytes.
  lemma SiteWord(org: nat, rels: seq<Rel>, t: seq<byte>, j: nat, a: nat, u: nat) returns (before: seq<byte>)
    requires Valid(rels, |t|) && j < |rels| && a + u <= |t| && Alone(rels, j, a, u) && Relocate(org, rels, |rels|, t).Some?
    ensures |before| == |t| && Step(org, rels, j, before).Some?
    ensures WordAt(before, a, u) == WordAt(t, a, u)
    ensures WordAt(Relocate(org, rels, |rels|, t).value, a, u) == WordAt(Step(org, rels, j, before).value, a, u)
  {
    hide Step, WordAt, Clear;
    RelocateFrame(org, rels, j + 1, |rels|, t, a, u);
    RelocateFrame(org, rels, 0, j, t, a, u);
    before := Relocate(org, rels, j, t).value;
  }

  ghost function Result(org: nat, rels: seq<Rel>, t: seq<byte>): (r: seq<byte>)
    requires Valid(rels, |t|) && Relocate(org, rels, |rels|, t).Some?
    ensures |r| == |t|
  {
    Relocate(org, rels, |rels|, t).value
  }

  lemma Word32(v: nat)
    requires v < TWO32
    ensures Wrap(v, 4) == v
  {
    Powers();
  }

  lemma PatchBounds(insn: nat, off: int)
    ensures PatchUpper(insn, off) < TWO32 && PatchLowI(insn, off) < TWO32 && PatchLowS(insn, off) < TWO32
  {
    hide High, Low;
    assert High(off) <= TWO32 - 0x1000 by { HighBound(off); }
  }

  lemma HighBound(off: int)
    ensures High(off) <= TWO32 - 0x1000
  {
  }

  lemma HiWord(org: nat, rels: seq<Rel>, t: seq<byte>, i: nat)
    requires Valid(rels, |t|) && Relocate(org, rels, |rels|, t).Some? && i < |rels|
    requires rels[i].kind == PcrelHi20 && Alone(rels, i, rels[i].at, 4)
    ensures FitsInt32(Offset(org, rels[i]))
    ensures Insn(Result(org, rels, t), rels[i].at) == PatchUpper(Insn(t, rels[i].at), Offset(org, rels[i]))
  {
    hide PatchUpper, Relocate, Store, WordAt, FitsInt32, Clear;
    var r := rels[i];
    var before := SiteWord(org, rels, t, i, r.at, 4);
    Stored(before, r.at, 4, PatchUpper(Insn(before, r.at), Offset(org, r)));
    PatchBounds(Insn(before, r.at), Offset(org, r));
    Word32(PatchUpper(Insn(before, r.at), Offset(org, r)));
  }

  // The instruction that a PCREL_LO12 makes of `insn`.
  function PatchedLow(k: Kind, insn: nat, off: int): nat
    requires insn < TWO32
  {
    if k == PcrelLo12S then PatchLowS(insn, off) else PatchLowI(insn, off)
  }

  lemma LoWord(org: nat, rels: seq<Rel>, t: seq<byte>, j: nat)
    requires Valid(rels, |t|) && Relocate(org, rels, |rels|, t).Some? && j < |rels|
    requires (rels[j].kind == PcrelLo12I || rels[j].kind == PcrelLo12S) && Alone(rels, j, rels[j].at, 4)
    ensures FindHi20(org, rels, j, rels[j].value).Some?
    ensures rels[j].at + 4 <= |t|
    ensures Insn(Result(org, rels, t), rels[j].at)
            == PatchedLow(rels[j].kind, Insn(t, rels[j].at), Offset(org, rels[FindHi20(org, rels, j, rels[j].value).value]))
  {
    hide PatchLowI, PatchLowS, Relocate, Store, WordAt, FitsInt32, Clear;
    var r := rels[j];
    var before := SiteWord(org, rels, t, j, r.at, 4);
    var off := Offset(org, rels[FindHi20(org, rels, j, r.value).value]);
    var v := PatchedLow(r.kind, Insn(before, r.at), off);
    Stored(before, r.at, 4, v);
    PatchBounds(Insn(before, r.at), off);
    Word32(v);
  }

  /* ---- main results ---- */

  // The two instructions, in the bytes t, reach what relocation i asks for from its location.
  ghost predicate PairGoesTo(org: nat, rels: seq<Rel>, t: seq<byte>, i: nat, j: nat) {
    && i < |rels| && j < |rels| && rels[i].at + 4 <= |t| && rels[j].at + 4 <= |t|
    && GetsTo(org + rels[i].at, PairSum(Insn(t, rels[i].at), Insn(t, rels[j].at), rels[j].kind == PcrelLo12S), rels[i].value)
  }

  // Adding `sum` to the address `from` gives the address `to`, or comes out 2^32 short of it
  // when that is 2^31 - 2^11 or more ahead.
  predicate GetsTo(from: int, sum: int, to: int) {
    from + sum == if to - from < 0x7fff_f800 then to else to - 0x1_0000_0000
  }

  // After a run over any relocation section, every PCREL_LO12 whose instruction and whose
  // HI20's instruction no other relocation touches has a HI20 before it at the address it
  // names, and the two instructions together reach that HI20's symbol + addend from its
  // location: exactly when that is less than 2^31 - 2^11 ahead, else 2^32 short.
  lemma PcrelPairReaches(org: nat, rels: seq<Rel>, t: seq<byte>, j: nat)
    requires Valid(rels, |t|) && Relocate(org, rels, |rels|, t).Some? && j < |rels|
    requires (rels[j].kind == PcrelLo12I || rels[j].kind == PcrelLo12S) && Alone(rels, j, rels[j].at, 4)
    ensures FindHi20(org, rels, j, rels[j].value).Some?
    ensures var i := FindHi20(org, rels, j, rels[j].value).value;
            && rels[i].kind == PcrelHi20 && org + rels[i].at == rels[j].value
            && (Alone(rels, i, rels[i].at, 4) ==> PairGoesTo(org, rels, Result(org, rels, t), i, j))
  {
    hide PatchUpper, PatchLowI, PatchLowS, Relocate, PairSum, Reached, Insn, Result, Alone, FitsInt32;
    LoWord(org, rels, t, j);
    var i := FindHi20(org, rels, j, rels[j].value).value;
    if Alone(rels, i, rels[i].at, 4) {
      HiWord(org, rels, t, i);
      PairReaches(Insn(t, rels[i].at), Insn(t, rels[j].at), Offset(org, rels[i]));
      ReachedGetsTo(org, rels[i]);
    }
  }

  lemma ReachedGetsTo(org: nat, r: Rel)
    ensures GetsTo(org + r.at, Reached(Offset(org, r)), r.value)
  {
  }

  lemma CallReaches(org: nat, rels: seq<Rel>, t: seq<byte>, j: nat)
    requires Valid(rels, |t|) && Relocate(org, rels, |rels|, t).Some? && j < |rels|
    requires rels[j].kind == Call && Alone(rels, j, rels[j].at, 8)
    ensures GetsTo(org + rels[j].at, PairSum(Insn(Result(org, rels, t), rels[j].at), Insn(Result(org, rels, t), rels[j].at + 4), false),
                   rels[j].value)
  {
    hide PatchUpper, PatchLowI, PatchLowS, Relocate, Store, WordAt, PairSum, Reached, FitsInt32;
    var r, off := rels[j], Offset(org, rels[j]);
    var b1 := SiteWord(org, rels, t, j, r.at, 4);
    CallWords(org, rels, j, b1);
    var b2 := SiteWord(org, rels, t, j, r.at + 4, 4);
    CallWords(org, rels, j, b2);
    PairReaches(Insn(t, r.at), Insn(t, r.at + 4), off);
    ReachedGetsTo(org, r);
  }

  lemma CallWords(org: nat, rels: seq<Rel>, j: nat, t: seq<byte>)
    requires j < |rels| && rels[j].kind == Call && rels[j].at + 8 <= |t| && Step(org, rels, j, t).Some?
    ensures var r, off := rels[j], Offset(org, rels[j]);
            && FitsInt32(off)
            && WordAt(Step(org, rels, j, t).value, r.at, 4) == PatchUpper(Insn(t, r.at), off)
            && WordAt(Step(org, rels, j, t).value, r.at + 4, 4) == PatchLowI(Insn(t, r.at + 4), off)
  {
    hide PatchUpper, PatchLowI, Store, WordAt, FitsInt32;
    var r, off := rels[j], Offset(org, rels[j]);
    var hi := PatchUpper(Insn(t, r.at), off);
    var t1 := Store(t, r.at, 4, hi);
    Stored(t, r.at, 4, hi);
    StoredElsewhere(t, r.at, 4, hi, r.at + 4, 4);
    var lo := PatchLowI(Insn(t1, r.at + 4), off);
    Stored(t1, r.at + 4, 4, lo);
    StoredElsewhere(t1, r.at + 4, 4, lo, r.at, 4);
    PatchBounds(Insn(t, r.at), off);
    PatchBounds(Insn(t1, r.at + 4), off);
    Word32(hi);
    Word32(lo);
  }

  // Branches and jumps go to their symbol exactly when the offset is even and in range.
  lemma BranchReaches(org: nat, rels: seq<Rel>, t: seq<byte>, j: nat)
    requires Valid(rels, |t|) && Relocate(org, rels, |rels|, t).Some? && j < |rels|
    requires (rels[j].kind == Branch || rels[j].kind == Jal) && Alone(rels, j, rels[j].at, 4)
    ensures var insn, off := Bits32(Insn(Result(org, rels, t), rels[j].at)), Bits64(rels[j].value - (org + rels[j].at));
            if rels[j].kind == Branch then DecodeBranch(insn) == off <==> Reaches(off, 0x1000, 0xffff_ffff_ffff_f000)
            else DecodeJal(insn) == off <==> Reaches(off, 0x100000, 0xffff_ffff_fff0_0000)
  {
    hide PatchBranch, PatchJal, DecodeBranch, DecodeJal, Reaches, Relocate, Store, WordAt, Bits32, Bits64, Num32;
    var r, off := rels[j], Bits64(Offset(org, rels[j]));
    var before := SiteWord(org, rels, t, j, r.at, 4);
    var insn := Bits32(Insn(before, r.at));
    var patched := if r.kind == Branch then PatchBranch(insn, off) else PatchJal(insn, off);
    Stored(before, r.at, 4, Num32(patched));
    Word32(Num32(patched));
    BitsBack(patched, 0);
    BranchDecodes(insn, off);
    JalDecodes(insn, off);
  }

  lemma RvcReaches(org: nat, rels: seq<Rel>, t: seq<byte>, j: nat)
    requires Valid(rels, |t|) && Relocate(org, rels, |rels|, t).Some? && j < |rels|
    requires (rels[j].kind == RvcBranch || rels[j].kind == RvcJump) && Alone(rels, j, rels[j].at, 2)
    ensures var insn, off := Bits16(Half(Result(org, rels, t), rels[j].at)), Bits64(rels[j].value - (org + rels[j].at));
            if rels[j].kind == RvcBranch then DecodeRvcBranch(insn) == off <==> Reaches(off, 0x100, 0xffff_ffff_ffff_ff00)
            else DecodeRvcJump(insn) == off <==> Reaches(off, 0x800, 0xffff_ffff_ffff_f800)
  {
    hide PatchRvcBranch, PatchRvcJump, DecodeRvcBranch, DecodeRvcJump, Reaches, Relocate, Store, WordAt, Bits16, Bits64, Num16;
    var r, off := rels[j], Bits64(Offset(org, rels[j]));
    var before := SiteWord(org, rels, t, j, r.at, 2);
    var insn := Bits16(Half(before, r.at));
    var patched := if r.kind == RvcBranch then PatchRvcBranch(insn, off) else PatchRvcJump(insn, off);
    Stored(before, r.at, 2, Num16(patched));
    Word16(Num16(patched));
    BitsBack(0, patched);
    RvcBranchDecodes(insn, off);
    RvcJumpDecodes(insn, off);
  }

  lemma Word16(v: nat)
    requires v < 0x1_0000
    ensures Wrap(v, 2) == v
  {
    Powers();
  }

  // The two instructions, in the bytes t, give the value of relocation i modulo 2^32.
  ghost predicate PairGives(rels: seq<Rel>, t: seq<byte>, i: nat, j: nat) {
    && i < |rels| && j < |rels| && rels[i].at + 4 <= |t| && rels[j].at + 4 <= |t|
    && (PairSum(Insn(t, rels[i].at), Insn(t, rels[j].at), rels[j].kind == Lo12S) - rels[i].value) % TWO32 == 0
  }

  // An absolute HI20 and a LO12 against the same value give it back modulo 2^32.
  lemma AbsolutePairReaches(org: nat, rels: seq<Rel>, t: seq<byte>, i: nat, j: nat)
    requires Valid(rels, |t|) && Relocate(org, rels, |rels|, t).Some? && i < |rels| && j < |rels|
    requires rels[i].kind == Hi20 && (rels[j].kind == Lo12I || rels[j].kind == Lo12S) && rels[i].value == rels[j].value
    requires Alone(rels, i, rels[i].at, 4) && Alone(rels, j, rels[j].at, 4)
    ensures PairGives(rels, Result(org, rels, t), i, j)
  {
    hide PatchUpper, PatchLowI, PatchLowS, Relocate, PairSum, Insn, Result, Alone;
    AbsoluteWord(org, rels, t, i);
    AbsoluteWord(org, rels, t, j);
    PairModulo(Insn(t, rels[i].at), Insn(t, rels[j].at), rels[i].value, rels[j].kind == Lo12S);
  }

  // The instruction that an absolute HI20 or LO12 makes of `insn`.
  function PatchedAbsolute(k: Kind, insn: nat, value: int): nat
    requires insn < TWO32
  {
    match k
    case Hi20 => PatchUpper(insn, value)
    case Lo12I => PatchLowI(insn, value)
    case _ => PatchLowS(insn, value)
  }

  lemma AbsoluteWord(org: nat, rels: seq<Rel>, t: seq<byte>, i: nat)
    requires Valid(rels, |t|) && Relocate(org, rels, |rels|, t).Some? && i < |rels|
    requires (rels[i].kind == Hi20 || rels[i].kind == Lo12I || rels[i].kind == Lo12S) && Alone(rels, i, rels[i].at, 4)
    ensures rels[i].at + 4 <= |t|
    ensures Insn(Result(org, rels, t), rels[i].at) == PatchedAbsolute(rels[i].kind, Insn(t, rels[i].at), rels[i].value)
  {
    hide PatchUpper, PatchLowI, PatchLowS, Relocate, Store, WordAt, Clear;
    var r := rels[i];
    var before := SiteWord(org, rels, t, i, r.at, 4);
    var insn := Insn(before, r.at);
    var v := PatchedAbsolute(r.kind, insn, r.value);
    PatchBounds(insn, r.value);
    Stored(before, r.at, 4, v);
    Word32(v);
  }

  // What an ADD or SUB makes of the number x in its place, before it is cut to the width.
  function Summed(k: Kind, value: int, x: int): int
    requires k.Add? || k.Sub?
  {
    if k.Add? then x + value else if k.width == 1 then value - x else x - value
  }

  lemma SummedWord(org: nat, rels: seq<Rel>, j: nat, t: seq<byte>)
    requires j < |rels| && (rels[j].kind.Add? || rels[j].kind.Sub?) && rels[j].at + rels[j].kind.width <= |t|
    ensures var r := rels[j];
            && Step(org, rels, j, t).Some?
            && WordAt(Step(org, rels, j, t).value, r.at, r.kind.width)
               == Wrap(Summed(r.kind, r.value, WordAt(t, r.at, r.kind.width)), r.kind.width)
  {
    hide Store, WordAt, Wrap;
    var r := rels[j];
    Stored(t, r.at, r.kind.width, Summed(r.kind, r.value, WordAt(t, r.at, r.kind.width)));
  }

  // An ADD alone, R_RISCV_32 and _64 among them, adds its symbol to what the word held, and a
  // SUB alone subtracts it, except from a byte.
  lemma LoneSum(org: nat, rels: seq<Rel>, t: seq<byte>, j: nat, w: nat)
    requires Valid(rels, |t|) && Relocate(org, rels, |rels|, t).Some? && j < |rels|
    requires (rels[j].kind == Add(w) || rels[j].kind == Sub(w)) && Alone(rels, j, rels[j].at, w)
    ensures rels[j].at + w <= |t|
    ensures SumIsRight(rels[j], WordAt(t, rels[j].at, w), WordAt(Result(org, rels, t), rels[j].at, w), w)
  {
    WidthIsSize(rels, |t|, j, w);
    var before := SiteWord(org, rels, t, j, rels[j].at, w);
    SummedWord(org, rels, j, before);
    hide *;
    SummedIsRight(rels[j], WordAt(t, rels[j].at, w), w);
    assert Result(org, rels, t) == Relocate(org, rels, |rels|, t).value by { ResultIs(org, rels, t); }
  }

  lemma ResultIs(org: nat, rels: seq<Rel>, t: seq<byte>)
    requires Valid(rels, |t|) && Relocate(org, rels, |rels|, t).Some?
    ensures Result(org, rels, t) == Relocate(org, rels, |rels|, t).value
  {
  }

  lemma SummedIsRight(r: Rel, before: int, w: nat)
    requires (r.kind == Add(w) || r.kind == Sub(w)) && w > 0
    ensures SumIsRight(r, before, Wrap(Summed(r.kind, r.value, before), w), w)
  {
    hide Wrap;
  }

  lemma WidthIsSize(rels: seq<Rel>, size: nat, j: nat, w: nat)
    requires Valid(rels, size) && j < |rels| && (rels[j].kind == Add(w) || rels[j].kind == Sub(w))
    ensures rels[j].at + w <= size && w > 0
  {
    assert rels[j].at + Size(rels[j].kind) <= size;
  }

  ghost predicate SumIsRight(r: Rel, before: int, after: int, w: nat) {
    && (r.kind == Add(w) ==> after == Wrap(before + r.value, w))
    && (r.kind == Sub(w) && w > 1 ==> after == Wrap(before - r.value, w))
    && (r.kind == Sub(w) && w == 1 ==> after == Wrap(r.value - before, w))
  }

  // Relocations i < j, an ADD and a SUB in either order, share a place of w bytes that no
  // other relocation touches.
  ghost predicate AddSubPair(rels: seq<Rel>, i: nat, j: nat, w: nat) {
    && i < j < |rels| && rels[i].at == rels[j].at
    && ((rels[i].kind == Add(w) && rels[j].kind == Sub(w)) || (rels[i].kind == Sub(w) && rels[j].kind == Add(w)))
    && forall m :: 0 <= m < |rels| && m != i && m != j ==> Clear(rels[m], rels[i].at, w)
  }

  lemma AddSubWord(org: nat, rels: seq<Rel>, t: seq<byte>, i: nat, j: nat, w: nat)
    requires Valid(rels, |t|) && Relocate(org, rels, |rels|, t).Some? && AddSubPair(rels, i, j, w)
    ensures var x := Wrap(Summed(rels[i].kind, rels[i].value, WordAt(t, rels[i].at, w)), w);
            WordAt(Result(org, rels, t), rels[i].at, w) == Wrap(Summed(rels[j].kind, rels[j].value, x), w)
  {
    hide Step, WordAt, Clear, Wrap, Summed;
    var at := rels[i].at;
    assert rels[i].at + Size(rels[i].kind) <= |t|;
    RelocateFrame(org, rels, j + 1, |rels|, t, at, w);
    SummedWord(org, rels, j, Relocate(org, rels, j, t).value);
    RelocateFrame(org, rels, i + 1, j, t, at, w);
    SummedWord(org, rels, i, Relocate(org, rels, i, t).value);
    RelocateFrame(org, rels, 0, i, t, at, w);
  }

  // The number t holds at a pair's place, and the two values.
  ghost function Old(rels: seq<Rel>, t: seq<byte>, i: nat, w: nat): int
    requires i < |rels| && rels[i].at + w <= |t|
  {
    WordAt(t, rels[i].at, w)
  }

  ghost function Added(rels: seq<Rel>, i: nat, j: nat): int
    requires i < |rels| && j < |rels|
  {
    if rels[i].kind.Add? then rels[i].value else rels[j].value
  }

  ghost function Subtracted(rels: seq<Rel>, i: nat, j: nat): int
    requires i < |rels| && j < |rels|
  {
    if rels[i].kind.Add? then rels[j].value else rels[i].value
  }

  // Turning this number around does not show in a byte.
  ghost predicate HalfTurn(rels: seq<Rel>, t: seq<byte>, i: nat, j: nat)
    requires i < |rels| && j < |rels| && rels[i].at + 1 <= |t|
  {
    var sofar := Old(rels, t, i, 1) + if rels[i].kind.Add? then Added(rels, i, j) else 0;
    2 * (sofar - Subtracted(rels, i, j)) % 256 == 0
  }

  // After a run over any relocation section, the word holds what it held plus the difference
  // of the two symbols -- if and only if it is wider than a byte, or by chance the number
  // that the SUB turns around is no different from its negative.
  lemma AddSubDifference(org: nat, rels: seq<Rel>, t: seq<byte>, i: nat, j: nat, w: nat)
    requires Valid(rels, |t|) && Relocate(org, rels, |rels|, t).Some? && AddSubPair(rels, i, j, w)
    ensures rels[i].at + w <= |t|
    ensures Old(rels, Result(org, rels, t), i, w) == Wrap(Old(rels, t, i, w) + (Added(rels, i, j) - Subtracted(rels, i, j)), w)
            <==> w != 1 || HalfTurn(rels, t, i, j)
  {
    PairInside(rels, |t|, i, j, w);
    AddSubWord(org, rels, t, i, j, w);
    hide *;
    OldIsWord(rels, t, i, w);
    OldIsWord(rels, Result(org, rels, t), i, w);
    PairSums(rels, t, i, j, w);
  }

  lemma PairInside(rels: seq<Rel>, size: nat, i: nat, j: nat, w: nat)
    requires Reachable(rels, size) && AddSubPair(rels, i, j, w)
    ensures rels[i].at + w <= size && rels[i].kind.width == rels[j].kind.width == w
  {
    assert rels[i].at + Size(rels[i].kind) <= size;
    hide Clear;
  }

  lemma OldIsWord(rels: seq<Rel>, t: seq<byte>, i: nat, w: nat)
    requires i < |rels| && rels[i].at + w <= |t|
    ensures Old(rels, t, i, w) == WordAt(t, rels[i].at, w)
  {
  }

  lemma PairSums(rels: seq<Rel>, t: seq<byte>, i: nat, j: nat, w: nat)
    requires AddSubPair(rels, i, j, w) && rels[i].at + w <= |t|
    ensures var x := Wrap(Summed(rels[i].kind, rels[i].value, Old(rels, t, i, w)), w);
            Wrap(Summed(rels[j].kind, rels[j].value, x), w) == Wrap(Old(rels, t, i, w) + (Added(rels, i, j) - Subtracted(rels, i, j)), w)
            <==> w != 1 || HalfTurn(rels, t, i, j)
  {
    hide Old, Wrap, Clear, Summed;
    if rels[i].kind.Add? {
      AddThenSub(Old(rels, t, i, w), rels[i].value, rels[j].value, w);
    } else {
      SubThenAdd(Old(rels, t, i, w), rels[j].value, rels[i].value, w);
    }
  }

  lemma AddThenSub(x: int, a: int, b: int, w: nat)
    ensures Wrap(Summed(Sub(w), b, Wrap(Summed(Add(w), a, x), w)), w) == Wrap(x + (a - b), w)
            <==> w != 1 || 2 * (x + a - b) % 256 == 0
  {
    hide Wrap;
    if w != 1 {
      WrapAdd(x, a, -b, w);
    } else {
      WrapNegated(x + a, b, 1);
      ByteSums(b - (x + a), x + (a - b), 2 * (x + a - b));
    }
  }

  lemma SubThenAdd(x: int, a: int, b: int, w: nat)
    ensures Wrap(Summed(Add(w), a, Wrap(Summed(Sub(w), b, x), w)), w) == Wrap(x + (a - b), w)
            <==> w != 1 || 2 * (x - b) % 256 == 0
  {
    hide Wrap;
    if w != 1 {
      WrapAdd(x, -b, a, w);
    } else {
      WrapAdd(0, b - x, a, 1);
      ByteSums(b - x + a, x + (a - b), 2 * (x - b));
    }
  }

  lemma ByteSums(x: int, y: int, d: int)
    requires y - x == d
    ensures Wrap(x, 1) == Wrap(y, 1) <==> d % 256 == 0
  {
    Powers();
    if d % 256 == 0 {
      ModShift(y, x, 256);
    } else if Wrap(x, 1) == Wrap(y, 1) {
      SameRemainder(y, x, 256);
    }
  }

  // A byte that is to hold the distance 1 of two labels comes out as 255.
  lemma ByteDifferenceFails(org: nat)
    ensures var rels := [Rel(Add(1), 0, 1), Rel(Sub(1), 0, 0)];
            && Valid(rels, 1) && AddSubPair(rels, 0, 1, 1)
            && Relocate(org, rels, 2, [0]).Some? && WordAt(Result(org, rels, [0]), 0, 1) == 255
  {
    var rels := [Rel(Add(1), 0, 1), Rel(Sub(1), 0, 0)];
    ByteRun(org, rels);
    hide Relocate;
    AddSubWord(org, rels, [0], 0, 1, 1);
    Powers();
    assert WordAt([0], 0, 1) == 0;
  }

  lemma ByteRun(org: nat, rels: seq<Rel>)
    requires rels == [Rel(Add(1), 0, 1), Rel(Sub(1), 0, 0)]
    ensures Valid(rels, 1) && Relocate(org, rels, 2, [0]).Some?
  {
    hide Simple;
    assert Relocate(org, rels, 0, [0]).Some?;
    assert Relocate(org, rels, 1, [0]).Some?;
  }

  lemma WrapNegated(x: int, b: int, w: nat)
    ensures Wrap(b - Wrap(x, w), w) == Wrap(b - x, w)
  {
    ModIdempotent(x, Pow256(w));
    NegatedModulo(x % Pow256(w) - x, Pow256(w));
    assert (b - x % Pow256(w)) - (b - x) == -(x % Pow256(w) - x);
    ModShift(b - x % Pow256(w), b - x, Pow256(w));
  }

  lemma NegatedModulo(x: int, m: int)
    requires m > 0 && x % m == 0
    ensures -x % m == 0
  {
    Align.DivMod(x, m);
    Align.MultipleHasNoRemainder(-(x / m), m);
    assert -(x / m) * m == -x;
  }

  // The run stops exactly at a relocation whose target is out of the signed 32-bit range,
  // whose HI20 is missing, or whose type is not known.
  ghost predicate Passes(org: nat, rels: seq<Rel>, j: nat)
    requires j < |rels|
  {
    match rels[j].kind
    case Unknown => false
    case PcrelHi20 => FitsInt32(Offset(org, rels[j]))
    case Call => FitsInt32(Offset(org, rels[j]))
    case PcrelLo12I => exists i :: 0 <= i < j && rels[i].kind == PcrelHi20 && org + rels[i].at == rels[j].value
    case PcrelLo12S => exists i :: 0 <= i < j && rels[i].kind == PcrelHi20 && org + rels[i].at == rels[j].value
    case _ => true
  }

  lemma StepPasses(org: nat, rels: seq<Rel>, j: nat, t: seq<byte>)
    requires j < |rels| && rels[j].at + Size(rels[j].kind) <= |t|
    ensures Step(org, rels, j, t).Some? <==> Passes(org, rels, j)
  {
    hide Store, PatchUpper, PatchLowI, PatchLowS, Insn, Simple, FitsInt32;
  }

  lemma {:induction false} RelocateStopsIff(org: nat, rels: seq<Rel>, n: nat, t: seq<byte>)
    requires n <= |rels| && Valid(rels, |t|)
    ensures Relocate(org, rels, n, t).Some? <==> forall j :: 0 <= j < n ==> Passes(org, rels, j)
    decreases n
  {
    hide Step, Passes;
    if n > 0 {
      RelocateStopsIff(org, rels, n - 1, t);
      if Relocate(org, rels, n - 1, t).Some? { StepPasses(org, rels, n - 1, Relocate(org, rels, n - 1, t).value); }
    }
  }

  // The loop of relocate_addrs over one relocation section.
  method RelocateSection(org: nat, rels: seq<Rel>, text: seq<byte>) returns (ok: bool, t: seq<byte>)
    requires Valid(rels, |text|)
    ensures ok == Relocate(org, rels, |rels|, text).Some?
    ensures ok ==> t == Relocate(org, rels, |rels|, text).value
  {
    hide Step, Relocate, Size;
    RelocateNext(org, rels, 0, text);
    t := text;
    for j := 0 to |rels|
      invariant Relocate(org, rels, j, text) == Some(t)
    {
      RelocateNext(org, rels, j, text);
      var next := RelocateOne(org, rels, j, t);
      if next.None? {
        RelocateNone(org, rels, j + 1, |rels|, text);
        return false, t;
      }
      t := next.value;
    }
    ok := true;
  }

  lemma RelocateNext(org: nat, rels: seq<Rel>, j: nat, t: seq<byte>)
    requires j <= |rels| && Reachable(rels, |t|)
    ensures Relocate(org, rels, 0, t) == Some(t)
    ensures j < |rels| && Relocate(org, rels, j, t).Some? ==>
              Relocate(org, rels, j + 1, t) == Step(org, rels, j, Relocate(org, rels, j, t).value)
  {
    hide Step, Size;
  }

  method RelocateOne(org: nat, rels: seq<Rel>, j: nat, t: seq<byte>) returns (next: Option<seq<byte>>)
    requires j < |rels| && rels[j].at + Size(rels[j].kind) <= |t|
    ensures next == Step(org, rels, j, t)
  {
    hide Store, PatchUpper, PatchLowI, PatchLowS, Insn, Simple, FitsInt32;
    var r := rels[j];
    var off := Offset(org, r);
    match r.kind {
      case Unknown => return None;
      case PcrelHi20 =>
        if !FitsInt32(off) { return None; }
        next := Some(Store(t, r.at, 4, PatchUpper(Insn(t, r.at), off)));
      case Call =>
        if !FitsInt32(off) { return None; }
        var t1 := Store(t, r.at, 4, PatchUpper(Insn(t, r.at), off));
        next := Some(Store(t1, r.at + 4, 4, PatchLowI(Insn(t1, r.at + 4), off)));
      case PcrelLo12I =>
        var i := SearchBack(org, rels, j);
        next := if i.None? then None else Some(Store(t, r.at, 4, PatchLowI(Insn(t, r.at), Offset(org, rels[i.value]))));
      case PcrelLo12S =>
        var i := SearchBack(org, rels, j);
        next := if i.None? then None else Some(Store(t, r.at, 4, PatchLowS(Insn(t, r.at), Offset(org, rels[i.value]))));
      case _ => next := Some(Simple(org, r, t));
    }
  }

  method SearchBack(org: nat, rels: seq<Rel>, j: nat) returns (i: Option<nat>)
    requires j < |rels|
    ensures i == FindHi20(org, rels, j, rels[j].value)
  {
    var k: nat := j;
    while k > 0
      invariant k <= j && FindHi20(org, rels, j, rels[j].value) == FindHi20(org, rels, k, rels[j].value)
    {
      if rels[k - 1].kind == PcrelHi20 && org + rels[k - 1].at == rels[j].value {
        return Some(k - 1);
      }
      k := k - 1;
    }
    i := None;
  }

  lemma {:induction false} RelocateNone(org: nat, rels: seq<Rel>, m: nat, n: nat, t: seq<byte>)
    requires m <= n <= |rels| && Reachable(rels, |t|) && Relocate(org, rels, m, t).None?
    ensures Relocate(org, rels, n, t).None?
    decreases n - m
  {
    hide Step;
    if m < n {
      RelocateNone(org, rels, m + 1, n, t);
    }
  }
}
