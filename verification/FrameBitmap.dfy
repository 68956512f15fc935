/** The physical frame allocator of kernel/memory.c: one bit per 4096-byte frame, kept in
    32-bit words, with first-fit search.  The words refine a set of used frame numbers. */
module FrameBitmap {
  import opened Options

  const PAGE_SIZE: nat := 4096

  /* ---- one word ---- */

  // 0x1 << j
  function Weight(j: nat): bv32 {
    if j == 0 then 1 else Weight(j - 1) << 1
  }

  lemma TopWeight()
    ensures Weight(31) == 0x8000_0000
  {
    assert Weight(8) == 0x100;
    assert Weight(16) == 0x1_0000;
    assert Weight(24) == 0x100_0000;
  }

  lemma {:induction false} WeightsStayZero(j: nat, k: nat)
    requires j <= k && Weight(j) == 0
    ensures Weight(k) == 0
  {
    if j < k { WeightsStayZero(j, k - 1); }
  }

  lemma WeightNonzero(j: nat)
    requires j < 32
    ensures Weight(j) != 0
  {
    TopWeight();
    if Weight(j) == 0 { WeightsStayZero(j, 31); }
  }

  function And(a: bv32, b: bv32): bv32 { a & b }
  function Or(a: bv32, b: bv32): bv32 { a | b }
  function AndNot(a: bv32, b: bv32): bv32 { a & !b }

  predicate Bit(w: bv32, j: nat) { And(w, Weight(j)) != 0 }
  function WithBit(w: bv32, j: nat): bv32 { Or(w, Weight(j)) }
  function WithoutBit(w: bv32, j: nat): bv32 { AndNot(w, Weight(j)) }

  lemma ShiftedAnd(a: bv32, b: bv32)
    ensures And(a << 1, b << 1) == And(a, b) << 1
    ensures And(1, a << 1) == 0
    ensures And(a, b << 1) == And(a >> 1, b) << 1
  {
  }

  lemma {:induction false} WeightsDisjoint(j: nat, k: nat)
    requires j < k
    ensures And(Weight(j), Weight(k)) == 0
  {
    hide And;
    if j == 0 {
      ShiftedAnd(Weight(k - 1), 0);
    } else {
      WeightsDisjoint(j - 1, k - 1);
      ShiftedAnd(Weight(j - 1), Weight(k - 1));
    }
  }

  // A weight has only one bit: and-ing with it gives all of it or nothing.
  lemma {:induction false} OneBit(x: bv32, j: nat)
    ensures AllOrNone(x, Weight(j))
    decreases j
  {
    hide And, AllOrNone;
    if j == 0 {
      AndOne(x);
    } else {
      OneBit(x >> 1, j - 1);
      ShiftedUp(x, Weight(j - 1));
    }
  }

  predicate AllOrNone(x: bv32, m: bv32) { And(x, m) == 0 || And(x, m) == m }

  lemma AndOne(x: bv32)
    ensures AllOrNone(x, 1)
  {
  }

  lemma ShiftedUp(x: bv32, m: bv32)
    requires AllOrNone(x >> 1, m)
    ensures AllOrNone(x, m << 1)
  {
    if And(x >> 1, m) == 0 {
      ShiftedNone(x, m);
    } else {
      ShiftedAll(x, m);
    }
  }

  lemma ShiftedNone(x: bv32, m: bv32)
    requires And(x >> 1, m) == 0
    ensures And(x, m << 1) == 0
  {
  }

  lemma ShiftedAll(x: bv32, m: bv32)
    requires And(x >> 1, m) == m
    ensures And(x, m << 1) == m << 1
  {
  }

  lemma OrElsewhere(w: bv32, m: bv32, n: bv32)
    requires And(m, n) == 0
    ensures And(Or(w, m), n) == And(w, n)
  {
  }

  lemma OrThere(w: bv32, m: bv32)
    ensures And(Or(w, m), m) == m
  {
  }

  lemma ClearElsewhere(w: bv32, m: bv32, n: bv32)
    requires And(m, n) == 0
    ensures And(AndNot(w, m), n) == And(w, n)
  {
    assert (w & !m) & n == w & (!m & n);
    assert !m & n == n;
  }

  lemma ClearThere(w: bv32, m: bv32)
    ensures And(AndNot(w, m), m) == 0
  {
  }

  lemma AndCommutes(a: bv32, b: bv32)
    ensures And(a, b) == And(b, a)
  {
  }

  lemma OtherBit(w: bv32, j: nat, k: nat)
    requires j != k
    ensures Bit(WithBit(w, j), k) <==> Bit(w, k)
    ensures Bit(WithoutBit(w, j), k) <==> Bit(w, k)
  {
    hide Weight, And, Or, AndNot;
    if j < k {
      WeightsDisjoint(j, k);
    } else {
      WeightsDisjoint(k, j);
      AndCommutes(Weight(k), Weight(j));
    }
    OrElsewhere(w, Weight(j), Weight(k));
    ClearElsewhere(w, Weight(j), Weight(k));
  }

  lemma SameBit(w: bv32, j: nat)
    requires j < 32
    ensures Bit(WithBit(w, j), j) && !Bit(WithoutBit(w, j), j)
  {
    hide Weight, And, Or, AndNot;
    WeightNonzero(j);
    OrThere(w, Weight(j));
    ClearThere(w, Weight(j));
  }

  // The n lowest bits.
  function Low(n: nat): bv32 {
    if n == 0 then 0 else Or(Low(n - 1), Weight(n - 1))
  }

  lemma AllLow()
    ensures Low(32) == 0xFFFF_FFFF
  {
    assert Low(4) == 0xF;
    assert Low(8) == 0xFF;
    assert Low(12) == 0xFFF;
    assert Low(16) == 0xFFFF;
    assert Low(20) == 0xF_FFFF;
    assert Low(24) == 0xFF_FFFF;
    assert Low(28) == 0xFFF_FFFF;
  }

  lemma AndOr(w: bv32, a: bv32, b: bv32)
    requires And(w, a) == a && And(w, b) == b
    ensures And(w, Or(a, b)) == Or(a, b)
  {
  }

  lemma AndZero(w: bv32)
    ensures And(w, 0) == 0
  {
  }

  lemma {:induction false} LowBitsSet(w: bv32, n: nat)
    requires forall k :: 0 <= k < n ==> Bit(w, k)
    ensures And(w, Low(n)) == Low(n)
  {
    hide Weight, And, Or;
    AndZero(w);
    if n > 0 {
      LowBitsSet(w, n - 1);
      OneBit(w, n - 1);
      assert Bit(w, n - 1);
      AndOr(w, Low(n - 1), Weight(n - 1));
    }
  }

  // The test that lets the search skip a whole word is exact.
  lemma FullWord(w: bv32)
    ensures w == 0xFFFF_FFFF <==> forall k :: 0 <= k < 32 ==> Bit(w, k)
  {
    hide Weight, Low, Bit, And;
    if w == 0xFFFF_FFFF {
      forall k | 0 <= k < 32 ensures Bit(w, k) {
        OnesHaveBit(k);
      }
    }
    if forall k :: 0 <= k < 32 ==> Bit(w, k) {
      LowBitsSet(w, 32);
      AllLow();
      AllOnes(w);
    }
  }

  lemma AllOnes(w: bv32)
    requires And(w, 0xFFFF_FFFF) == 0xFFFF_FFFF
    ensures w == 0xFFFF_FFFF
  {
  }

  lemma OnesHaveBit(k: nat)
    requires k < 32
    ensures Bit(0xFFFF_FFFF, k)
  {
    WeightNonzero(k);
    hide Weight, And;
    AndOnes(Weight(k));
  }

  lemma AndOnes(m: bv32)
    ensures And(0xFFFF_FFFF, m) == m
  {
  }

  /* ---- the bitmap as a set ---- */

  predicate Taken(words: seq<bv32>, frame: nat)
    requires frame < 32 * |words|
  {
    Bit(words[frame / 32], frame % 32)
  }

  // The used frame numbers that the words stand for.
  ghost function Used(words: seq<bv32>): (r: set<nat>)
    ensures forall i: nat :: i in r <==> i < 32 * |words| && Taken(words, i)
  {
    UsedBelow(words, 32 * |words|)
  }

  ghost function UsedBelow(words: seq<bv32>, n: nat): (r: set<nat>)
    requires n <= 32 * |words|
    ensures forall i: nat :: i in r <==> i < n && Taken(words, i)
  {
    if n == 0 then {} else UsedBelow(words, n - 1) + if Taken(words, n - 1) then {n - 1} else {}
  }

  function SetBit(words: seq<bv32>, frame: nat): seq<bv32>
    requires frame < 32 * |words|
  {
    words[frame / 32 := WithBit(words[frame / 32], frame % 32)]
  }

  function ClearBit(words: seq<bv32>, frame: nat): seq<bv32>
    requires frame < 32 * |words|
  {
    words[frame / 32 := WithoutBit(words[frame / 32], frame % 32)]
  }

  lemma BitMeaning(words: seq<bv32>, frame: nat, i: nat)
    requires frame < 32 * |words| && i < 32 * |words|
    ensures Taken(SetBit(words, frame), i) <==> i == frame || Taken(words, i)
    ensures Taken(ClearBit(words, frame), i) <==> i != frame && Taken(words, i)
  {
    hide Bit, WithBit, WithoutBit;
    if i % 32 == frame % 32 {
      SameBit(words[frame / 32], frame % 32);
    } else {
      OtherBit(words[frame / 32], frame % 32, i % 32);
    }
    assert i == 32 * (i / 32) + i % 32 && frame == 32 * (frame / 32) + frame % 32;
  }

  lemma SetAddsOne(words: seq<bv32>, frame: nat)
    requires frame < 32 * |words|
    ensures Used(SetBit(words, frame)) == Used(words) + {frame}
  {
    hide Taken;
    forall i: nat | i < 32 * |words|
      ensures Taken(SetBit(words, frame), i) <==> i == frame || Taken(words, i)
    {
      BitMeaning(words, frame, i);
    }
  }

  lemma ClearRemovesOne(words: seq<bv32>, frame: nat)
    requires frame < 32 * |words|
    ensures Used(ClearBit(words, frame)) == Used(words) - {frame}
  {
    hide Taken;
    forall i: nat | i < 32 * |words|
      ensures Taken(ClearBit(words, frame), i) <==> i != frame && Taken(words, i)
    {
      BitMeaning(words, frame, i);
    }
  }

  // `frame` is the lowest frame number not in `used`, among the first n.
  ghost predicate IsLowestFree(used: set<nat>, n: nat, frame: nat) {
    frame < n && frame !in used && forall i: nat :: i < frame ==> i in used
  }

  ghost predicate IsFull(used: set<nat>, n: nat) {
    forall i: nat :: i < n ==> i in used
  }

  /* ---- the allocator ---- */

  class Allocator {
    const frames: array<bv32>

    constructor (frames: array<bv32>)
      ensures this.frames == frames
    {
      this.frames := frames;
    }

    method SetFrame(addr: nat)
      requires addr / PAGE_SIZE < 32 * frames.Length
      modifies frames
      ensures frames[..] == SetBit(old(frames[..]), addr / PAGE_SIZE)
      ensures Used(frames[..]) == Used(old(frames[..])) + {addr / PAGE_SIZE}
    {
      hide Used, WithBit, WithoutBit;
      SetAddsOne(frames[..], addr / PAGE_SIZE);
      var frame := addr / PAGE_SIZE;
      frames[frame / 32] := WithBit(frames[frame / 32], frame % 32);
    }

    method ClearFrame(addr: nat)
      requires addr / PAGE_SIZE < 32 * frames.Length
      modifies frames
      ensures frames[..] == ClearBit(old(frames[..]), addr / PAGE_SIZE)
      ensures Used(frames[..]) == Used(old(frames[..])) - {addr / PAGE_SIZE}
    {
      hide Used, WithBit, WithoutBit;
      ClearRemovesOne(frames[..], addr / PAGE_SIZE);
      var frame := addr / PAGE_SIZE;
      frames[frame / 32] := WithoutBit(frames[frame / 32], frame % 32);
    }

    method TestFrame(addr: nat) returns (bit: bv32)
      requires addr / PAGE_SIZE < 32 * frames.Length
      ensures bit != 0 <==> addr / PAGE_SIZE in Used(frames[..])
    {
      hide UsedBelow, And, Weight;
      var frame := addr / PAGE_SIZE;
      bit := And(frames[frame / 32], Weight(frame % 32));
      assert bit != 0 <==> Taken(frames[..], frame);
    }

    // The search: whole words are skipped when full, then the bits of the first other one
    // are tried in order.  None is (uint32_t)-1.
    method FirstFreeFrame() returns (r: Option<nat>)
      ensures r.Some? ==> IsLowestFree(Used(frames[..]), 32 * frames.Length, r.value)
      ensures r.None? ==> IsFull(Used(frames[..]), 32 * frames.Length)
    {
      hide UsedBelow, Bit, Taken;
      var i := 0;
      while i < frames.Length
        invariant 0 <= i <= frames.Length
        invariant forall k: nat :: k < 32 * i ==> Taken(frames[..], k)
      {
        FullWord(frames[i]);
        if frames[i] != 0xFFFF_FFFF {
          var j := 0;
          while j < 32
            invariant 0 <= j <= 32
            invariant forall k: nat :: k < j ==> Bit(frames[i], k)
            invariant forall k: nat :: k < 32 * i + j ==> Taken(frames[..], k)
          {
            WordBit(frames[..], i, j);
            if !Bit(frames[i], j) {
              return Some(i * 32 + j);
            }
            j := j + 1;
          }
          assert false;
        }
        forall k: nat | k < 32 * (i + 1) ensures Taken(frames[..], k) {
          if k >= 32 * i { WordBit(frames[..], i, k - 32 * i); }
        }
        i := i + 1;
      }
      r := None;
    }

    // A null pointer when nothing is free, otherwise the lowest free frame's address, which
    // is a null pointer as well when that frame is frame 0.
    method AllocFrame() returns (addr: nat)
      modifies frames
      ensures var used, n := old(Used(frames[..])), 32 * frames.Length;
              if IsFull(used, n) then
                addr == 0 && frames[..] == old(frames[..])
              else
                && addr % PAGE_SIZE == 0
                && IsLowestFree(used, n, addr / PAGE_SIZE)
                && frames[..] == SetBit(old(frames[..]), addr / PAGE_SIZE)
                && Used(frames[..]) == used + {addr / PAGE_SIZE}
    {
      hide Used, SetBit;
      var r := FirstFreeFrame();
      match r {
        case None => return 0;
        case Some(index) =>
          assert !IsFull(Used(frames[..]), 32 * frames.Length);
          FrameAddress(index);
          SetFrame(index * PAGE_SIZE);
          return index * PAGE_SIZE;
      }
    }

    method FreeFrame(addr: nat)
      requires addr / PAGE_SIZE < 32 * frames.Length
      modifies frames
      ensures Used(frames[..]) == Used(old(frames[..])) - {addr / PAGE_SIZE}
    {
      ClearFrame(addr);
    }
  }

  lemma FrameAddress(index: nat)
    ensures index * PAGE_SIZE % PAGE_SIZE == 0 && index * PAGE_SIZE / PAGE_SIZE == index
  {
  }

  lemma WordBit(words: seq<bv32>, i: nat, j: nat)
    requires i < |words| && j < 32
    ensures Taken(words, 32 * i + j) <==> Bit(words[i], j)
  {
    hide Bit;
    assert (32 * i + j) / 32 == i && (32 * i + j) % 32 == j;
  }

  /* ---- runs ---- */

  // A client call: ask for a frame, or give back the k-th frame it was given.
  datatype Call = Alloc | Free(k: nat)

  // What a client sees: every frame it was ever given (None when refused), and which of
  // them it still holds.
  datatype Client = Client(given: seq<Option<nat>>, held: set<nat>)

  ghost function HeldFrames(c: Client): set<nat> {
    set k | k in c.held && k < |c.given| && c.given[k].Some? :: c.given[k].value
  }

  // No frame is held twice, and the used frames are those that were reserved at the start
  // and those held now.
  ghost predicate Accounts(c: Client, reserved: set<nat>, used: set<nat>) {
    && (forall k :: k in c.held ==> k < |c.given| && c.given[k].Some?)
    && (forall j, k :: j in c.held && k in c.held && j != k ==> c.given[j] != c.given[k])
    && HeldFrames(c) !! reserved
    && used == reserved + HeldFrames(c)
  }

  // One call against a set of used frames.
  ghost predicate Step(call: Call, n: nat, c: Client, used: set<nat>, c': Client, used': set<nat>) {
    match call
    case Alloc =>
      if IsFull(used, n) then
        used' == used && c' == c.(given := c.given + [None])
      else
        exists f :: IsLowestFree(used, n, f) && used' == used + {f}
          && c' == Client(c.given + [Some(f)], c.held + {|c.given|})
    case Free(k) =>
      && k in c.held && k < |c.given| && c.given[k].Some?
      && used' == used - {c.given[k].value} && c' == c.(held := c.held - {k})
  }

  lemma StepKeepsAccounts(call: Call, n: nat, c: Client, used: set<nat>, c': Client, used': set<nat>, reserved: set<nat>)
    requires Accounts(c, reserved, used) && Step(call, n, c, used, c', used')
    ensures Accounts(c', reserved, used')
    ensures |c'.given| >= |c.given|
    ensures forall k :: k in c.held && k in c'.held ==> c'.given[k] == c.given[k]
  {
    match call
    case Alloc =>
      if !IsFull(used, n) {
        GrantKeepsAccounts(n, c, used, c', used', reserved);
      } else {
        assert HeldFrames(c') == HeldFrames(c);
      }
    case Free(k) =>
      var f := c.given[k].value;
      forall x ensures x in HeldFrames(c') <==> x in HeldFrames(c) && x != f {
        if x in HeldFrames(c) && x != f {
          var j :| j in c.held && j < |c.given| && c.given[j].Some? && c.given[j].value == x;
          assert j in c'.held;
        }
        if x in HeldFrames(c') {
          var j :| j in c'.held && j < |c'.given| && c'.given[j].Some? && c'.given[j].value == x;
          assert j in c.held && j != k;
        }
      }
      assert f in HeldFrames(c);
      assert HeldFrames(c') == HeldFrames(c) - {f};
  }

  lemma GrantKeepsAccounts(n: nat, c: Client, used: set<nat>, c': Client, used': set<nat>, reserved: set<nat>)
    requires Accounts(c, reserved, used) && Step(Alloc, n, c, used, c', used') && !IsFull(used, n)
    ensures Accounts(c', reserved, used')
  {
    var f :| IsLowestFree(used, n, f) && used' == used + {f}
      && c' == Client(c.given + [Some(f)], c.held + {|c.given|});
    forall x ensures x in HeldFrames(c') <==> x in HeldFrames(c) || x == f {
      if x in HeldFrames(c) {
        var j :| j in c.held && j < |c.given| && c.given[j].Some? && c.given[j].value == x;
        assert j in c'.held && c'.given[j] == c.given[j];
      }
      if x == f {
        assert |c.given| in c'.held && c'.given[|c.given|] == Some(f);
      }
    }
    assert HeldFrames(c') == HeldFrames(c) + {f};
    forall j | j in c.held ensures c.given[j] != Some(f) {
      assert c.given[j].value in HeldFrames(c);
    }
  }

  // A whole run: the calls, and the states between them.
  datatype Trace = Trace(calls: seq<Call>, clients: seq<Client>, used: seq<set<nat>>)

  ghost predicate IsRun(t: Trace, n: nat, reserved: set<nat>) {
    && |t.clients| == |t.used| == |t.calls| + 1
    && t.clients[0] == Client([], {}) && t.used[0] == reserved
    && forall i :: 0 <= i < |t.calls| ==>
         Step(t.calls[i], n, t.clients[i], t.used[i], t.clients[i + 1], t.used[i + 1])
  }

  // In every run of allocations and releases, at every moment, no two frames still held are
  // the same, none of them was reserved, and the used set is exactly reserved and held; so a
  // frame handed out is the lowest one that is neither reserved nor held, and allocation is
  // refused only when all n are.
  lemma {:induction false} RunsNeverShareFrames(t: Trace, n: nat, reserved: set<nat>, i: nat)
    requires IsRun(t, n, reserved) && i <= |t.calls|
    ensures Accounts(t.clients[i], reserved, t.used[i])
    ensures i < |t.calls| && t.calls[i].Alloc? ==>
              var r := t.clients[i + 1].given[|t.clients[i].given|];
              match r {
                case Some(f) => IsLowestFree(reserved + HeldFrames(t.clients[i]), n, f)
                case None => IsFull(reserved + HeldFrames(t.clients[i]), n)
              }
  {
    hide HeldFrames, IsLowestFree, IsFull;
    if i > 0 {
      RunsNeverShareFrames(t, n, reserved, i - 1);
      StepKeepsAccounts(t.calls[i - 1], n, t.clients[i - 1], t.used[i - 1], t.clients[i], t.used[i], reserved);
    } else {
      assert HeldFrames(t.clients[0]) == {} by { NothingHeld(); }
    }
    if i < |t.calls| {
      assert Step(t.calls[i], n, t.clients[i], t.used[i], t.clients[i + 1], t.used[i + 1]);
    }
  }

  lemma NothingHeld()
    ensures HeldFrames(Client([], {})) == {}
  {
  }

  // The bitmap carries out the calls of any client, up to the first release of something
  // the client does not hold: what it does is a run.  Frame 0 is taken at the start, so that
  // a null pointer can only mean a refusal.
  method Serve(a: Allocator, calls: seq<Call>) returns (given: seq<Option<nat>>, ghost t: Trace)
    requires 0 in Used(a.frames[..])
    modifies a.frames
    ensures t.calls <= calls && IsRun(t, 32 * a.frames.Length, old(Used(a.frames[..])))
    ensures given == t.clients[|t.calls|].given
    ensures Used(a.frames[..]) == t.used[|t.calls|]
    ensures |t.calls| < |calls| ==> calls[|t.calls|].Free? && calls[|t.calls|].k !in t.clients[|t.calls|].held
  {
    hide Used, HeldFrames, Accounts, IsLowestFree, IsFull;
    given := [];
    var held: set<nat> := {};
    var i := 0;
    ghost var reserved, n := Used(a.frames[..]), 32 * a.frames.Length;
    t := Trace([], [Client([], {})], [reserved]);
    while i < |calls|
      invariant i <= |calls| && t.calls == calls[..i] && IsRun(t, n, reserved)
      invariant t.clients[i] == Client(given, held) && t.used[i] == Used(a.frames[..])
      invariant 0 in reserved
    {
      RunsNeverShareFrames(t, n, reserved, i);
      if calls[i].Free? && calls[i].k !in held { return; }
      given, held := ServeOne(a, calls[i], given, held, reserved);
      t := Trace(calls[..i + 1], t.clients + [Client(given, held)], t.used + [Used(a.frames[..])]);
      i := i + 1;
    }
  }

  method ServeOne(a: Allocator, call: Call, given: seq<Option<nat>>, held: set<nat>, ghost reserved: set<nat>)
    returns (given': seq<Option<nat>>, held': set<nat>)
    requires Accounts(Client(given, held), reserved, Used(a.frames[..])) && 0 in reserved
    requires call.Free? ==> call.k in held
    modifies a.frames
    ensures Step(call, 32 * a.frames.Length, Client(given, held), old(Used(a.frames[..])), Client(given', held'), Used(a.frames[..]))
  {
    hide Used, IsLowestFree, IsFull;
    ghost var used, n := Used(a.frames[..]), 32 * a.frames.Length;
    match call {
      case Alloc =>
        var addr := a.AllocFrame();
        if addr == 0 {
          NullMeansFull(used, n);
          given', held' := given + [None], held;
        } else {
          given', held' := given + [Some(addr / PAGE_SIZE)], held + {|given|};
        }
      case Free(k) =>
        assert given[k].value in HeldFrames(Client(given, held));
        FrameAddress(given[k].value);
        a.FreeFrame(given[k].value * PAGE_SIZE);
        given', held' := given, held - {k};
    }
  }

  lemma NullMeansFull(used: set<nat>, n: nat)
    requires 0 in used
    ensures !IsLowestFree(used, n, 0)
  {
  }
}
