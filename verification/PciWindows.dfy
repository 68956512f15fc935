/** The three PCI memory windows of the Bonito 2F bridge, grub/grub-core/bus/bonito.c:
    reference-counted, shared when a request fits a window in use, otherwise opened anew.
    Addresses are 32-bit and sums wrap; or-ing bits that are clear is written as addition. */
module PciWindows {
  import opened Options

  const WRAP: nat := 0x1_0000_0000
  const WINDOW: nat := 0x0400_0000
  const CACHE_BIT: nat := 0x2000_0000
  const COUNT: nat := 3

  // addr_win and sizes_win
  function AddrOf(w: nat): nat
    requires w < COUNT
  {
    if w == 0 then 0xb000_0000 else if w == 1 then 0xb400_0000 else 0xb800_0000
  }

  function SizeOf(w: nat): nat
    requires w < COUNT
  {
    if w == 0 then 0x03f0_0000 else 0x0400_0000
  }

  function Add32(a: nat, b: nat): nat { (a + b) % WRAP }
  function Offset(a: nat): nat { a % WINDOW }
  function PageBase(a: nat): nat { a - a % WINDOW }

  // mem | 0x20000000 and mem & ~0x20000000
  function Uncached(mem: nat): nat { if mem / CACHE_BIT % 2 == 0 then mem + CACHE_BIT else mem }
  function Cached(mem: nat): nat { if mem / CACHE_BIT % 2 == 0 then mem else mem - CACHE_BIT }

  // base_win, usage_win and the bridge's window register.
  datatype Windows = Windows(base: seq<nat>, usage: seq<nat>, register: nat)

  predicate Shaped(s: Windows) { |s.base| == |s.usage| == COUNT }

  // write_bases_2f: six bits of each base, packed.
  function Field(base: nat): nat { base / WINDOW % 64 }
  function Register(base: seq<nat>): nat
    requires |base| == COUNT
  {
    Field(base[0]) + Field(base[1]) * 64 + Field(base[2]) * 4096
  }

  /* ---- the processor's view ---- */

  function FieldOf(register: nat, w: nat): nat
    requires w < COUNT
  {
    if w == 0 then register % 64 else if w == 1 then register / 64 % 64 else register / 4096 % 64
  }

  function WindowAt(mem: nat): (w: Option<nat>)
    ensures w.Some? ==> w.value < COUNT && AddrOf(w.value) == PageBase(Uncached(mem))
    ensures forall v: nat :: v < COUNT && AddrOf(v) == PageBase(Uncached(mem)) ==> w == Some(v)
  {
    var a := PageBase(Uncached(mem));
    if a == AddrOf(0) then Some(0) else if a == AddrOf(1) then Some(1) else if a == AddrOf(2) then Some(2) else None
  }

  // The bus address that a load or store at `mem` goes to.
  function BusAddress(register: nat, mem: nat): Option<nat> {
    match WindowAt(mem)
    case None => None
    case Some(w) => Some(FieldOf(register, w) * WINDOW + Offset(mem))
  }

  /* ---- choosing a window ---- */

  predicate Holds(windowBase: nat, w: nat, base: nat, size: nat)
    requires w < COUNT
  {
    windowBase <= base && Add32(windowBase, SizeOf(w)) > Add32(base, size)
  }

  predicate Shareable(s: Windows, w: nat, base: nat, size: nat)
    requires Shaped(s) && w < COUNT
  {
    s.usage[w] != 0 && Holds(s.base[w], w, base, size)
  }

  predicate Openable(s: Windows, w: nat, base: nat, size: nat)
    requires Shaped(s) && w < COUNT
  {
    s.usage[w] == 0 && Holds(PageBase(base), w, base, size)
  }

  // The state after mapping through window w.
  function Shared(s: Windows, w: nat): Windows
    requires Shaped(s) && w < COUNT
  {
    s.(usage := s.usage[w := s.usage[w] + 1])
  }

  function Opened(s: Windows, w: nat, base: nat): Windows
    requires Shaped(s) && w < COUNT
  {
    var bases := s.base[w := PageBase(base)];
    Windows(bases, s.usage[w := s.usage[w] + 1], Register(bases))
  }

  function Released(s: Windows, w: nat): Windows
    requires Shaped(s) && w < COUNT && s.usage[w] > 0
  {
    s.(usage := s.usage[w := s.usage[w] - 1])
  }

  // The window taken: the first in use that holds the range, otherwise the first unused one.
  ghost predicate Takes(s: Windows, base: nat, size: nat, w: nat, s': Windows)
    requires Shaped(s)
  {
    && w < COUNT
    && if exists v: nat :: v < COUNT && Shareable(s, v, base, size) then
         && Shareable(s, w, base, size) && (forall v: nat :: v < w ==> !Shareable(s, v, base, size))
         && s' == Shared(s, w)
       else
         && Openable(s, w, base, size) && (forall v: nat :: v < w ==> !Openable(s, v, base, size))
         && s' == Opened(s, w, base)
  }

  function Handle(w: nat, base: nat): nat
    requires w < COUNT
  {
    AddrOf(w) + Offset(base)
  }

  /* ---- the bridge ---- */

  class Bridge {
    const base: array<nat>
    const usage: array<nat>
    var register: nat

    constructor (base: array<nat>, usage: array<nat>)
      ensures this.base == base && this.usage == usage
    {
      this.base, this.usage := base, usage;
    }

    ghost predicate Valid()
      reads this, base, usage
    {
      base != usage && Shaped(Now())
    }

    ghost function Now(): Windows
      reads this, base, usage
    {
      Windows(base[..], usage[..], register)
    }

    method WriteBases()
      requires Valid()
      modifies this
      ensures Now() == old(Now()).(register := Register(base[..]))
    {
      var reg, scale, i := 0, 1, 0;
      while i < COUNT
        invariant i <= COUNT
        invariant scale == (if i == 0 then 1 else if i == 1 then 64 else if i == 2 then 4096 else 262144)
        invariant reg == (if i > 0 then Field(base[0]) else 0) + (if i > 1 then Field(base[1]) * 64 else 0)
                       + (if i > 2 then Field(base[2]) * 4096 else 0)
      {
        hide Field;
        reg := reg + Field(base[i]) * scale;
        scale := scale * 64;
        i := i + 1;
      }
      register := reg;
    }

    // None: no window is left, a fatal error.
    method MapRange(addr: nat, size: nat) returns (mem: Option<nat>, ghost w: nat)
      requires Valid()
      modifies this, base, usage
      ensures Valid()
      ensures mem.Some? ==> Takes(old(Now()), addr, size, w, Now()) && mem.value == Handle(w, addr)
      ensures mem.None? ==> Now() == old(Now())
      ensures mem.None? ==> forall v: nat :: v < COUNT ==>
                !Shareable(Now(), v, addr, size) && !Openable(Now(), v, addr, size)
    {
      hide Holds, Handle, Register;
      ghost var s := Now();
      w := 0;
      var i := 0;
      while i < COUNT
        invariant i <= COUNT && Now() == s
        invariant forall v: nat :: v < i ==> !Shareable(s, v, addr, size)
      {
        if usage[i] != 0 && Holds(base[i], i, addr, size) {
          assert Shareable(s, i, addr, size);
          usage[i] := usage[i] + 1;
          w := i;
          assert Now() == Shared(s, w);
          return Some(Handle(i, addr)), w;
        }
        i := i + 1;
      }
      i := 0;
      while i < COUNT
        invariant i <= COUNT && Now() == s
        invariant forall v: nat :: v < i ==> !Openable(s, v, addr, size)
      {
        if usage[i] == 0 && Holds(PageBase(addr), i, addr, size) {
          assert Openable(s, i, addr, size);
          usage[i] := usage[i] + 1;
          base[i] := PageBase(addr);
          assert base[..] == s.base[i := PageBase(addr)];
          WriteBases();
          w := i;
          assert Now() == Opened(s, w, addr);
          return Some(Handle(i, addr)), w;
        }
        i := i + 1;
      }
      mem := None;
    }

    method MapRangeCached(addr: nat, size: nat) returns (mem: Option<nat>, ghost w: nat)
      requires Valid()
      modifies this, base, usage
      ensures Valid()
      ensures mem.Some? ==> Takes(old(Now()), addr, size, w, Now()) && mem.value == Cached(Handle(w, addr))
      ensures mem.None? ==> Now() == old(Now())
      ensures mem.None? ==> forall v: nat :: v < COUNT ==>
                !Shareable(Now(), v, addr, size) && !Openable(Now(), v, addr, size)
    {
      mem, w := MapRange(addr, size);
      if mem.Some? { mem := Some(Cached(mem.value)); }
    }

    // false: the region was not mapped, a fatal error.
    method UnmapRange(mem: nat) returns (ok: bool)
      requires Valid()
      modifies usage
      ensures Valid()
      ensures ok <==> WindowAt(mem).Some? && old(Now()).usage[WindowAt(mem).value] > 0
      ensures Now() == if ok then Released(old(Now()), WindowAt(mem).value) else old(Now())
    {
      hide PageBase, Uncached;
      ghost var s := Now();
      var i := 0;
      while i < COUNT
        invariant i <= COUNT && Now() == s
        invariant forall v: nat :: v < i ==> !(s.usage[v] != 0 && AddrOf(v) == PageBase(Uncached(mem)))
      {
        if usage[i] != 0 && AddrOf(i) == PageBase(Uncached(mem)) {
          usage[i] := usage[i] - 1;
          assert Now() == Released(s, i);
          return true;
        }
        i := i + 1;
      }
      ok := false;
    }
  }

  /* ---- arithmetic of handles ---- */

  lemma WindowMultiple(k: nat, off: nat)
    requires off < WINDOW
    ensures (k * WINDOW + off) / WINDOW == k && (k * WINDOW + off) % WINDOW == off
  {
  }

  lemma HandleWindow(w: nat, base: nat)
    requires w < COUNT
    ensures WindowAt(Handle(w, base)) == Some(w) && WindowAt(Cached(Handle(w, base))) == Some(w)
    ensures Offset(Handle(w, base)) == Offset(base) && Offset(Cached(Handle(w, base))) == Offset(base)
  {
    HandleAt(w, Offset(base));
  }

  // The same for any place inside the window.
  lemma HandleAt(w: nat, off: nat)
    requires w < COUNT && off < WINDOW
    ensures WindowAt(AddrOf(w) + off) == Some(w) && WindowAt(Cached(AddrOf(w) + off)) == Some(w)
    ensures Offset(AddrOf(w) + off) == off && Offset(Cached(AddrOf(w) + off)) == off
    ensures Cached(AddrOf(w) + off) == AddrOf(w) + off - CACHE_BIT
  {
    var a := AddrOf(w) + off;
    assert a / CACHE_BIT == 5;
    WindowMultiple(44 + w, off);
    WindowMultiple(36 + w, off);
    assert a == (44 + w) * WINDOW + off && a - CACHE_BIT == (36 + w) * WINDOW + off;
    assert Cached(a) == a - CACHE_BIT;
    assert (a - CACHE_BIT) / CACHE_BIT == 4;
    assert Uncached(a) == a && Uncached(a - CACHE_BIT) == a;
    assert PageBase(a) == AddrOf(w);
  }

  lemma FieldsUnpack(a: nat, b: nat, c: nat)
    requires a < 64 && b < 64 && c < 64
    ensures var r := a + b * 64 + c * 4096;
            FieldOf(r, 0) == a && FieldOf(r, 1) == b && FieldOf(r, 2) == c
  {
    var r := a + b * 64 + c * 4096;
    assert r == 64 * (b + 64 * c) + a;
    assert r / 64 == b + 64 * c && r % 64 == a;
    assert (b + 64 * c) % 64 == b;
    assert r / 4096 == c;
  }

  // The register holds every window's base.
  lemma RegisterHolds(base: seq<nat>, w: nat)
    requires |base| == COUNT && w < COUNT && base[w] < WRAP && base[w] % WINDOW == 0
    ensures FieldOf(Register(base), w) * WINDOW == base[w]
  {
    FieldsUnpack(Field(base[0]), Field(base[1]), Field(base[2]));
    BaseField(base[w]);
  }

  lemma BaseField(b: nat)
    requires b < WRAP && b % WINDOW == 0
    ensures Field(b) * WINDOW == b
  {
    assert b / WINDOW < 64;
  }

  /* ---- live mappings ---- */

  datatype Mapping = Mapping(base: nat, size: nat, mem: nat, window: nat)

  function CountIn(live: seq<Mapping>, w: nat): nat {
    if live == [] then 0 else CountIn(live[..|live| - 1], w) + if live[|live| - 1].window == w then 1 else 0
  }

  ghost predicate MappingGood(s: Windows, m: Mapping)
    requires Shaped(s)
  {
    && m.window < COUNT && m.base < WRAP && m.size < WRAP
    && (m.mem == Handle(m.window, m.base) || m.mem == Cached(Handle(m.window, m.base)))
    && Holds(s.base[m.window], m.window, m.base, m.size)
    && PageBase(m.base) == s.base[m.window]
  }

  ghost predicate WindowGood(s: Windows, w: nat)
    requires Shaped(s) && w < COUNT
  {
    s.usage[w] > 0 ==> s.base[w] < WRAP && s.base[w] % WINDOW == 0 && FieldOf(s.register, w) * WINDOW == s.base[w]
  }

  // Each counter is the number of live mappings in its window, and every window in use is
  // what the bridge was told.
  ghost predicate Consistent(s: Windows, live: seq<Mapping>) {
    && Shaped(s)
    && (forall w: nat :: w < COUNT ==> s.usage[w] == CountIn(live, w))
    && (forall w: nat :: w < COUNT ==> WindowGood(s, w))
    && (forall i :: 0 <= i < |live| ==> MappingGood(s, live[i]))
  }

  // A mapping that is consistent with the windows translates to what was asked for.
  lemma GoodTranslates(s: Windows, m: Mapping)
    requires Shaped(s) && m.window < COUNT && WindowGood(s, m.window) && s.usage[m.window] > 0 && MappingGood(s, m)
    ensures BusAddress(s.register, m.mem) == Some(m.base)
  {
    hide Handle, Cached, WindowAt, FieldOf, Holds;
    HandleWindow(m.window, m.base);
  }

  /* ---- which requests are served right ---- */

  // The range ends in the window it starts in or a later one; a range that does not run
  // past the end of the address space always does.
  predicate Safe(base: nat, size: nat) {
    PageBase(base) <= PageBase(Add32(base, size))
  }

  lemma NoWrapIsSafe(base: nat, size: nat)
    requires base + size < WRAP
    ensures Safe(base, size)
  {
    PageMonotone(base, base + size);
  }

  // A window opened for a range that ends in the same 64 MiB holds it, if it ends before the
  // window does: 0x3f00000 bytes for the first, 0x4000000 for the others.
  lemma HoldsIff(w: nat, base: nat, size: nat)
    requires w < COUNT && base + size < 0xfc00_0000
    ensures Holds(PageBase(base), w, base, size) <==> base % 0x400_0000 + size < if w == 0 then 0x3f0_0000 else 0x400_0000
  {
    PageFacts(base);
  }

  // With all windows free, such a range is served.
  lemma FreeWindowServes(s: Windows, base: nat, size: nat) returns (w: nat)
    requires Shaped(s) && s.usage == [0, 0, 0] && base + size < 0xfc00_0000 && base % 0x400_0000 + size < 0x400_0000
    ensures w < COUNT && Takes(s, base, size, w, Opened(s, w, base))
  {
    HoldsIff(0, base, size);
    HoldsIff(1, base, size);
    hide Holds, Opened, Shared;
    w := if Holds(PageBase(base), 0, base, size) then 0 else 1;
    assert Openable(s, w, base, size);
  }

  lemma PageMonotone(a: nat, b: nat)
    requires a <= b
    ensures PageBase(a) <= PageBase(b)
  {
    assert PageBase(a) == WINDOW * (a / WINDOW) && PageBase(b) == WINDOW * (b / WINDOW);
  }

  // Two multiples of the window size less than a window apart are equal.
  lemma SamePage(b: nat, p: nat)
    requires b % WINDOW == 0 && p % WINDOW == 0 && b <= p < b + WINDOW
    ensures b == p
  {
    assert b == WINDOW * (b / WINDOW) && p == WINDOW * (p / WINDOW);
  }

  lemma PageFacts(a: nat)
    ensures PageBase(a) % WINDOW == 0 && PageBase(a) <= a < PageBase(a) + WINDOW
    ensures PageBase(a) + Offset(a) == a
    ensures a < WRAP ==> PageBase(a) <= WRAP - WINDOW
  {
    assert PageBase(a) == WINDOW * (a / WINDOW);
    WindowMultiple(a / WINDOW, 0);
  }

  lemma SharedPage(b: nat, w: nat, base: nat, size: nat)
    requires w < COUNT && b < WRAP && b % WINDOW == 0 && base < WRAP
    requires Holds(b, w, base, size) && Safe(base, size)
    ensures b == PageBase(base)
  {
    var r := Add32(base, size);
    PageFacts(base);
    PageFacts(r);
    PageFacts(b);
    assert PageBase(b) == b by { SamePage(PageBase(b), b); }
    PageMonotone(b, base);
    assert Add32(b, SizeOf(w)) <= b + WINDOW;
    SamePage(b, PageBase(base));
  }

  /* ---- steps ---- */

  datatype Call = Map(base: nat, size: nat, cached: bool) | Unmap(k: nat)

  function Without(live: seq<Mapping>, k: nat): seq<Mapping>
    requires k < |live|
  {
    live[..k] + live[k + 1..]
  }

  // One call that is served: mapping any range, unmapping a live mapping.
  ghost predicate Step(call: Call, s: Windows, live: seq<Mapping>, s': Windows, live': seq<Mapping>) {
    && Shaped(s)
    && match call {
         case Map(base, size, cached) =>
           && base < WRAP && size < WRAP
           && exists w :: Takes(s, base, size, w, s') && live' == live + [NewMapping(call, w)]
         case Unmap(k) =>
           && k < |live| && WindowAt(live[k].mem).Some? && s.usage[WindowAt(live[k].mem).value] > 0
           && s' == Released(s, WindowAt(live[k].mem).value) && live' == Without(live, k)
       }
  }

  function NewMapping(call: Call, w: nat): Mapping
    requires call.Map? && w < COUNT
  {
    Mapping(call.base, call.size, if call.cached then Cached(Handle(w, call.base)) else Handle(w, call.base), w)
  }

  lemma CountAppend(live: seq<Mapping>, m: Mapping, w: nat)
    ensures CountIn(live + [m], w) == CountIn(live, w) + if m.window == w then 1 else 0
  {
    assert (live + [m])[..|live|] == live;
  }

  lemma {:induction false} CountWithout(live: seq<Mapping>, k: nat, w: nat)
    requires k < |live|
    ensures CountIn(live, w) == CountIn(Without(live, k), w) + if live[k].window == w then 1 else 0
    decreases |live|
  {
    var n := |live| - 1;
    if k < n {
      CountWithout(live[..n], k, w);
      assert Without(live, k) == Without(live[..n], k) + [live[n]];
      CountAppend(Without(live[..n], k), live[n], w);
    } else {
      assert Without(live, k) == live[..n];
    }
  }

  lemma {:induction false} LiveIsCounted(live: seq<Mapping>, k: nat)
    requires k < |live|
    ensures CountIn(live, live[k].window) > 0
    decreases |live|
  {
    if k < |live| - 1 { LiveIsCounted(live[..|live| - 1], k); }
  }

  // Bases of windows in use do not move.
  ghost predicate BasesKept(s: Windows, s': Windows) {
    Shaped(s) && Shaped(s') && forall w: nat :: w < COUNT && s.usage[w] > 0 ==> s'.base[w] == s.base[w]
  }

  lemma TakesKeeps(s: Windows, live: seq<Mapping>, base: nat, size: nat, w: nat, s': Windows)
    requires Consistent(s, live) && Takes(s, base, size, w, s') && base < WRAP && size < WRAP && Safe(base, size)
    ensures BasesKept(s, s')
    ensures s'.usage == s.usage[w := s.usage[w] + 1]
    ensures forall v: nat :: v < COUNT ==> WindowGood(s', v)
    ensures s'.base[w] == PageBase(base) && Holds(s'.base[w], w, base, size)
  {
    if exists v: nat :: v < COUNT && Shareable(s, v, base, size) {
      assert WindowGood(s, w);
      hide FieldOf, Holds, Safe, CountIn;
      SharedPage(s.base[w], w, base, size);
      forall v: nat | v < COUNT ensures WindowGood(s', v) {
        assert WindowGood(s, v);
      }
    } else {
      PageFacts(base);
      hide FieldOf, Holds, Safe, Register, CountIn;
      forall v: nat | v < COUNT ensures WindowGood(s', v) {
        assert WindowGood(s, v);
        if s'.usage[v] > 0 { RegisterHolds(s'.base, v); }
      }
    }
  }

  lemma MapStepKeeps(call: Call, s: Windows, live: seq<Mapping>, w: nat, s': Windows)
    requires Consistent(s, live) && call.Map? && Safe(call.base, call.size)
    requires call.base < WRAP && call.size < WRAP && Takes(s, call.base, call.size, w, s')
    ensures Consistent(s', live + [NewMapping(call, w)]) && BasesKept(s, s')
  {
    TakesKeeps(s, live, call.base, call.size, w, s');
    hide Takes, WindowGood, Safe, CountIn, Holds, Handle, Cached, PageBase;
    var m := NewMapping(call, w);
    var live' := live + [m];
    forall v: nat | v < COUNT ensures s'.usage[v] == CountIn(live', v) {
      CountAppend(live, m, v);
    }
    forall i | 0 <= i < |live'| ensures MappingGood(s', live'[i]) {
      if i < |live| {
        assert MappingGood(s, live[i]) && live'[i] == live[i];
        LiveIsCounted(live, i);
      }
    }
  }

  lemma MappingWindow(s: Windows, m: Mapping)
    requires Shaped(s) && MappingGood(s, m)
    ensures WindowAt(m.mem) == Some(m.window)
  {
    hide Handle, Cached, WindowAt, Holds, PageBase;
    HandleWindow(m.window, m.base);
  }

  lemma UnmapStepKeeps(s: Windows, live: seq<Mapping>, k: nat)
    requires Consistent(s, live) && k < |live|
    ensures WindowAt(live[k].mem) == Some(live[k].window) && s.usage[live[k].window] > 0
    ensures Consistent(Released(s, live[k].window), Without(live, k))
    ensures BasesKept(s, Released(s, live[k].window))
  {
    assert MappingGood(s, live[k]);
    MappingWindow(s, live[k]);
    LiveIsCounted(live, k);
    hide WindowAt, CountIn, Holds, Handle, Cached, PageBase, FieldOf;
    var s', live' := Released(s, live[k].window), Without(live, k);
    forall v: nat | v < COUNT ensures s'.usage[v] == CountIn(live', v) && WindowGood(s', v) {
      CountWithout(live, k, v);
      assert WindowGood(s, v);
    }
    forall i | 0 <= i < |live'| ensures MappingGood(s', live'[i]) {
      assert live'[i] == live[if i < k then i else i + 1];
    }
  }

  // Every served call keeps the counters exact and the bases of windows in use.
  lemma StepKeeps(call: Call, s: Windows, live: seq<Mapping>, s': Windows, live': seq<Mapping>)
    requires Consistent(s, live) && Step(call, s, live, s', live')
    requires call.Map? ==> Safe(call.base, call.size)
    ensures Consistent(s', live') && BasesKept(s, s')
  {
    hide Safe, WindowAt, Shareable, Openable, MappingGood, WindowGood, CountIn;
    match call
    case Map(base, size, cached) =>
      var w :| Takes(s, base, size, w, s') && live' == live + [NewMapping(call, w)];
      MapStepKeeps(call, s, live, w, s');
    case Unmap(k) =>
      UnmapStepKeeps(s, live, k);
  }

  /* ---- runs ---- */

  datatype Trace = Trace(calls: seq<Call>, states: seq<Windows>, live: seq<seq<Mapping>>)

  ghost predicate IsRun(t: Trace) {
    && |t.states| == |t.live| == |t.calls| + 1
    && Shaped(t.states[0]) && t.states[0].usage == [0, 0, 0] && t.live[0] == []
    && forall i :: 0 <= i < |t.calls| ==> Step(t.calls[i], t.states[i], t.live[i], t.states[i + 1], t.live[i + 1])
  }

  ghost predicate AllSafe(calls: seq<Call>) {
    forall i :: 0 <= i < |calls| && calls[i].Map? ==> Safe(calls[i].base, calls[i].size)
  }

  // In every run, at every moment: counters equal the live mappings, every live address goes
  // to the bus address it was requested for, and unmapping a live one would be accepted.
  lemma {:induction false} RunsAreConsistent(t: Trace, i: nat)
    requires IsRun(t) && AllSafe(t.calls) && i <= |t.calls|
    ensures Consistent(t.states[i], t.live[i])
    ensures forall k :: 0 <= k < |t.live[i]| ==> BusAddress(t.states[i].register, t.live[i][k].mem) == Some(t.live[i][k].base)
    ensures forall k :: 0 <= k < |t.live[i]| ==> WindowAt(t.live[i][k].mem) == Some(t.live[i][k].window)
    ensures i < |t.calls| ==> BasesKept(t.states[i], t.states[i + 1])
  {
    hide Safe, Step, BusAddress, WindowAt;
    if i > 0 {
      RunsAreConsistent(t, i - 1);
      hide Consistent;
      StepKeeps(t.calls[i - 1], t.states[i - 1], t.live[i - 1], t.states[i], t.live[i]);
    } else {
      NothingMapped(t.states[0]);
    }
    hide Consistent;
    if i < |t.calls| {
      StepKeeps(t.calls[i], t.states[i], t.live[i], t.states[i + 1], t.live[i + 1]);
    }
    forall k | 0 <= k < |t.live[i]|
      ensures BusAddress(t.states[i].register, t.live[i][k].mem) == Some(t.live[i][k].base)
      ensures WindowAt(t.live[i][k].mem) == Some(t.live[i][k].window)
    {
      LiveTranslates(t.states[i], t.live[i], k);
    }
  }

  lemma NothingMapped(s: Windows)
    requires Shaped(s) && s.usage == [0, 0, 0]
    ensures Consistent(s, [])
  {
  }

  lemma LiveTranslates(s: Windows, live: seq<Mapping>, k: nat)
    requires Consistent(s, live) && k < |live|
    ensures BusAddress(s.register, live[k].mem) == Some(live[k].base)
    ensures WindowAt(live[k].mem) == Some(live[k].window)
  {
    hide BusAddress, WindowAt, FieldOf, Handle, Cached, Holds, CountIn, PageBase;
    assert MappingGood(s, live[k]);
    assert WindowGood(s, live[k].window);
    LiveIsCounted(live, k);
    MappingWindow(s, live[k]);
    GoodTranslates(s, live[k]);
  }

  /* ---- what goes wrong otherwise ---- */

  // In every run of safe requests that ends with this one, it is translated right.
  ghost predicate AlwaysRight(base: nat, size: nat) {
    forall t | IsRun(t) && EndsWith(t, base, size) && AllSafe(t.calls[..|t.calls| - 1]) :: LastIsRight(t, base)
  }

  ghost predicate EndsWith(t: Trace, base: nat, size: nat) {
    |t.calls| > 0 && t.calls[|t.calls| - 1].Map? && t.calls[|t.calls| - 1].base == base && t.calls[|t.calls| - 1].size == size
  }

  ghost predicate LastIsRight(t: Trace, base: nat)
    requires IsRun(t)
  {
    var n := |t.calls|;
    |t.live[n]| > 0 && BusAddress(t.states[n].register, t.live[n][|t.live[n]| - 1].mem) == Some(base)
  }

  // That is so exactly for the safe requests.
  lemma RightIffSafe(base: nat, size: nat)
    requires base < WRAP && size < WRAP
    ensures AlwaysRight(base, size) <==> Safe(base, size)
  {
    hide IsRun, Safe, LastIsRight;
    if Safe(base, size) {
      forall t | IsRun(t) && EndsWith(t, base, size) && AllSafe(t.calls[..|t.calls| - 1]) ensures LastIsRight(t, base) {
        SafeIsRight(t, base, size);
      }
    } else {
      var t := UnsafeGoesWrong(base, size);
    }
  }

  lemma SafeIsRight(t: Trace, base: nat, size: nat)
    requires IsRun(t) && EndsWith(t, base, size) && AllSafe(t.calls[..|t.calls| - 1]) && Safe(base, size)
    ensures LastIsRight(t, base)
  {
    hide Safe, BusAddress, WindowAt, Consistent, BasesKept, Takes;
    var n := |t.calls|;
    forall i | 0 <= i < n && t.calls[i].Map? ensures Safe(t.calls[i].base, t.calls[i].size) {
      if i < n - 1 { assert t.calls[..n - 1][i] == t.calls[i]; }
    }
    RunsAreConsistent(t, n);
    assert Step(t.calls[n - 1], t.states[n - 1], t.live[n - 1], t.states[n], t.live[n]);
    var k := |t.live[n]| - 1;
    assert t.live[n][k].base == base;
  }

  // Any other request is served wrong after a single safe one: the window opened for that
  // lies further down and attracts the range that wraps around.
  lemma UnsafeGoesWrong(base: nat, size: nat) returns (t: Trace)
    requires base < WRAP && size < WRAP && !Safe(base, size)
    ensures IsRun(t) && EndsWith(t, base, size) && AllSafe(t.calls[..|t.calls| - 1]) && !LastIsRight(t, base)
  {
    var r := Add32(base, size);
    PageFacts(base);
    PageFacts(r);
    var b := PageBase(r);
    LowerWindow(b, r, base);
    var first, second := Map(b, LARGE, false), Map(base, size, false);
    var s0 := Windows([0, 0, 0], [0, 0, 0], 0);
    var s1, s2 := Opened(s0, 1, b), Shared(Opened(s0, 1, b), 1);
    var m1, m2 := NewMapping(first, 1), NewMapping(second, 1);
    t := Trace([first, second], [s0, s1, s2], [[], [m1], [m1, m2]]);
    OpensSecond(s0, b);
    AttractsWrapped(s1, b, base, size);
    WrongBus(s1, b, base);
    NoWrapIsSafe(b, LARGE);
    hide Takes, Safe, Opened, Shared, NewMapping, BusAddress, PageBase, Add32;
    assert [] + [m1] == [m1] && [m1] + [m2] == [m1, m2];
    assert Step(first, s0, [], s1, [m1]);
    assert Step(second, s1, [m1], s2, [m1, m2]);
    assert t.calls[..1] == [first];
  }

  // A range too large for the first window and small enough for the others.
  const LARGE: nat := 0x03f8_0000

  lemma OpensSecond(s: Windows, b: nat)
    requires s == Windows([0, 0, 0], [0, 0, 0], 0) && b + WINDOW < WRAP && PageBase(b) == b
    ensures Takes(s, b, LARGE, 1, Opened(s, 1, b))
  {
    hide PageBase;
    assert !Holds(b, 0, b, LARGE) && Holds(b, 1, b, LARGE);
    assert Openable(s, 1, b, LARGE) && !Openable(s, 0, b, LARGE);
  }

  lemma AttractsWrapped(s: Windows, b: nat, base: nat, size: nat)
    requires Shaped(s) && s.base[1] == b && s.usage == [0, 1, 0] && b + WINDOW < WRAP
    requires b == PageBase(Add32(base, size)) && b <= base
    ensures Takes(s, base, size, 1, Shared(s, 1))
  {
    PageFacts(Add32(base, size));
    assert Add32(b, SizeOf(1)) == b + WINDOW;
    hide PageBase;
    assert Shareable(s, 1, base, size) && !Shareable(s, 0, base, size);
  }

  lemma WrongBus(s: Windows, b: nat, base: nat)
    requires Shaped(s) && s.base[1] == b && s.register == Register(s.base) && b < WRAP && b % WINDOW == 0 && b != PageBase(base)
    ensures BusAddress(s.register, Handle(1, base)) == Some(b + Offset(base)) && b + Offset(base) != base
  {
    RegisterHolds(s.base, 1);
    HandleWindow(1, base);
    PageFacts(base);
    hide FieldOf, Register, Handle, WindowAt;
  }

  lemma LowerWindow(b: nat, r: nat, base: nat)
    requires b == PageBase(r) && b < PageBase(base) && base < WRAP && r < WRAP
    ensures b < WRAP && b + WINDOW < WRAP && PageBase(b) == b && b % WINDOW == 0 && Offset(b) == 0
  {
    PageFacts(r);
    PageFacts(base);
    PageFacts(b);
    SamePage(PageBase(b), b);
  }

  // The whole range, not just its start, is reachable through the window.
  ghost predicate Reaches(s: Windows, m: Mapping)
    requires Shaped(s) && m.window < COUNT
  {
    forall k: nat :: k < m.size ==> InWindow(s, m, k)
  }

  ghost predicate InWindow(s: Windows, m: Mapping, k: nat)
    requires Shaped(s) && m.window < COUNT
  {
    && Offset(m.mem) + k < SizeOf(m.window)
    && BusAddress(s.register, m.mem + k) == Some(m.base + k)
  }

  // At every moment of every run of safe requests, a live mapping reaches all of its range
  // exactly when the range ends before the end of the address space.
  lemma LiveReachesIff(t: Trace, i: nat, k: nat)
    requires IsRun(t) && AllSafe(t.calls) && i <= |t.calls| && k < |t.live[i]|
    ensures Shaped(t.states[i]) && t.live[i][k].window < COUNT
    ensures Reaches(t.states[i], t.live[i][k]) <==> t.live[i][k].base + t.live[i][k].size < WRAP
  {
    RunsAreConsistent(t, i);
    hide IsRun, AllSafe, Reaches;
    MappingReachesIff(t.states[i], t.live[i], k);
  }

  // Some window, opened for it, takes the request.
  ghost predicate Servable(base: nat, size: nat) {
    exists w: nat :: w < COUNT && Holds(PageBase(base), w, base, size)
  }

  ghost predicate LastReaches(t: Trace)
    requires IsRun(t)
  {
    var n := |t.calls|;
    && |t.live[n]| > 0 && Shaped(t.states[n]) && t.live[n][|t.live[n]| - 1].window < COUNT
    && Reaches(t.states[n], t.live[n][|t.live[n]| - 1])
  }

  // In every run of safe requests that ends with this one, the whole range is reached.
  ghost predicate AlwaysReaches(base: nat, size: nat) {
    forall t | IsRun(t) && EndsWith(t, base, size) && AllSafe(t.calls) :: LastReaches(t)
  }

  // That is so exactly for the ranges that do not wrap around (or are never served).
  lemma ReachesIffNoWrap(base: nat, size: nat)
    requires base < WRAP && size < WRAP && Safe(base, size)
    ensures AlwaysReaches(base, size) <==> base + size < WRAP || !Servable(base, size)
  {
    hide IsRun, Safe, LastReaches, Servable;
    if base + size < WRAP || !Servable(base, size) {
      forall t | IsRun(t) && EndsWith(t, base, size) && AllSafe(t.calls) ensures LastReaches(t) {
        LastReachesIff(t, base, size);
      }
    } else {
      var t := WrappingIsServed(base, size);
    }
  }

  lemma LastReachesIff(t: Trace, base: nat, size: nat)
    requires IsRun(t) && EndsWith(t, base, size) && AllSafe(t.calls)
    ensures LastReaches(t) <==> base + size < WRAP
    ensures Servable(base, size)
  {
    var n := |t.calls|;
    assert Step(t.calls[n - 1], t.states[n - 1], t.live[n - 1], t.states[n], t.live[n]);
    hide Safe, Takes, Reaches, Servable, BusAddress;
    var k := |t.live[n]| - 1;
    assert t.live[n][k].base == base && t.live[n][k].size == size;
    LiveReachesIff(t, n, k);
    RunsAreConsistent(t, n);
    LiveIsServable(t.states[n], t.live[n], k);
  }

  lemma LiveIsServable(s: Windows, live: seq<Mapping>, k: nat)
    requires Consistent(s, live) && k < |live|
    ensures Servable(live[k].base, live[k].size)
  {
    hide Holds, PageBase, Handle, Cached, CountIn, WindowGood;
    assert MappingGood(s, live[k]);
  }

  // A range that wraps around is taken right after boot and not reached as a whole.
  lemma WrappingIsServed(base: nat, size: nat) returns (t: Trace)
    requires base < WRAP && size < WRAP && Safe(base, size) && Servable(base, size) && base + size >= WRAP
    ensures IsRun(t) && EndsWith(t, base, size) && AllSafe(t.calls) && !LastReaches(t)
  {
    hide Safe, Holds, PageBase, Handle, Cached, Register;
    var w: nat := if Holds(PageBase(base), 0, base, size) then 0 else if Holds(PageBase(base), 1, base, size) then 1 else 2;
    var call, s0 := Map(base, size, false), Windows([0, 0, 0], [0, 0, 0], 0);
    var s1, m := Opened(s0, w, base), NewMapping(call, w);
    t := Trace([call], [s0, s1], [[], [m]]);
    assert Openable(s0, w, base, size);
    assert [] + [m] == [m];
    assert Takes(s0, base, size, w, s1);
    assert Step(call, s0, [], s1, [m]);
    hide Takes, Step, Opened, NewMapping;
    LastReachesIff(t, base, size);
  }

  // For example 4 GiB less 128 bytes from 0x100 on.
  lemma WrappingExample()
    ensures Safe(0x100, 0xffff_ff80) && Servable(0x100, 0xffff_ff80) && !AlwaysReaches(0x100, 0xffff_ff80)
  {
    assert Holds(PageBase(0x100), 0, 0x100, 0xffff_ff80);
    hide AlwaysReaches, Holds;
    ReachesIffNoWrap(0x100, 0xffff_ff80);
  }

  lemma MappingReachesIff(s: Windows, live: seq<Mapping>, i: nat)
    requires Consistent(s, live) && i < |live|
    ensures Reaches(s, live[i]) <==> live[i].base + live[i].size < WRAP
  {
    var m := live[i];
    assert MappingGood(s, m) && WindowGood(s, m.window);
    LiveIsCounted(live, i);
    hide Consistent, WindowGood, CountIn, BusAddress, FieldOf, Holds, Handle, Cached, WindowAt, PageBase, Offset;
    HandleWindow(m.window, m.base);
    assert Offset(m.mem) == Offset(m.base);
    assert Shaped(s) && s.usage[m.window] > 0;
    RangeFits(m.window, m.base, m.size);
    var off := Offset(m.base);
    if m.base + m.size < WRAP {
      forall k: nat | k < m.size ensures InWindow(s, m, k) {
        InsideTranslates(s, m, k);
      }
    } else {
      hide SizeOf;
      var k := if off < SizeOf(m.window) then SizeOf(m.window) - off else 0;
      assert !InWindow(s, m, k);
    }
  }

  lemma RangeFits(w: nat, base: nat, size: nat)
    requires w < COUNT && base < WRAP && size < WRAP && Holds(PageBase(base), w, base, size)
    ensures base + size < WRAP <==> Offset(base) + size < SizeOf(w)
  {
    PageFacts(base);
  }

  lemma InsideTranslates(s: Windows, m: Mapping, k: nat)
    requires Shaped(s) && MappingGood(s, m) && WindowGood(s, m.window) && s.usage[m.window] > 0
    requires Offset(m.base) + k < WINDOW
    ensures BusAddress(s.register, m.mem + k) == Some(m.base + k)
  {
    PageFacts(m.base);
    var off := Offset(m.base);
    HandleAt(m.window, off);
    HandleAt(m.window, off + k);
    hide BusAddress, Cached, WindowAt, FieldOf, Holds, PageBase, Offset;
    var a := AddrOf(m.window) + (off + k);
    BusIn(s.register, a, m.window);
    BusIn(s.register, Cached(a), m.window);
    assert m.mem + k == a || m.mem + k == Cached(a);
  }

  lemma BusIn(register: nat, mem: nat, w: nat)
    requires w < COUNT && WindowAt(mem) == Some(w)
    ensures BusAddress(register, mem) == Some(FieldOf(register, w) * WINDOW + Offset(mem))
  {
  }
}
