/** Page tables built from allocated frames, kernel/memory.c: `map_page` and `paging_init`,
    read back by the two-level walk of 32-bit paging (Intel SDM volume 3A, "32-Bit Paging"). */
module PageTables {
  import opened Options
  import opened FrameBitmap
  import Counting

  const ENTRIES: nat := 1024

  datatype Entry = Entry(frame: nat, present: bool, rw: bool, user: bool, pwt: bool, pcd: bool,
                         accessed: bool, dirty: bool, pat: bool, global: bool, avail: nat)

  // A 32-bit flags argument: what it puts into the address bits of a directory word, and the
  // twelve bits that are flags there.
  datatype FlagWord = FlagWord(high: nat, low: bv12)

  const KERNEL := FlagWord(0, 3)

  // a | b
  function OrBits(a: nat, b: nat): nat
    decreases a + b
  {
    if a == 0 then b else if b == 0 then a else 2 * OrBits(a / 2, b / 2) + if a % 2 == 1 || b % 2 == 1 then 1 else 0
  }

  // A page-directory word: the frame in its upper bits, the flags in its lower twelve.
  datatype DirectoryWord = DirectoryWord(frame: nat, flags: bv12)

  // The allocator's words, the directory's two arrays, and memory seen frame by frame as
  // page tables.
  datatype State = State(words: seq<bv32>, tables: seq<nat>, physical: seq<DirectoryWord>, memory: seq<seq<Entry>>)

  const CLEARED := Entry(0, false, true, false, false, false, false, false, false, false, 0)

  predicate Has(flags: bv12, mask: bv12) { flags & mask != 0 }

  lemma OrPresent(flags: bv12)
    ensures Has(flags | 1, 1)
    ensures Has(flags | 1, 2) == Has(flags, 2) && Has(flags | 1, 4) == Has(flags, 4)
  {
  }

  function Filled(e: Entry, phys: nat, flags: FlagWord): Entry {
    e.(frame := phys / PAGE_SIZE, present := true, rw := Has(flags.low, 2), user := Has(flags.low, 4),
       pwt := Has(flags.low, 8), pcd := Has(flags.low, 16))
  }

  /* ---- map_page as a function of the state ---- */

  ghost predicate Shaped(s: State) {
    && |s.tables| == |s.physical| == ENTRIES
    && |s.memory| == 32 * |s.words| > 0
    && (forall f :: 0 <= f < |s.memory| ==> |s.memory[f]| == ENTRIES)
    && (forall t :: 0 <= t < ENTRIES ==> s.tables[t] / PAGE_SIZE < |s.memory|)
  }

  ghost function FirstFree(words: seq<bv32>, from: nat): (r: nat)
    requires from <= 32 * |words|
    ensures from <= r <= 32 * |words| && (r < 32 * |words| ==> !Taken(words, r))
    ensures forall i: nat :: from <= i < r ==> Taken(words, i)
    decreases 32 * |words| - from
  {
    if from == 32 * |words| then from
    else if Taken(words, from) then FirstFree(words, from + 1)
    else from
  }

  // The pointer alloc_frame returns: null when nothing is free.
  ghost function AllocAddress(words: seq<bv32>): nat {
    var f := FirstFree(words, 0);
    if f == 32 * |words| then 0 else f * PAGE_SIZE
  }

  ghost function Allocated(words: seq<bv32>): (r: seq<bv32>)
    ensures |r| == |words|
  {
    var f := FirstFree(words, 0);
    if f == 32 * |words| then words else SetBit(words, f)
  }

  ghost function WithTable(s: State, t: nat, flags: FlagWord): State
    requires Shaped(s) && t < ENTRIES
    ensures Shaped(WithTable(s, t, flags))
  {
    var addr := AllocAddress(s.words);
    AddressInRange(s.words);
    State(Allocated(s.words), s.tables[t := addr],
          s.physical[t := DirectoryWord(OrBits(addr / PAGE_SIZE, flags.high), flags.low | 1)],
          s.memory[addr / PAGE_SIZE := seq(ENTRIES, _ => CLEARED)])
  }

  ghost function WithEntry(s: State, t: nat, slot: nat, phys: nat, flags: FlagWord): State
    requires Shaped(s) && t < ENTRIES && slot < ENTRIES
    ensures Shaped(WithEntry(s, t, slot, phys, flags))
  {
    var f := s.tables[t] / PAGE_SIZE;
    s.(memory := s.memory[f := s.memory[f][slot := Filled(s.memory[f][slot], phys, flags)]])
  }

  ghost function Mapped(s: State, virt: nat, phys: nat, flags: FlagWord): State
    requires Shaped(s) && virt < 0x1_0000_0000
    ensures Shaped(Mapped(s, virt, phys, flags))
  {
    var page := virt / PAGE_SIZE;
    var t := page / ENTRIES;
    var ready := if s.tables[t] == 0 then WithTable(s, t, flags) else s;
    WithEntry(ready, t, page % ENTRIES, phys, flags)
  }

  lemma AddressInRange(words: seq<bv32>)
    requires |words| > 0
    ensures AllocAddress(words) / PAGE_SIZE < 32 * |words|
  {
  }

  /* ---- what the processor sees ---- */

  // The frame a page translates to, and the rights both levels grant.
  datatype Access = Access(frame: nat, writable: bool, user: bool)

  ghost function Translate(s: State, page: nat): Option<Access>
    requires Shaped(s) && page < ENTRIES * ENTRIES
  {
    var word := s.physical[page / ENTRIES];
    if !Has(word.flags, 1) || word.frame >= |s.memory| then None
    else
      var e := s.memory[word.frame][page % ENTRIES];
      if !e.present then None
      else Some(Access(e.frame, e.rw && Has(word.flags, 2), e.user && Has(word.flags, 4)))
  }

  // Tables live in distinct used frames, and the processor's directory agrees with the
  // kernel's own.
  ghost predicate Sound(s: State) {
    && Shaped(s)
    && (forall t :: 0 <= t < ENTRIES ==> TableSound(s, t))
    && (forall t, u :: 0 <= t < u < ENTRIES && s.tables[t] != 0 ==> s.tables[t] != s.tables[u])
  }

  ghost predicate TableSound(s: State, t: nat)
    requires Shaped(s) && t < ENTRIES
  {
    if s.tables[t] == 0 then !Has(s.physical[t].flags, 1)
    else
      && s.tables[t] % PAGE_SIZE == 0
      && Taken(s.words, s.tables[t] / PAGE_SIZE)
      && Has(s.physical[t].flags, 1)
      && s.physical[t].frame == s.tables[t] / PAGE_SIZE
  }

  /* ---- the two steps ---- */

  // Or-ing the flags into the frame's address does not change it.
  predicate Spares(flags: FlagWord, frame: nat) { OrBits(frame, flags.high) == frame }

  lemma LowFlagsSpare(flags: FlagWord, frame: nat)
    requires flags.high == 0
    ensures Spares(flags, frame)
  {
  }

  lemma AllocFacts(words: seq<bv32>) returns (f: nat)
    requires |words| > 0 && Taken(words, 0) && FirstFree(words, 0) < 32 * |words|
    ensures f == FirstFree(words, 0) && 0 < f < 32 * |words| && !Taken(words, f)
    ensures AllocAddress(words) == f * PAGE_SIZE && f * PAGE_SIZE != 0
    ensures f * PAGE_SIZE / PAGE_SIZE == f && f * PAGE_SIZE % PAGE_SIZE == 0
    ensures Allocated(words) == SetBit(words, f)
    ensures forall i: nat :: i < 32 * |words| ==> (Taken(Allocated(words), i) <==> i == f || Taken(words, i))
  {
    hide Taken, SetBit;
    f := FirstFree(words, 0);
    FrameAddress(f);
    forall i: nat | i < 32 * |words|
      ensures Taken(Allocated(words), i) <==> i == f || Taken(words, i)
    {
      BitMeaning(words, f, i);
    }
  }

  // A new table goes into a frame that was free, and changes no translation.
  lemma NewTableIsInvisible(s: State, t: nat, flags: FlagWord)
    requires Sound(s) && Taken(s.words, 0) && t < ENTRIES
    requires s.tables[t] == 0 && FirstFree(s.words, 0) < 32 * |s.words| && Spares(flags, FirstFree(s.words, 0))
    ensures var s' := WithTable(s, t, flags);
            && Sound(s') && s'.tables[t] != 0
            && s'.tables[t] / PAGE_SIZE == FirstFree(s.words, 0)
            && (forall q: nat :: q < ENTRIES * ENTRIES ==> Translate(s', q) == Translate(s, q))
  {
    var f := AllocFacts(s.words);
    OrPresent(flags.low);
    var s' := WithTable(s, t, flags);
    NewTableIsSound(s, t, flags);
    hide Has, Taken, FirstFree, SetBit;
    forall q: nat | q < ENTRIES * ENTRIES ensures Translate(s', q) == Translate(s, q) {
      if q / ENTRIES == t {
        assert s'.physical[t].frame == f && s'.memory[f][q % ENTRIES] == CLEARED;
        assert TableSound(s, t);
      } else {
        assert TableSound(s, q / ENTRIES);
        assert s'.physical[q / ENTRIES] == s.physical[q / ENTRIES];
        if s.tables[q / ENTRIES] != 0 {
          assert s.physical[q / ENTRIES].frame != f;
        }
      }
    }
  }

  lemma NewTableIsSound(s: State, t: nat, flags: FlagWord)
    requires Sound(s) && Taken(s.words, 0) && t < ENTRIES
    requires s.tables[t] == 0 && FirstFree(s.words, 0) < 32 * |s.words| && Spares(flags, FirstFree(s.words, 0))
    ensures Sound(WithTable(s, t, flags))
  {
    var f := AllocFacts(s.words);
    OrPresent(flags.low);
    hide Has, Taken, FirstFree, SetBit;
    var s' := WithTable(s, t, flags);
    forall u | 0 <= u < ENTRIES
      ensures TableSound(s', u)
      ensures u != t ==> s'.tables[u] != s'.tables[t]
    {
      assert TableSound(s, u);
    }
  }

  // Filling one slot of an existing table changes one page's translation.
  lemma EntryIsOnePage(s: State, page: nat, phys: nat, flags: FlagWord)
    requires Sound(s) && page < ENTRIES * ENTRIES && s.tables[page / ENTRIES] != 0
    ensures var s' := WithEntry(s, page / ENTRIES, page % ENTRIES, phys, flags);
            && Sound(s')
            && Translate(s', page) == Some(Granted(s, page, phys, flags))
            && (forall q: nat :: q < ENTRIES * ENTRIES && q != page ==> Translate(s', q) == Translate(s, q))
  {
    hide Has, Taken;
    var t := page / ENTRIES;
    var s' := WithEntry(s, t, page % ENTRIES, phys, flags);
    assert TableSound(s, t);
    forall u | 0 <= u < ENTRIES ensures TableSound(s', u) {
      assert TableSound(s, u);
    }
    forall q: nat | q < ENTRIES * ENTRIES && q != page ensures Translate(s', q) == Translate(s, q) {
      SlotsDiffer(page, q);
      assert TableSound(s, q / ENTRIES);
      if q / ENTRIES != t && s.tables[q / ENTRIES] != 0 {
        FramesDiffer(s, t, q / ENTRIES);
      }
    }
  }

  lemma SlotsDiffer(p: nat, q: nat)
    requires p != q
    ensures p / ENTRIES != q / ENTRIES || p % ENTRIES != q % ENTRIES
  {
  }

  lemma FramesDiffer(s: State, t: nat, u: nat)
    requires Sound(s) && t < ENTRIES && u < ENTRIES && t != u && s.tables[t] != 0 && s.tables[u] != 0
    ensures s.tables[t] / PAGE_SIZE != s.tables[u] / PAGE_SIZE
  {
    hide Has, Taken;
    assert TableSound(s, t) && TableSound(s, u);
    assert s.tables[t] != s.tables[u];
    SameFrame(s.tables[t], s.tables[u]);
  }

  lemma SameFrame(a: nat, b: nat)
    requires a % PAGE_SIZE == 0 && b % PAGE_SIZE == 0 && a != b
    ensures a / PAGE_SIZE != b / PAGE_SIZE
  {
  }

  // The requested frame, with the rights asked for as far as the directory word allows them.
  ghost function Granted(s: State, page: nat, phys: nat, flags: FlagWord): Access
    requires Shaped(s) && page < ENTRIES * ENTRIES
  {
    var word := s.physical[page / ENTRIES];
    Access(phys / PAGE_SIZE, Has(flags.low, 2) && Has(word.flags, 2), Has(flags.low, 4) && Has(word.flags, 4))
  }

  /* ---- map_page ---- */

  // A table is there, or a frame is free to hold one and the flags leave its address alone.
  ghost predicate CanMap(s: State, virt: nat, flags: FlagWord)
    requires Shaped(s) && virt < 0x1_0000_0000
  {
    s.tables[virt / PAGE_SIZE / ENTRIES] != 0
    || (FirstFree(s.words, 0) < 32 * |s.words| && Spares(flags, FirstFree(s.words, 0)))
  }

  lemma PageOf(virt: nat)
    requires virt < 0x1_0000_0000
    ensures virt / PAGE_SIZE < ENTRIES * ENTRIES && virt / PAGE_SIZE / ENTRIES < ENTRIES
  {
  }

  // `after` translates the page as asked and every other page as `before` does.
  ghost predicate OnlySets(before: State, after: State, page: nat, phys: nat, flags: FlagWord)
    requires Shaped(before) && Shaped(after) && page < ENTRIES * ENTRIES
  {
    && Translate(after, page) == Some(Granted(after, page, phys, flags))
    && (forall q: nat :: q < ENTRIES * ENTRIES && q != page ==> Translate(after, q) == Translate(before, q))
    && (forall u: nat :: u < ENTRIES ==> before.tables[u] != 0 ==> after.tables[u] == before.tables[u])
  }

  // With frame 0 taken and a frame to be had, mapping a page sets that page's translation and
  // no other, and tables stay in distinct used frames.
  lemma MapSetsOnePage(s: State, virt: nat, phys: nat, flags: FlagWord)
    requires Sound(s) && Taken(s.words, 0) && virt < 0x1_0000_0000 && CanMap(s, virt, flags)
    ensures virt / PAGE_SIZE < ENTRIES * ENTRIES
    ensures var s' := Mapped(s, virt, phys, flags);
            Sound(s') && Taken(s'.words, 0) && OnlySets(s, s', virt / PAGE_SIZE, phys, flags)
  {
    assert Shaped(s);
    PageOf(virt);
    hide Sound, OnlySets, OrBits, Spares, FirstFree, Taken, WithTable, WithEntry;
    var page := virt / PAGE_SIZE;
    var t := page / ENTRIES;
    if s.tables[t] == 0 {
      NewTableIsInvisible(s, t, flags);
      TableStepKeeps(s, t, flags);
      var ready := WithTable(s, t, flags);
      FillEntry(ready, page, phys, flags);
      OnlySetsAfter(s, ready, WithEntry(ready, t, page % ENTRIES, phys, flags), page, phys, flags);
    } else {
      FillEntry(s, page, phys, flags);
    }
  }

  lemma FillEntry(s: State, page: nat, phys: nat, flags: FlagWord)
    requires Sound(s) && Taken(s.words, 0) && page < ENTRIES * ENTRIES && s.tables[page / ENTRIES] != 0
    ensures var s' := WithEntry(s, page / ENTRIES, page % ENTRIES, phys, flags);
            Sound(s') && Taken(s'.words, 0) && OnlySets(s, s', page, phys, flags)
  {
    assert Shaped(s);
    hide Translate, Sound, WithEntry, Taken;
    EntryIsOnePage(s, page, phys, flags);
    EntryStepKeeps(s, page / ENTRIES, page % ENTRIES, phys, flags);
  }

  // A step that changes no translation may come first.
  lemma OnlySetsAfter(s: State, ready: State, s': State, page: nat, phys: nat, flags: FlagWord)
    requires Shaped(s) && Shaped(ready) && Shaped(s') && page < ENTRIES * ENTRIES && OnlySets(ready, s', page, phys, flags)
    requires forall q: nat :: q < ENTRIES * ENTRIES ==> Translate(ready, q) == Translate(s, q)
    requires forall u: nat :: u < ENTRIES && u != page / ENTRIES ==> ready.tables[u] == s.tables[u]
    requires s.tables[page / ENTRIES] == 0
    ensures OnlySets(s, s', page, phys, flags)
  {
    hide Translate, Granted;
  }

  // Mapping uses up at most one frame, a free one, and writes to no used frame other than
  // the page's own table.
  lemma MapLeavesFrames(s: State, virt: nat, phys: nat, flags: FlagWord)
    requires Sound(s) && Taken(s.words, 0) && virt < 0x1_0000_0000 && CanMap(s, virt, flags)
    ensures var s' := Mapped(s, virt, phys, flags);
            var t := virt / PAGE_SIZE / ENTRIES;
            && Used(s'.words) == Used(s.words) + {s'.tables[t] / PAGE_SIZE}
            && (forall f: nat :: f < |s.memory| && f in Used(s.words) && f != s'.tables[t] / PAGE_SIZE
                  ==> s'.memory[f] == s.memory[f])
  {
    hide Has, Taken, UsedBelow, SetBit;
    PageOf(virt);
    var page := virt / PAGE_SIZE;
    var t := page / ENTRIES;
    assert TableSound(s, t);
    if s.tables[t] == 0 {
      var f := AllocFacts(s.words);
      SetAddsOne(s.words, f);
    } else {
      assert s.tables[t] / PAGE_SIZE in Used(s.words);
    }
  }

  lemma TableStepKeeps(s: State, t: nat, flags: FlagWord)
    requires Shaped(s) && t < ENTRIES && Taken(s.words, 0) && FirstFree(s.words, 0) < 32 * |s.words|
    ensures Taken(WithTable(s, t, flags).words, 0)
    ensures forall u: nat :: u < ENTRIES && u != t ==> WithTable(s, t, flags).tables[u] == s.tables[u]
  {
    var f := AllocFacts(s.words);
  }

  lemma EntryStepKeeps(s: State, t: nat, slot: nat, phys: nat, flags: FlagWord)
    requires Shaped(s) && t < ENTRIES && slot < ENTRIES
    ensures var s' := WithEntry(s, t, slot, phys, flags);
            s'.words == s.words && s'.tables == s.tables && s'.physical == s.physical
  {
  }

  /* ---- addresses ---- */

  // The walk of 32-bit paging for a linear address: ten bits choose the directory word, ten
  // the table entry, twelve are the place in the page.
  ghost function Walk(s: State, a: nat): Option<nat>
    requires Shaped(s) && a < 0x1_0000_0000
  {
    var word := s.physical[a / 0x40_0000];
    if !Has(word.flags, 1) || word.frame >= |s.memory| then None
    else
      var e := s.memory[word.frame][a / 0x1000 % 0x400];
      if e.present then Some(e.frame * 0x1000 + a % 0x1000) else None
  }

  lemma WalkIsTranslate(s: State, a: nat)
    requires Shaped(s) && a < 0x1_0000_0000
    ensures a / 0x1000 < ENTRIES * ENTRIES
    ensures Walk(s, a) == match Translate(s, a / 0x1000) case None => None case Some(x) => Some(x.frame * 0x1000 + a % 0x1000)
  {
    PageOf(a);
    TwoLevels(a);
    hide Has;
  }

  lemma TwoLevels(a: nat)
    ensures a / 0x1000 / 0x400 == a / 0x40_0000
  {
    var q, r := a / 0x40_0000, a % 0x40_0000;
    assert a / 0x1000 == 0x400 * q + r / 0x1000;
  }

  // After map_page the 4 KiB at the virtual page are the 4 KiB at the physical page, byte by
  // byte, and every other address goes where it went before.
  lemma MapMovesOnePage(s: State, virt: nat, phys: nat, flags: FlagWord, a: nat)
    requires Sound(s) && Taken(s.words, 0) && virt < 0x1_0000_0000 && CanMap(s, virt, flags) && a < 0x1_0000_0000
    ensures var s' := Mapped(s, virt, phys, flags);
            Walk(s', a) == if virt - virt % 0x1000 <= a < virt - virt % 0x1000 + 0x1000
                           then Some(phys - phys % 0x1000 + (a - (virt - virt % 0x1000))) else Walk(s, a)
  {
    assert Shaped(s);
    hide Sound, Translate, Walk, Taken, CanMap, Mapped;
    MapSetsOnePage(s, virt, phys, flags);
    var s' := Mapped(s, virt, phys, flags);
    WalkIsTranslate(s, a);
    WalkIsTranslate(s', a);
    SamePageIff(virt, a);
    assert phys / 0x1000 * 0x1000 == phys - phys % 0x1000;
  }

  lemma SamePageIff(virt: nat, a: nat)
    ensures virt / 0x1000 == a / 0x1000 <==> virt - virt % 0x1000 <= a < virt - virt % 0x1000 + 0x1000
    ensures virt / 0x1000 == a / 0x1000 ==> a % 0x1000 == a - (virt - virt % 0x1000)
  {
  }

  // The page's entry says what the flags ask for, bit by bit; the other bits are as they were,
  // or clear in a table just made.
  lemma EntryFields(s: State, virt: nat, phys: nat, flags: FlagWord)
    requires Shaped(s) && virt < 0x1_0000_0000
    ensures var s', t, slot := Mapped(s, virt, phys, flags), virt / 0x40_0000, virt / 0x1000 % 0x400;
            && t < ENTRIES && slot < ENTRIES
            && var e := s'.memory[s'.tables[t] / 0x1000][slot];
               var before := s.memory[s.tables[t] / 0x1000][slot];
               && e.frame == phys / 0x1000 && e.present
               && e.rw == (flags.low & 0x02 != 0) && e.user == (flags.low & 0x04 != 0)
               && e.pwt == (flags.low & 0x08 != 0) && e.pcd == (flags.low & 0x10 != 0)
               && (s.tables[t] != 0 ==> e.accessed == before.accessed && e.dirty == before.dirty && e.pat == before.pat
                                        && e.global == before.global && e.avail == before.avail)
               && (s.tables[t] == 0 ==> !e.accessed && !e.dirty && !e.pat && !e.global && e.avail == 0)
  {
    PageOf(virt);
    TwoLevels(virt);
    hide AllocAddress, Allocated, OrBits;
  }

  /* ---- runs of mappings ---- */

  datatype Mapping = Mapping(virt: nat, phys: nat, flags: FlagWord)

  ghost predicate Addresses(ms: seq<Mapping>) {
    forall i :: 0 <= i < |ms| ==> ms[i].virt < 0x1_0000_0000
  }

  ghost function MapAll(s: State, ms: seq<Mapping>): (r: State)
    requires Shaped(s) && Addresses(ms)
    ensures Shaped(r)
    decreases |ms|
  {
    if ms == [] then s else MapAll(Mapped(s, ms[0].virt, ms[0].phys, ms[0].flags), ms[1..])
  }

  ghost predicate CanMapAll(s: State, ms: seq<Mapping>)
    requires Shaped(s) && Addresses(ms)
    decreases |ms|
  {
    ms == [] || (CanMap(s, ms[0].virt, ms[0].flags) && CanMapAll(Mapped(s, ms[0].virt, ms[0].phys, ms[0].flags), ms[1..]))
  }

  function FrameOf(a: Option<Access>): Option<nat> {
    if a.None? then None else Some(a.value.frame)
  }

  // The frame the last mapping of the page asked for.
  function LastRequest(ms: seq<Mapping>, page: nat, otherwise: Option<nat>): Option<nat> {
    if ms == [] then otherwise
    else LastRequest(ms[1..], page, if ms[0].virt / PAGE_SIZE == page then Some(ms[0].phys / PAGE_SIZE) else otherwise)
  }

  // Over any run of mappings, every page translates to the frame last asked for it.
  lemma {:induction false} MapAllTranslates(s: State, ms: seq<Mapping>, page: nat)
    requires Sound(s) && Taken(s.words, 0) && Addresses(ms) && CanMapAll(s, ms) && page < ENTRIES * ENTRIES
    ensures Sound(MapAll(s, ms))
    ensures FrameOf(Translate(MapAll(s, ms), page)) == LastRequest(ms, page, FrameOf(Translate(s, page)))
    decreases |ms|
  {
    if ms != [] {
      hide Translate, Sound, Mapped, CanMap, Taken;
      MapSetsOnePage(s, ms[0].virt, ms[0].phys, ms[0].flags);
      MapAllTranslates(Mapped(s, ms[0].virt, ms[0].phys, ms[0].flags), ms[1..], page);
    }
  }

  // The tables that the mappings name and that are still to be made.
  ghost function NewTables(s: State, ms: seq<Mapping>): set<nat>
    requires Shaped(s) && Addresses(ms)
  {
    set t | t in Tables(ms) && s.tables[t] == 0
  }

  ghost function Tables(ms: seq<Mapping>): (r: set<nat>)
    requires Addresses(ms)
    ensures forall t :: t in r ==> t < ENTRIES
  {
    if ms == [] then {} else {TableOf(ms[0])} + Tables(ms[1..])
  }

  function TableOf(m: Mapping): (t: nat)
    ensures m.virt < 0x1_0000_0000 ==> t < ENTRIES
  {
    m.virt / PAGE_SIZE / ENTRIES
  }

  // A run can be mapped exactly when there are as many free frames as tables to be made.
  lemma {:induction false} CanMapAllIff(s: State, ms: seq<Mapping>)
    requires Sound(s) && Taken(s.words, 0) && Addresses(ms) && forall i :: 0 <= i < |ms| ==> ms[i].flags.high == 0
    ensures CanMapAll(s, ms) <==> |Used(s.words)| + |NewTables(s, ms)| <= 32 * |s.words|
    decreases |ms|
  {
    assert Shaped(s);
    hide Sound, Mapped, CanMap, Taken, Used, NewTables;
    if ms == [] {
      UsedBound(s.words);
      NothingNew(s);
    } else {
      var m := ms[0];
      CanMapIff(s, m.virt, m.flags);
      if CanMap(s, m.virt, m.flags) {
        MapSetsOnePage(s, m.virt, m.phys, m.flags);
        FrameTaken(s, ms);
        CanMapAllIff(Mapped(s, m.virt, m.phys, m.flags), ms[1..]);
      } else {
        NewIsCounted(s, ms);
      }
    }
  }

  lemma NothingNew(s: State)
    requires Shaped(s)
    ensures NewTables(s, []) == {}
  {
  }

  lemma NewIsCounted(s: State, ms: seq<Mapping>)
    requires Shaped(s) && Addresses(ms) && ms != [] && s.tables[TableOf(ms[0])] == 0
    ensures TableOf(ms[0]) in NewTables(s, ms) && |NewTables(s, ms)| > 0
  {
    assert TableOf(ms[0]) in NewTables(s, ms);
  }

  lemma UsedBound(words: seq<bv32>)
    ensures |Used(words)| <= 32 * |words|
    ensures FirstFree(words, 0) < 32 * |words| <==> |Used(words)| < 32 * |words|
  {
    hide Taken, UsedBelow;
    var n, f := 32 * |words|, FirstFree(words, 0);
    Counting.SubsetSize(Used(words), Counting.Below(n));
    if f < n {
      assert Used(words) <= Counting.Below(n) - {f};
      Counting.SubsetSize(Used(words), Counting.Below(n) - {f});
    } else {
      assert Counting.Below(n) <= Used(words);
      Counting.SubsetSize(Counting.Below(n), Used(words));
    }
  }

  lemma CanMapIff(s: State, virt: nat, flags: FlagWord)
    requires Shaped(s) && virt < 0x1_0000_0000 && flags.high == 0
    ensures CanMap(s, virt, flags) <==> s.tables[virt / PAGE_SIZE / ENTRIES] != 0 || |Used(s.words)| < 32 * |s.words|
  {
    hide Used, FirstFree;
    UsedBound(s.words);
    LowFlagsSpare(flags, FirstFree(s.words, 0));
  }

  // A mapping that makes a table turns a free frame into one table less to make.
  lemma FrameTaken(s: State, ms: seq<Mapping>)
    requires Sound(s) && Taken(s.words, 0) && Addresses(ms) && ms != [] && CanMap(s, ms[0].virt, ms[0].flags)
    ensures var s' := Mapped(s, ms[0].virt, ms[0].phys, ms[0].flags);
            |Used(s'.words)| + |NewTables(s', ms[1..])| == |Used(s.words)| + |NewTables(s, ms)| && |s'.words| == |s.words|
  {
    assert Shaped(s);
    hide Sound, Taken, Used, FirstFree, Spares, Has, WithEntry, AllocAddress;
    var m, t := ms[0], TableOf(ms[0]);
    var s' := Mapped(s, m.virt, m.phys, m.flags);
    var ready := if s.tables[t] == 0 then WithTable(s, t, m.flags) else s;
    EntryStepKeeps(ready, t, m.virt / PAGE_SIZE % ENTRIES, m.phys, m.flags);
    if s.tables[t] == 0 {
      var f := AllocFacts(s.words);
      SetAddsOne(s.words, f);
      FreeIsNew(s.words, f);
    }
    RestIsNew(s, s', ms);
  }

  lemma FreeIsNew(words: seq<bv32>, f: nat)
    requires f < 32 * |words| && !Taken(words, f)
    ensures f !in Used(words)
  {
    hide Taken, UsedBelow;
  }

  lemma RestIsNew(s: State, s': State, ms: seq<Mapping>)
    requires Shaped(s) && Shaped(s') && Addresses(ms) && ms != []
    requires s'.tables == s.tables[TableOf(ms[0]) := s'.tables[TableOf(ms[0])]] && s'.tables[TableOf(ms[0])] != 0
    ensures |NewTables(s', ms[1..])| == |NewTables(s, ms)| - if s.tables[TableOf(ms[0])] == 0 then 1 else 0
  {
    hide TableOf;
    var t := TableOf(ms[0]);
    assert NewTables(s', ms[1..]) == NewTables(s, ms) - {t};
  }

  /* ---- frame 0 ---- */

  lemma AllocIsNullIff(words: seq<bv32>)
    requires |words| > 0
    ensures AllocAddress(words) == 0 <==> !Taken(words, 0) || IsFull(Used(words), 32 * |words|)
  {
    hide Taken, UsedBelow;
    var f := FirstFree(words, 0);
    assert f < 32 * |words| ==> f !in Used(words);
    if f == 32 * |words| {
      forall i: nat | i < 32 * |words| ensures i in Used(words) {
        assert Taken(words, i);
      }
    }
  }

  // Mapping two pages of one table: the first survives the second exactly when the table was
  // there already, or frame 0 is taken and some frame is free.
  lemma MappingLastsIff(s: State, m: Mapping, k: Mapping)
    requires Sound(s) && m.virt < 0x1_0000_0000 && k.virt < 0x1_0000_0000
    requires m.virt / PAGE_SIZE != k.virt / PAGE_SIZE
    requires m.virt / PAGE_SIZE / ENTRIES == k.virt / PAGE_SIZE / ENTRIES
    requires m.flags.high == k.flags.high == 0
    ensures var once := Mapped(s, m.virt, m.phys, m.flags);
            var twice := Mapped(once, k.virt, k.phys, k.flags);
            var page := m.virt / PAGE_SIZE;
            && FrameOf(Translate(once, page)) == Some(m.phys / PAGE_SIZE)
            && (Translate(twice, page) == Translate(once, page) <==>
                  s.tables[page / ENTRIES] != 0 || (Taken(s.words, 0) && !IsFull(Used(s.words), 32 * |s.words|)))
  {
    AllocIsNullIff(s.words);
    hide Used, Taken, IsFull, AllocAddress;
    PageOf(m.virt);
    PageOf(k.virt);
    var page, other := m.virt / PAGE_SIZE, k.virt / PAGE_SIZE;
    var t := page / ENTRIES;
    var once := Mapped(s, m.virt, m.phys, m.flags);
    FirstMappingShows(s, m);
    if s.tables[t] != 0 || AllocAddress(s.words) != 0 {
      SecondKeeps(once, k, page);
    } else {
      SecondHides(once, k, page);
    }
  }

  // The processor finds the kernel's table.
  ghost predicate Linked(s: State, t: nat)
    requires Shaped(s) && t < ENTRIES
  {
    Has(s.physical[t].flags, 1) && s.physical[t].frame == s.tables[t] / PAGE_SIZE
  }

  lemma NewTableIsLinked(s: State, t: nat, flags: FlagWord)
    requires Shaped(s) && t < ENTRIES && flags.high == 0
    ensures var s' := WithTable(s, t, flags); Linked(s', t) && s'.tables[t] == AllocAddress(s.words)
  {
    LowFlagsSpare(flags, AllocAddress(s.words) / PAGE_SIZE);
    LinkedIffSpared(s, t, flags);
    hide Has, AllocAddress, Allocated, OrBits;
  }

  // The processor walks the table just made exactly when the flags spare its address.
  lemma LinkedIffSpared(s: State, t: nat, flags: FlagWord)
    requires Shaped(s) && t < ENTRIES
    ensures Linked(WithTable(s, t, flags), t) <==> Spares(flags, AllocAddress(s.words) / PAGE_SIZE)
  {
    OrPresent(flags.low);
    hide Has, AllocAddress, Allocated, OrBits;
  }

  lemma EntryShows(s: State, page: nat, phys: nat, flags: FlagWord)
    requires Shaped(s) && page < ENTRIES * ENTRIES && Linked(s, page / ENTRIES)
    ensures var s' := WithEntry(s, page / ENTRIES, page % ENTRIES, phys, flags);
            FrameOf(Translate(s', page)) == Some(phys / PAGE_SIZE)
  {
    hide Has;
  }

  lemma FirstMappingShows(s: State, m: Mapping)
    requires Sound(s) && m.virt < 0x1_0000_0000 && m.flags.high == 0
    ensures var once := Mapped(s, m.virt, m.phys, m.flags);
            var t := m.virt / PAGE_SIZE / ENTRIES;
            && FrameOf(Translate(once, m.virt / PAGE_SIZE)) == Some(m.phys / PAGE_SIZE)
            && once.tables[t] == (if s.tables[t] != 0 then s.tables[t] else AllocAddress(s.words))
  {
    hide Has, Taken, WithTable, WithEntry, Translate, AllocAddress;
    PageOf(m.virt);
    var page := m.virt / PAGE_SIZE;
    var t := page / ENTRIES;
    assert TableSound(s, t);
    var ready := if s.tables[t] == 0 then WithTable(s, t, m.flags) else s;
    NewTableIsLinked(s, t, m.flags);
    EntryShows(ready, page, m.phys, m.flags);
    EntryStepKeeps(ready, t, page % ENTRIES, m.phys, m.flags);
  }

  lemma SecondKeeps(s: State, k: Mapping, page: nat)
    requires Shaped(s) && k.virt < 0x1_0000_0000 && page < ENTRIES * ENTRIES
    requires page != k.virt / PAGE_SIZE && page / ENTRIES == k.virt / PAGE_SIZE / ENTRIES
    requires s.tables[page / ENTRIES] != 0
    ensures Translate(Mapped(s, k.virt, k.phys, k.flags), page) == Translate(s, page)
  {
    hide Has;
    PageOf(k.virt);
    SlotsDiffer(page, k.virt / PAGE_SIZE);
  }

  lemma SecondHides(s: State, k: Mapping, page: nat)
    requires Shaped(s) && k.virt < 0x1_0000_0000 && page < ENTRIES * ENTRIES
    requires page != k.virt / PAGE_SIZE && page / ENTRIES == k.virt / PAGE_SIZE / ENTRIES
    requires s.tables[page / ENTRIES] == 0 && k.flags.high == 0
    ensures Translate(Mapped(s, k.virt, k.phys, k.flags), page) == None
  {
    LowFlagsSpare(k.flags, AllocAddress(s.words) / PAGE_SIZE);
    hide OrBits;
    hide Has, Taken, FirstFree, SetBit;
    PageOf(k.virt);
    AddressInRange(s.words);
    SlotsDiffer(page, k.virt / PAGE_SIZE);
  }

  /* ---- the boot-time identity map ---- */

  // The used frames are the first n.
  ghost predicate FirstTaken(words: seq<bv32>, n: nat) {
    forall k: nat :: k < 32 * |words| ==> (Taken(words, k) <==> k < n)
  }

  ghost predicate NoTables(s: State, first: nat)
    requires Shaped(s)
  {
    && (forall t :: 0 <= t < ENTRIES ==> s.tables[t] == 0)
    && (forall t: nat :: first <= t < ENTRIES ==> !Has(s.physical[t].flags, 1))
  }

  // After i pages of the identity map, starting from an empty bitmap.
  ghost predicate Identity(s: State, i: nat) {
    && Shaped(s)
    && if i == 0 then FirstTaken(s.words, 0) && NoTables(s, 0)
       else if i == 1 then FirstTaken(s.words, 1) && NoTables(s, 1)
       else
         && Sound(s) && FirstTaken(s.words, 2) && s.tables[0] == PAGE_SIZE
         && (forall q: nat :: q < ENTRIES * ENTRIES ==> FrameOf(Translate(s, q)) == (if 1 <= q < i then Some(q) else None))
  }

  lemma TakesNext(words: seq<bv32>, n: nat)
    requires FirstTaken(words, n) && n < 32 * |words|
    ensures AllocAddress(words) == n * PAGE_SIZE && FirstTaken(Allocated(words), n + 1)
    ensures n * PAGE_SIZE / PAGE_SIZE == n
  {
    hide Taken, SetBit;
    FrameAddress(n);
    assert FirstFree(words, 0) == n by {
      assert !Taken(words, n);
    }
    forall k: nat | k < 32 * |words| ensures Taken(Allocated(words), k) <==> k < n + 1 {
      BitMeaning(words, n, k);
    }
  }

  // Page 0's table lands in frame 0 and is not recognised as a table.
  lemma IdentityFirst(s: State)
    requires Identity(s, 0)
    ensures Identity(Mapped(s, 0, 0, KERNEL), 1)
  {
    TakesNext(s.words, 0);
    hide Has, Taken, AllocAddress, Allocated;
  }

  // So page 1 gets a new one, which starts out empty.
  lemma IdentitySecond(s: State)
    requires Identity(s, 1)
    ensures Identity(Mapped(s, PAGE_SIZE, PAGE_SIZE, KERNEL), 2)
  {
    TakesNext(s.words, 1);
    OrPresent(3);
    var ready := WithTable(s, 0, KERNEL);
    hide Has, Taken, AllocAddress, Allocated;
    forall t | 0 <= t < ENTRIES ensures TableSound(ready, t) {
    }
    forall q: nat | q < ENTRIES * ENTRIES ensures Translate(ready, q) == None {
      if q / ENTRIES == 0 {
        assert ready.memory[1][q % ENTRIES] == CLEARED;
      }
    }
    EntryIsOnePage(ready, 1, PAGE_SIZE, KERNEL);
    hide Translate;
    EntryStepKeeps(ready, 0, 1, PAGE_SIZE, KERNEL);
  }

  lemma IdentityNext(s: State, i: nat)
    requires Identity(s, i) && 2 <= i < ENTRIES
    ensures Identity(Mapped(s, i * PAGE_SIZE, i * PAGE_SIZE, KERNEL), i + 1)
  {
    hide Has, Taken, Translate, Sound;
    FrameAddress(i);
    assert i / ENTRIES == 0;
    assert Taken(s.words, 0);
    MapSetsOnePage(s, i * PAGE_SIZE, i * PAGE_SIZE, KERNEL);
    EntryStepKeeps(s, 0, i, i * PAGE_SIZE, KERNEL);
    var s' := Mapped(s, i * PAGE_SIZE, i * PAGE_SIZE, KERNEL);
    forall q: nat | q < ENTRIES * ENTRIES
      ensures FrameOf(Translate(s', q)) == (if 1 <= q < i + 1 then Some(q) else None)
    {
      if q != i { assert Translate(s', q) == Translate(s, q); }
    }
  }

  /* ---- the kernel's code ---- */

  class Paging {
    const allocator: Allocator
    const tables: array<nat>
    const physical: array<DirectoryWord>
    const memory: array<seq<Entry>>

    constructor (allocator: Allocator, tables: array<nat>, physical: array<DirectoryWord>, memory: array<seq<Entry>>)
      ensures this.allocator == allocator && this.tables == tables && this.physical == physical && this.memory == memory
    {
      this.allocator, this.tables, this.physical, this.memory := allocator, tables, physical, memory;
    }

    // Four different arrays.
    ghost predicate Separate() {
      var a: object, b: object, c: object, d: object := allocator.frames, tables, physical, memory;
      a != b && a != c && a != d && b != c && b != d && c != d
    }

    ghost function Now(): State
      reads allocator.frames, tables, physical, memory
    {
      State(allocator.frames[..], tables[..], physical[..], memory[..])
    }

    method MapPage(virt: nat, phys: nat, flags: FlagWord)
      requires Separate() && Shaped(Now()) && virt < 0x1_0000_0000
      modifies allocator.frames, tables, physical, memory
      ensures Now() == Mapped(old(Now()), virt, phys, flags)
    {
      hide Has, AllocAddress, Allocated;
      PageOf(virt);
      var page := virt / PAGE_SIZE;
      var t := page / ENTRIES;
      if tables[t] == 0 {
        CreateTable(t, flags);
      }
      ghost var ready := Now();
      var f := tables[t] / PAGE_SIZE;
      assert ready.memory[f] == memory[f];
      memory[f] := memory[f][page % ENTRIES := Filled(memory[f][page % ENTRIES], phys, flags)];
      assert Now() == WithEntry(ready, t, page % ENTRIES, phys, flags);
    }

    // Page 0 ends up without a translation, because the bitmap starts without frame 0.
    method PagingInit()
      requires Separate() && allocator.frames.Length > 0
      requires tables.Length == physical.Length == ENTRIES && memory.Length == 32 * allocator.frames.Length
      requires forall f :: 0 <= f < memory.Length ==> |memory[f]| == ENTRIES
      modifies allocator.frames, tables, physical, memory
      ensures Sound(Now()) && FirstTaken(allocator.frames[..], 2)
      ensures forall q: nat :: q < ENTRIES * ENTRIES ==>
                FrameOf(Translate(Now(), q)) == (if 1 <= q < ENTRIES then Some(q) else None)
    {
      hide Translate, Sound;
      Reset();
      var i := 0;
      while i < ENTRIES
        invariant i <= ENTRIES && Identity(Now(), i)
      {
        PageFits(i);
        if i == 0 {
          IdentityFirst(Now());
        } else if i == 1 {
          IdentitySecond(Now());
        } else {
          IdentityNext(Now(), i);
        }
        hide Identity, Mapped;
        MapPage(i * PAGE_SIZE, i * PAGE_SIZE, KERNEL);
        i := i + 1;
      }
    }

    method Reset()
      requires Separate() && allocator.frames.Length > 0
      requires tables.Length == physical.Length == ENTRIES && memory.Length == 32 * allocator.frames.Length
      requires forall f :: 0 <= f < memory.Length ==> |memory[f]| == ENTRIES
      modifies allocator.frames, tables, physical
      ensures Identity(Now(), 0)
    {
      var i := 0;
      while i < allocator.frames.Length
        modifies allocator.frames
        invariant i <= allocator.frames.Length
        invariant forall k :: 0 <= k < i ==> allocator.frames[k] == 0
      {
        allocator.frames[i] := 0;
        i := i + 1;
      }
      NothingTaken(allocator.frames[..]);
      ghost var words := allocator.frames[..];
      i := 0;
      while i < ENTRIES
        modifies tables, physical
        invariant i <= ENTRIES && allocator.frames[..] == words
        invariant forall k :: 0 <= k < i ==> tables[k] == 0 && physical[k] == DirectoryWord(0, 0)
      {
        tables[i] := 0;
        physical[i] := DirectoryWord(0, 0);
        i := i + 1;
      }
      NoFlags();
      hide Has, Taken;
    }

    method CreateTable(t: nat, flags: FlagWord)
      requires Separate() && Shaped(Now()) && t < ENTRIES
      modifies allocator.frames, tables, physical, memory
      ensures Now() == WithTable(old(Now()), t, flags)
    {
      hide Has, AllocAddress, Allocated;
      ghost var s := Now();
      AddressInRange(s.words);
      var addr := NewFrame();
      assert allocator.frames[..] == Allocated(s.words) && tables[..] == s.tables && physical[..] == s.physical;
      tables[t] := addr;
      assert tables[..] == s.tables[t := addr] && allocator.frames[..] == Allocated(s.words) && physical[..] == s.physical;
      physical[t] := DirectoryWord(OrBits(addr / PAGE_SIZE, flags.high), flags.low | 1);
      assert physical[..] == s.physical[t := DirectoryWord(OrBits(addr / PAGE_SIZE, flags.high), flags.low | 1)];
      var f := addr / PAGE_SIZE;
      var i := 0;
      while i < ENTRIES
        invariant i <= ENTRIES
        invariant allocator.frames[..] == Allocated(s.words)
        invariant tables[..] == s.tables[t := addr]
        invariant physical[..] == s.physical[t := DirectoryWord(OrBits(addr / PAGE_SIZE, flags.high), flags.low | 1)]
        invariant |memory[f]| == ENTRIES && forall k :: 0 <= k < i ==> memory[f][k] == CLEARED
        invariant forall g :: 0 <= g < memory.Length && g != f ==> memory[g] == s.memory[g]
      {
        memory[f] := memory[f][i := CLEARED];
        i := i + 1;
      }
      assert memory[f] == seq(ENTRIES, _ => CLEARED);
      assert memory[..] == s.memory[f := seq(ENTRIES, _ => CLEARED)];
    }

    method NewFrame() returns (addr: nat)
      modifies allocator.frames
      ensures addr == AllocAddress(old(allocator.frames[..]))
      ensures allocator.frames[..] == Allocated(old(allocator.frames[..]))
    {
      FreeIsLowest(allocator.frames[..]);
      hide Used, SetBit, Taken, FirstFree;
      addr := allocator.AllocFrame();
    }
  }

  lemma PageFits(i: nat)
    requires i < ENTRIES
    ensures i * PAGE_SIZE < 0x1_0000_0000
  {
  }

  lemma NoFlags()
    ensures !Has(0, 1)
  {
  }

  lemma NothingTaken(words: seq<bv32>)
    requires forall k :: 0 <= k < |words| ==> words[k] == 0
    ensures FirstTaken(words, 0)
  {
    hide Weight;
    forall k: nat | k < 32 * |words| ensures !Taken(words, k) {
      ZeroHasNone(k % 32);
    }
  }

  lemma ZeroHasNone(j: nat)
    ensures !Bit(0, j)
  {
    hide Weight;
  }

  lemma FreeIsLowest(words: seq<bv32>)
    ensures var used, n, f := Used(words), 32 * |words|, FirstFree(words, 0);
            && (f == n <==> IsFull(used, n))
            && (forall k: nat :: IsLowestFree(used, n, k) ==> k == f)
            && (f < n ==> f * PAGE_SIZE / PAGE_SIZE == f)
            && (forall addr: nat :: addr % PAGE_SIZE == 0 && addr / PAGE_SIZE == f ==> addr == f * PAGE_SIZE)
  {
    hide Taken, UsedBelow;
    var used, n, f := Used(words), 32 * |words|, FirstFree(words, 0);
    if f < n {
      FrameAddress(f);
      assert f !in used;
    } else {
      forall i: nat | i < n ensures i in used { assert Taken(words, i); }
    }
    forall k: nat | IsLowestFree(used, n, k) ensures k == f {
      assert !Taken(words, k);
      assert f < k ==> f in used;
    }
  }
}
