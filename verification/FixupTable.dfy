/** The PE base-relocation table: `add_fixup_entry` and
    `finish_reloc_translation_pe` of grub/util/grub-mkimagexx.c.

    A block covers one 4 KiB page: an 8-byte header (page_rva, block_size) and
    16-bit entries `type << 12 | offset`.  Entries of type 0 are padding. */
module FixupTable {
  import opened Align
  import opened Bytes
  import opened Counting
  import opened Options

  const PAGE: nat := 0x1000
  const TWO32: nat := 0x1_0000_0000
  const HEADER: nat := 8       // sizeof (struct grub_pe32_fixup_block)
  const CAPACITY: nat := 0x1000 // entries allocated behind each block header

  datatype Fixup = Fixup(kind: nat, addr: nat)

  ghost predicate ValidFixup(f: Fixup) {
    0 < f.kind < 16 && f.addr < TWO32
  }

  datatype Block = Block(pageRva: nat, entries: seq<nat>)

  // What the builder holds: the blocks already written out, the open block (if
  // any), and `current_address`.
  datatype Table = Table(finished: seq<Block>, open: Option<Block>, address: nat)

  const EMPTY := Table([], None, 0)

  function BlockSize(b: Block): nat {
    HEADER + 2 * |b.entries|
  }

  function PageOf(addr: nat): nat {
    addr / PAGE * PAGE
  }

  // The test `addr < page_rva || page_rva + 0x1000 <= addr`; the sum is a
  // 32-bit one, so for the topmost page it is zero and every address leaves it.
  predicate LeavesPage(pageRva: nat, addr: nat) {
    addr < pageRva || (pageRva + PAGE) % TWO32 <= addr
  }

  function Padded(b: Block, n: nat): (p: Block)
    ensures |p.entries| == |b.entries| + n && p.pageRva == b.pageRva
  {
    Block(b.pageRva, b.entries + seq(n, i => 0))
  }

  lemma PaddedZero(b: Block)
    ensures Padded(b, 0) == b
  {
  }

  lemma PaddedTwice(b: Block, m: nat, n: nat)
    ensures Padded(Padded(b, m), n) == Padded(b, m + n)
  {
    assert Padded(Padded(b, m), n).entries == Padded(b, m + n).entries;
  }

  // Padding entries that bring a block to a multiple of 8 bytes.
  function PaddingTo8(b: Block): nat {
    (4 - |b.entries| % 4) % 4
  }

  // Padding entries that bring the end of the table to a section boundary.
  function FinalPadding(address: nat, b: Block, sectionAlign: nat): nat
    requires sectionAlign > 0
  {
    (AlignUp(address + BlockSize(b), sectionAlign) - (address + BlockSize(b))) / 2
  }

  function Close(t: Table, b: Block): Table {
    Table(t.finished + [b], None, t.address + BlockSize(b))
  }

  // The table with the open block closed if `f` leaves its page.
  function MoveToPage(t: Table, f: Fixup): Table {
    if t.open.Some? && LeavesPage(t.open.value.pageRva, f.addr)
    then Close(t, Padded(t.open.value, PaddingTo8(t.open.value))) else t
  }

  // add_fixup_entry with flush == 0; None is "too many fixup entries".
  function Add(t: Table, f: Fixup): Option<Table> {
    var t1 := MoveToPage(t, f);
    var b := if t1.open.None? then Block(PageOf(f.addr), []) else t1.open.value;
    if |b.entries| >= CAPACITY then None
    else Some(t1.(open := Some(Block(b.pageRva, b.entries + [f.kind * PAGE + (f.addr - b.pageRva)]))))
  }

  // add_fixup_entry with flush == 1.
  function Finish(t: Table, sectionAlign: nat): Table
    requires sectionAlign > 0
  {
    if t.open.None? then t
    else Close(t, Padded(t.open.value, FinalPadding(t.address, t.open.value, sectionAlign)))
  }

  function AddAll(t: Table, fs: seq<Fixup>): Option<Table>
    decreases |fs|
  {
    if fs == [] then Some(t)
    else match AddAll(t, fs[..|fs| - 1])
      case None => None
      case Some(t') => Add(t', fs[|fs| - 1])
  }

  /* ---- the reader ---- */

  function EntryBytes(es: seq<nat>): (s: seq<byte>)
    ensures |s| == 2 * |es|
  {
    if es == [] then [] else EncodeLE(es[0], 2) + EntryBytes(es[1..])
  }

  function BlockBytes(b: Block): (s: seq<byte>)
    ensures |s| == BlockSize(b)
  {
    EncodeLE(b.pageRva, 4) + EncodeLE(BlockSize(b), 4) + EntryBytes(b.entries)
  }

  function TableBytes(bs: seq<Block>): seq<byte> {
    if bs == [] then [] else BlockBytes(bs[0]) + TableBytes(bs[1..])
  }

  function TotalSize(bs: seq<Block>): nat {
    if bs == [] then 0 else BlockSize(bs[0]) + TotalSize(bs[1..])
  }

  // Reads the 16-bit entries of one block, skipping type 0.
  function ReadEntries(page: nat, s: seq<byte>): seq<Fixup>
    requires |s| % 2 == 0
    decreases |s|
  {
    if s == [] then []
    else
      var e := DecodeLE(s[..2]);
      (if e / 0x1000 == 0 then [] else [Fixup(e / 0x1000, page + e % 0x1000)]) + ReadEntries(page, s[2..])
  }

  // A loader's reading of the .reloc section, after "The .reloc Section (Image
  // Only)" of the Microsoft PE/COFF specification.
  function ReadTable(s: seq<byte>): Option<seq<Fixup>>
    decreases |s|
  {
    if s == [] then Some([])
    else if |s| < 8 then None
    else
      var size := DecodeLE(s[4..8]);
      if size < 8 || size > |s| || size % 2 != 0 then None
      else match ReadTable(s[size..])
        case None => None
        case Some(rest) => Some(ReadEntries(DecodeLE(s[..4]), s[8..size]) + rest)
  }

  /* ---- contents of a block list ---- */

  // The fixups an entry stands for: none for padding.
  ghost function EntryFixup(page: nat, e: nat): seq<Fixup> {
    if e / PAGE == 0 then [] else [Fixup(e / PAGE, page + e % PAGE)]
  }

  ghost function EntryFixups(page: nat, es: seq<nat>): seq<Fixup> {
    if es == [] then [] else EntryFixup(page, es[0]) + EntryFixups(page, es[1..])
  }

  ghost function Contents(bs: seq<Block>): seq<Fixup> {
    if bs == [] then [] else EntryFixups(bs[0].pageRva, bs[0].entries) + Contents(bs[1..])
  }

  ghost function OpenContents(t: Table): seq<Fixup> {
    if t.open.None? then [] else EntryFixups(t.open.value.pageRva, t.open.value.entries)
  }

  ghost predicate ValidBlock(b: Block) {
    && b.pageRva < TWO32 && b.pageRva % PAGE == 0
    && BlockSize(b) < TWO32
    && forall i :: 0 <= i < |b.entries| ==> b.entries[i] < 0x1_0000
  }

  // The state after a run of Adds.  Every finished block is a multiple of 8 bytes
  // and fits the memory allocated for it; `address` is the size of what is written.
  ghost predicate ValidTable(t: Table) {
    && t.address == TotalSize(t.finished)
    && t.address % 8 == 0
    && (forall i :: 0 <= i < |t.finished| ==>
        ValidBlock(t.finished[i]) && BlockSize(t.finished[i]) % 8 == 0 && |t.finished[i].entries| <= CAPACITY)
    && (t.open.Some? ==> ValidBlock(t.open.value) && 0 < |t.open.value.entries| <= CAPACITY)
  }

  lemma {:induction false} EntryFixupsConcat(page: nat, a: seq<nat>, b: seq<nat>)
    ensures EntryFixups(page, a + b) == EntryFixups(page, a) + EntryFixups(page, b)
    decreases |a|
  {
    if a == [] {
      assert a + b == b;
    } else {
      assert (a + b)[1..] == a[1..] + b;
      EntryFixupsConcat(page, a[1..], b);
    }
  }

  lemma {:induction false} PaddingIsSkipped(page: nat, n: nat)
    ensures EntryFixups(page, seq(n, i => 0)) == []
  {
    if n > 0 {
      assert seq(n, i => 0)[1..] == seq(n - 1, i => 0);
      PaddingIsSkipped(page, n - 1);
    }
  }

  lemma PaddedContents(b: Block, n: nat)
    ensures EntryFixups(b.pageRva, Padded(b, n).entries) == EntryFixups(b.pageRva, b.entries)
  {
    EntryFixupsConcat(b.pageRva, b.entries, seq(n, i => 0));
    PaddingIsSkipped(b.pageRva, n);
  }

  lemma {:induction false} TotalSizeAppend(bs: seq<Block>, b: Block)
    ensures TotalSize(bs + [b]) == TotalSize(bs) + BlockSize(b)
  {
    if bs == [] {
      assert bs + [b] == [b];
    } else {
      assert (bs + [b])[1..] == bs[1..] + [b];
      TotalSizeAppend(bs[1..], b);
    }
  }

  lemma {:induction false} ContentsAppend(bs: seq<Block>, b: Block)
    ensures Contents(bs + [b]) == Contents(bs) + EntryFixups(b.pageRva, b.entries)
    decreases |bs|
  {
    if bs == [] {
      assert bs + [b] == [b];
      assert Contents([b][1..]) == [];
    } else {
      assert (bs + [b])[1..] == bs[1..] + [b];
      ContentsAppend(bs[1..], b);
    }
  }

  // Rounding a block to 8 bytes never needs more than the allocated entries.
  lemma PaddingTo8Fits(b: Block)
    requires |b.entries| <= CAPACITY
    ensures |b.entries| + PaddingTo8(b) <= CAPACITY
    ensures BlockSize(Padded(b, PaddingTo8(b))) % 8 == 0
    ensures PaddingTo8(b) <= 3
  {
  }

  lemma PaddingIsLeast(b: Block, n: nat)
    requires n <= PaddingTo8(b)
    ensures Rounded(HEADER + 2 * (|b.entries| + n)) <==> n == PaddingTo8(b)
  {
    var k := |b.entries|;
    assert BlockSize(b) + 2 * n == 8 * (1 + k / 4) + 2 * (k % 4 + n);
  }

  predicate Rounded(size: nat) { size % 8 == 0 }

  lemma CloseKeepsContents(t: Table, n: nat)
    requires t.open.Some?
    ensures Contents(Close(t, Padded(t.open.value, n)).finished) == Contents(t.finished) + OpenContents(t)
  {
    PaddedContents(t.open.value, n);
    ContentsAppend(t.finished, Padded(t.open.value, n));
  }

  lemma ClosedTableIsValid(t: Table)
    requires ValidTable(t) && t.open.Some?
    ensures ValidTable(Close(t, Padded(t.open.value, PaddingTo8(t.open.value))))
  {
    var b := Padded(t.open.value, PaddingTo8(t.open.value));
    PaddingTo8Fits(t.open.value);
    PaddedIsValid(t.open.value, PaddingTo8(t.open.value));
    TotalSizeAppend(t.finished, b);
    hide Padded, PaddingTo8, TotalSize, ValidBlock;
    RoundedSum(t.address, BlockSize(b));
  }

  lemma RoundedSum(x: nat, y: nat)
    requires x % 8 == 0 && y % 8 == 0
    ensures (x + y) % 8 == 0
  {
  }

  lemma StaysOnPage(pageRva: nat, addr: nat)
    requires pageRva < TWO32 && pageRva % PAGE == 0
    requires !LeavesPage(pageRva, addr)
    ensures PageOf(addr) == pageRva && pageRva + PAGE < TWO32
  {
  }

  lemma AddToBlock(b: Block, f: Fixup)
    requires ValidBlock(b) && ValidFixup(f)
    requires b.pageRva == PageOf(f.addr) && |b.entries| < CAPACITY
    ensures var b' := Block(b.pageRva, b.entries + [f.kind * PAGE + (f.addr - b.pageRva)]);
            && ValidBlock(b')
            && EntryFixups(b.pageRva, b'.entries) == EntryFixups(b.pageRva, b.entries) + [f]
  {
    var e := f.kind * PAGE + (f.addr - b.pageRva);
    assert f.addr - b.pageRva == f.addr % PAGE;
    assert e / PAGE == f.kind && e % PAGE == f.addr - b.pageRva;
    EntryFixupsConcat(b.pageRva, b.entries, [e]);
    assert EntryFixups(b.pageRva, [e]) == EntryFixup(b.pageRva, e) + EntryFixups(b.pageRva, [e][1..]);
  }

  lemma MoveKeepsContents(t: Table, f: Fixup)
    requires ValidTable(t) && ValidFixup(f)
    ensures var t' := MoveToPage(t, f);
            && ValidTable(t')
            && (t'.open.Some? ==> t'.open.value.pageRva == PageOf(f.addr))
            && Contents(t'.finished) + OpenContents(t') == Contents(t.finished) + OpenContents(t)
  {
    if t.open.Some? {
      if LeavesPage(t.open.value.pageRva, f.addr) {
        ClosedTableIsValid(t);
        CloseKeepsContents(t, PaddingTo8(t.open.value));
      } else {
        StaysOnPage(t.open.value.pageRva, f.addr);
      }
    }
  }

  // One call adds exactly one fixup, at the end, and keeps the table valid.
  lemma AddAppends(t: Table, f: Fixup)
    requires ValidTable(t) && ValidFixup(f) && Add(t, f).Some?
    ensures var t' := Add(t, f).value;
            && ValidTable(t')
            && t'.open.Some? && t'.open.value.pageRva == PageOf(f.addr)
            && Contents(t'.finished) + OpenContents(t') == Contents(t.finished) + OpenContents(t) + [f]
  {
    hide MoveToPage, Contents, OpenContents, EntryFixups, PageOf, ValidTable, ValidBlock;
    MoveKeepsContents(t, f);
    var t1 := MoveToPage(t, f);
    var b := if t1.open.None? then Block(PageOf(f.addr), []) else t1.open.value;
    NewBlock(f);
    OpenIsValid(t1);
    AddToBlock(b, f);
    OpenReplaced(t1, b, Block(b.pageRva, b.entries + [f.kind * PAGE + (f.addr - b.pageRva)]), f);
  }

  lemma OpenIsValid(t: Table)
    requires ValidTable(t)
    ensures t.open.Some? ==> ValidBlock(t.open.value)
  {
  }

  lemma OpenReplaced(t: Table, b: Block, b': Block, f: Fixup)
    requires ValidTable(t) && ValidBlock(b') && 0 < |b'.entries| <= CAPACITY
    requires if t.open.None? then EntryFixups(b.pageRva, b.entries) == [] else b == t.open.value
    requires EntryFixups(b'.pageRva, b'.entries) == EntryFixups(b.pageRva, b.entries) + [f]
    ensures var t' := t.(open := Some(b'));
            ValidTable(t') && Contents(t'.finished) + OpenContents(t') == Contents(t.finished) + OpenContents(t) + [f]
  {
    hide Contents, EntryFixups, ValidBlock, TotalSize;
  }

  lemma NewBlock(f: Fixup)
    requires ValidFixup(f)
    ensures ValidBlock(Block(PageOf(f.addr), [])) && EntryFixups(PageOf(f.addr), []) == []
  {
  }

  lemma EmptyTable()
    ensures ValidTable(EMPTY) && Contents(EMPTY.finished) + OpenContents(EMPTY) == []
  {
  }

  lemma {:induction false} AddAllAppends(fs: seq<Fixup>)
    requires forall i :: 0 <= i < |fs| ==> ValidFixup(fs[i])
    requires AddAll(EMPTY, fs).Some?
    ensures var t := AddAll(EMPTY, fs).value;
            && ValidTable(t)
            && Contents(t.finished) + OpenContents(t) == fs
            && (t.open.None? <==> fs == [])
            && (fs != [] ==> t.open.value.pageRva == PageOf(fs[|fs| - 1].addr))
    decreases |fs|
  {
    hide Add, ValidTable, ValidFixup, Contents, OpenContents, PageOf;
    if fs == [] {
      EmptyTable();
    } else {
      var fs' := fs[..|fs| - 1];
      AddAllAppends(fs');
      AddAppends(AddAll(EMPTY, fs').value, fs[|fs| - 1]);
      assert fs == fs' + [fs[|fs| - 1]];
    }
  }

  /* ---- when the builder gives up ---- */

  // Length of the run of fixups at the end of `fs` that share one page; the
  // topmost page never forms runs (see LeavesPage).
  ghost function TrailingRun(fs: seq<Fixup>): nat
    decreases |fs|
  {
    var n := |fs|;
    if n == 0 then 0
    else if n > 1 && PageOf(fs[n - 1].addr) == PageOf(fs[n - 2].addr) && PageOf(fs[n - 1].addr) + PAGE < TWO32
    then TrailingRun(fs[..n - 1]) + 1
    else 1
  }

  ghost predicate RunsFit(fs: seq<Fixup>) {
    forall n :: 0 <= n <= |fs| ==> RunAt(fs, n) <= CAPACITY
  }

  ghost function RunAt(fs: seq<Fixup>, n: nat): nat
    requires n <= |fs|
  {
    TrailingRun(fs[..n])
  }

  lemma RunAtPrefix(fs: seq<Fixup>, m: nat, n: nat)
    requires n <= m <= |fs|
    ensures RunAt(fs[..m], n) == RunAt(fs, n)
  {
    hide TrailingRun;
    assert fs[..m][..n] == fs[..n];
  }

  lemma RunAtEnd(fs: seq<Fixup>)
    ensures RunAt(fs, |fs|) == TrailingRun(fs)
  {
    hide TrailingRun;
    assert fs[..|fs|] == fs;
  }

  // The open block holds exactly the trailing run.
  lemma {:induction false} OpenBlockIsTrailingRun(fs: seq<Fixup>)
    requires forall i :: 0 <= i < |fs| ==> ValidFixup(fs[i])
    requires fs != [] && AddAll(EMPTY, fs).Some?
    ensures AddAll(EMPTY, fs).value.open.Some?
    ensures |AddAll(EMPTY, fs).value.open.value.entries| == TrailingRun(fs)
    decreases |fs|
  {
    var fs' := fs[..|fs| - 1];
    var t := AddAll(EMPTY, fs').value;
    var f := fs[|fs| - 1];
    hide ValidFixup, PageOf, LeavesPage;
    if fs' != [] {
      OpenBlockIsTrailingRun(fs');
      OpenPage(fs');
      RunContinues(fs[|fs| - 2].addr, f.addr);
    } else {
      assert t == EMPTY;
    }
  }

  lemma OpenPage(fs: seq<Fixup>)
    requires forall i :: 0 <= i < |fs| ==> ValidFixup(fs[i])
    requires fs != [] && AddAll(EMPTY, fs).Some?
    ensures var t := AddAll(EMPTY, fs).value;
            t.open.Some? && t.open.value.pageRva == PageOf(fs[|fs| - 1].addr) && |t.open.value.entries| <= CAPACITY
  {
    AddAllAppends(fs);
  }

  // A run continues exactly when the next address stays on the open block's page.
  lemma RunContinues(prev: nat, addr: nat)
    requires prev < TWO32 && addr < TWO32
    ensures !LeavesPage(PageOf(prev), addr) <==> PageOf(addr) == PageOf(prev) && PageOf(addr) + PAGE < TWO32
  {
  }

  lemma RunsFitStep(fs: seq<Fixup>)
    requires fs != []
    ensures RunsFit(fs) <==> RunsFit(fs[..|fs| - 1]) && TrailingRun(fs) <= CAPACITY
  {
    hide TrailingRun, RunAt;
    var m := |fs| - 1;
    RunAtEnd(fs);
    forall n | 0 <= n <= m ensures RunAt(fs[..m], n) == RunAt(fs, n) {
      RunAtPrefix(fs, m, n);
    }
  }

  // Building succeeds if and only if no page other than the topmost receives more
  // than 0x1000 fixups in a row.
  lemma {:induction false} BuildsIffRunsFit(fs: seq<Fixup>)
    requires forall i :: 0 <= i < |fs| ==> ValidFixup(fs[i])
    ensures AddAll(EMPTY, fs).Some? <==> RunsFit(fs)
    decreases |fs|
  {
    if fs != [] {
      var fs' := fs[..|fs| - 1];
      BuildsIffRunsFit(fs');
      RunsFitStep(fs);
      if AddAll(EMPTY, fs').Some? {
        AddIffRunFits(fs);
      }
    }
  }

  lemma AddIffRunFits(fs: seq<Fixup>)
    requires forall i :: 0 <= i < |fs| ==> ValidFixup(fs[i])
    requires fs != [] && AddAll(EMPTY, fs[..|fs| - 1]).Some?
    ensures AddAll(EMPTY, fs).Some? <==> TrailingRun(fs) <= CAPACITY
  {
    var fs' := fs[..|fs| - 1];
    var t := AddAll(EMPTY, fs').value;
    var f := fs[|fs| - 1];
    assert AddAll(EMPTY, fs) == Add(t, f);
    if fs' == [] {
      assert t == EMPTY;
    } else {
      OpenPage(fs');
      OpenBlockIsTrailingRun(fs');
      RunContinues(fs[|fs| - 2].addr, f.addr);
    }
  }

  /* ---- reading back ---- */

  lemma {:induction false} ReadEntriesBack(page: nat, es: seq<nat>)
    requires forall i :: 0 <= i < |es| ==> es[i] < 0x1_0000
    ensures ReadEntries(page, EntryBytes(es)) == EntryFixups(page, es)
    decreases |es|
  {
    if es != [] {
      var s := EntryBytes(es);
      Powers();
      DecodeEncodeLE(es[0], 2);
      assert s[..2] == EncodeLE(es[0], 2) && s[2..] == EntryBytes(es[1..]);
      ReadEntriesBack(page, es[1..]);
    }
  }

  lemma BlockFields(b: Block, rest: seq<byte>)
    requires ValidBlock(b)
    ensures var s := BlockBytes(b) + rest;
            && DecodeLE(s[..4]) == b.pageRva
            && DecodeLE(s[4..8]) == BlockSize(b)
            && s[HEADER..BlockSize(b)] == EntryBytes(b.entries)
            && s[BlockSize(b)..] == rest
  {
    hide DecodeLE, EncodeLE, EntryBytes, Pow256;
    var s := BlockBytes(b) + rest;
    Powers();
    DecodeEncodeLE(b.pageRva, 4);
    DecodeEncodeLE(BlockSize(b), 4);
    assert s[..4] == EncodeLE(b.pageRva, 4);
    assert s[4..8] == EncodeLE(BlockSize(b), 4);
  }

  lemma {:induction false} ReadTableBack(bs: seq<Block>)
    requires forall i :: 0 <= i < |bs| ==> ValidBlock(bs[i])
    ensures ReadTable(TableBytes(bs)) == Some(Contents(bs))
    ensures |TableBytes(bs)| == TotalSize(bs)
    decreases |bs|
  {
    hide BlockBytes, DecodeLE, ReadEntries, EntryFixups;
    if bs != [] {
      BlockFields(bs[0], TableBytes(bs[1..]));
      ReadEntriesBack(bs[0].pageRva, bs[0].entries);
      ReadTableBack(bs[1..]);
    }
  }

  lemma EvenMultiple(x: nat, a: nat)
    requires a > 0 && a % 2 == 0 && x % a == 0
    ensures x % 2 == 0
  {
    DivMod(x, a);
    assert x == 2 * (x / a * (a / 2)) by {
      assert x / a * a == x / a * (2 * (a / 2));
    }
  }

  lemma EightIsEven(x: nat)
    requires x % 8 == 0
    ensures x % 2 == 0
  {
    DivMod(x, 8);
    MultipleHasNoRemainder(x / 8 * 4, 2);
    assert x / 8 * 4 * 2 == x;
  }

  // The open block's memory has room for the final padding.
  ghost predicate PaddingFits(t: Table, sectionAlign: nat)
    requires sectionAlign > 0
  {
    t.open.Some? ==> |t.open.value.entries| + FinalPadding(t.address, t.open.value, sectionAlign) <= CAPACITY
  }

  /* ---- fixups of words that do not overlap ---- */

  // The words start at least four bytes apart.
  ghost predicate Spread(fs: seq<Fixup>) {
    forall i, j :: 0 <= i < j < |fs| ==> fs[i].addr + 4 <= fs[j].addr || fs[j].addr + 4 <= fs[i].addr
  }

  lemma {:induction false} RunSharesPage(fs: seq<Fixup>, i: nat)
    requires fs != [] && |fs| - TrailingRun(fs) <= i < |fs|
    ensures TrailingRun(fs) <= |fs| && PageOf(fs[i].addr) == PageOf(fs[|fs| - 1].addr)
    decreases |fs|
  {
    hide PageOf;
    var n := |fs|;
    RunInside(fs);
    if i < n - 1 {
      RunSharesPage(fs[..n - 1], i);
    }
  }

  lemma {:induction false} RunInside(fs: seq<Fixup>)
    ensures TrailingRun(fs) <= |fs|
    decreases |fs|
  {
    hide PageOf;
    if |fs| > 0 { RunInside(fs[..|fs| - 1]); }
  }

  // Which of the page's 1024 words an address is in.
  function WordOf(addr: nat): nat { addr % PAGE / 4 }

  lemma WordInPage(addr: nat)
    ensures addr == PageOf(addr) + addr % PAGE && WordOf(addr) < 1024
  {
  }

  lemma SlotsDiffer(a: nat, b: nat)
    requires PageOf(a) == PageOf(b) && (a + 4 <= b || b + 4 <= a)
    ensures WordOf(a) != WordOf(b)
  {
    WordInPage(a);
    WordInPage(b);
    hide PageOf;
  }

  // The words of the fixups from `start` on.
  ghost function WordsFrom(fs: seq<Fixup>, start: nat): (r: seq<nat>)
    requires start <= |fs|
    ensures |r| == |fs| - start && forall i :: 0 <= i < |r| ==> r[i] == WordOf(fs[start + i].addr)
    decreases |fs| - start
  {
    if start == |fs| then [] else [WordOf(fs[start].addr)] + WordsFrom(fs, start + 1)
  }

  // So a page has room for 1024 of them.
  lemma SpreadRunIsShort(fs: seq<Fixup>)
    requires Spread(fs)
    ensures TrailingRun(fs) <= 1024
  {
    RunInside(fs);
    var start := |fs| - TrailingRun(fs);
    var slots := WordsFrom(fs, start);
    hide WordOf, WordsFrom;
    forall i | 0 <= i < |slots| ensures slots[i] < 1024 { WordInPage(fs[start + i].addr); }
    forall i, j | 0 <= i < j < |slots| ensures slots[i] != slots[j] {
      InRunDiffer(fs, start + i, start + j);
    }
    hide TrailingRun, PageOf;
    Pigeonhole(slots, 1024);
  }

  lemma InRunDiffer(fs: seq<Fixup>, i: nat, j: nat)
    requires Spread(fs) && |fs| - TrailingRun(fs) <= i < j < |fs|
    ensures WordOf(fs[i].addr) != WordOf(fs[j].addr)
  {
    hide TrailingRun, PageOf, WordOf;
    RunSharesPage(fs, i);
    RunSharesPage(fs, j);
    SlotsDiffer(fs[i].addr, fs[j].addr);
  }

  // The builder never gives up on such fixups, and the last block's padding, which the source
  // does not check, stays inside its buffer.
  lemma SpreadFits(fs: seq<Fixup>, sectionAlign: nat)
    requires Spread(fs) && 0 < sectionAlign <= PAGE && forall i :: 0 <= i < |fs| ==> ValidFixup(fs[i])
    ensures AddAll(EMPTY, fs).Some? && PaddingFits(AddAll(EMPTY, fs).value, sectionAlign)
  {
    hide AddAll, TrailingRun, AlignUp;
    forall n | 0 <= n <= |fs| ensures RunAt(fs, n) <= CAPACITY { SpreadRunIsShort(fs[..n]); }
    BuildsIffRunsFit(fs);
    if fs != [] {
      OpenBlockIsTrailingRun(fs);
      SpreadRunIsShort(fs);
    } else {
      assert AddAll(EMPTY, fs) == Some(EMPTY) by { NoFixups(); }
    }
  }

  lemma NoFixups()
    ensures AddAll(EMPTY, []) == Some(EMPTY)
  {
  }

  lemma HalfOfEven(x: nat, y: nat)
    requires x % 2 == 0 && y % 2 == 0 && x <= y
    ensures 2 * ((y - x) / 2) == y - x
  {
  }

  lemma FinalPaddingReachesBoundary(address: nat, b: Block, sectionAlign: nat)
    requires sectionAlign > 0 && sectionAlign % 2 == 0
    requires address % 2 == 0
    ensures address + BlockSize(Padded(b, FinalPadding(address, b, sectionAlign)))
         == AlignUp(address + BlockSize(b), sectionAlign)
  {
    hide AlignUp;
    var next := address + BlockSize(b);
    assert next % 2 == 0 by { assert next == address + 2 * (4 + |b.entries|); }
    EvenMultiple(AlignUp(next, sectionAlign), sectionAlign);
    HalfOfEven(next, AlignUp(next, sectionAlign));
  }

  lemma PaddedIsValid(b: Block, n: nat)
    requires ValidBlock(b) && |b.entries| + n <= CAPACITY
    ensures ValidBlock(Padded(b, n))
  {
  }

  // The last block is padded to the section boundary.
  lemma FinishAligns(t: Table, sectionAlign: nat)
    requires t.address % 2 == 0
    requires t.open.None? ==> t.address == 0
    requires sectionAlign > 0 && sectionAlign % 2 == 0
    ensures Finish(t, sectionAlign).address % sectionAlign == 0
  {
    hide AlignUp, FinalPadding, Padded, BlockSize;
    if t.open.Some? {
      var end := AlignUp(t.address + BlockSize(t.open.value), sectionAlign);
      assert Finish(t, sectionAlign).address == end by {
        FinalPaddingReachesBoundary(t.address, t.open.value, sectionAlign);
      }
      assert end % sectionAlign == 0;
    } else {
      ZeroIsMultiple(sectionAlign);
    }
  }

  lemma ZeroIsMultiple(a: nat)
    requires a > 0
    ensures 0 % a == 0
  {
  }

  lemma FinishKeepsContents(t: Table, sectionAlign: nat)
    requires ValidTable(t)
    requires sectionAlign > 0
    requires PaddingFits(t, sectionAlign)
    ensures var t' := Finish(t, sectionAlign);
            && t'.address == TotalSize(t'.finished)
            && (forall i :: 0 <= i < |t'.finished| ==> ValidBlock(t'.finished[i]))
            && Contents(t'.finished) == Contents(t.finished) + OpenContents(t)
  {
    if t.open.Some? {
      var n := FinalPadding(t.address, t.open.value, sectionAlign);
      PaddedIsValid(t.open.value, n);
      TotalSizeAppend(t.finished, Padded(t.open.value, n));
      CloseKeepsContents(t, n);
    }
  }

  // Main result.  For every sequence of fixups that the builder accepts, a loader
  // reading the emitted section gets exactly that sequence back, in order; the
  // section's size is `current_address` (the closing assert), a multiple of the
  // section alignment, and every block but the last is a multiple of 8 bytes.
  lemma RoundTrip(fs: seq<Fixup>, sectionAlign: nat)
    requires forall i :: 0 <= i < |fs| ==> ValidFixup(fs[i])
    requires AddAll(EMPTY, fs).Some?
    requires sectionAlign > 0 && sectionAlign % 2 == 0
    requires PaddingFits(AddAll(EMPTY, fs).value, sectionAlign)
    ensures var t := Finish(AddAll(EMPTY, fs).value, sectionAlign);
            && ReadTable(TableBytes(t.finished)) == Some(fs)
            && |TableBytes(t.finished)| == t.address
            && t.address % sectionAlign == 0
            && forall i :: 0 <= i < |t.finished| - 1 ==> BlockSize(t.finished[i]) % 8 == 0
  {
    var t := AddAll(EMPTY, fs).value;
    var t' := Finish(t, sectionAlign);
    AddAllAppends(fs);
    assert t'.address % sectionAlign == 0 by {
      EightIsEven(t.address);
      FinishAligns(t, sectionAlign);
    }
    assert ReadTable(TableBytes(t'.finished)) == Some(fs) && |TableBytes(t'.finished)| == t'.address by {
      FinishKeepsContents(t, sectionAlign);
      ReadTableBack(t'.finished);
    }
  }

  /* ---- the builder in place ---- */

  // struct translate_context with the block being filled: its entries are a buffer
  // of 0x1000 slots written in place; blocks already flushed are never touched again.
  class FixupWriter {
    var finished: seq<Block>
    var state: bool
    var pageRva: nat
    var blockSize: nat
    var entries: array<nat>
    var currentAddress: nat

    ghost predicate Valid()
      reads this
    {
      && entries.Length == CAPACITY
      && (state ==> HEADER <= blockSize <= HEADER + 2 * CAPACITY && blockSize % 2 == 0)
      && currentAddress == TotalSize(finished)
    }

    ghost function Model(): Table
      requires Valid()
      reads this, entries
    {
      Table(finished,
            if state then Some(Block(pageRva, entries[..(blockSize - HEADER) / 2])) else None,
            currentAddress)
    }

    // translate_reloc_start
    constructor ()
      ensures Valid() && fresh(entries) && Model() == EMPTY
    {
      finished, state, pageRva, blockSize, currentAddress := [], false, 0, 0, 0;
      entries := new nat[CAPACITY];
    }

    // Appends `n` zero entries to the open block.
    method Pad(n: nat)
      requires Valid() && state
      requires (blockSize - HEADER) / 2 + n <= CAPACITY
      modifies this`blockSize, entries
      ensures Valid()
      ensures Model() == old(Model()).(open := Some(Padded(old(Model()).open.value, n)))
    {
      ghost var start := (blockSize - HEADER) / 2;
      var left := n;
      while left > 0
        invariant 0 <= left <= n
        invariant blockSize == HEADER + 2 * (start + (n - left))
        invariant entries[..start] == old(entries[..start])
        invariant forall i :: start <= i < start + (n - left) ==> entries[i] == 0
      {
        entries[(blockSize - HEADER) / 2] := 0;
        blockSize := blockSize + 2;
        left := left - 1;
      }
      assert entries[..start + n] == old(entries[..start]) + seq(n, i => 0);
    }

    // while (block_size & 7): one more zero entry.
    method PadTo8()
      requires Valid() && state
      modifies this`blockSize, entries
      ensures Valid()
      ensures Model() == old(Model()).(open := Some(Padded(old(Model()).open.value, PaddingTo8(old(Model()).open.value))))
    {
      hide Padded, PaddingTo8, TotalSize, Rounded;
      ghost var b := Model().open.value;
      ghost var n := 0;
      PaddingTo8Fits(b);
      PaddedZero(b);
      PaddingIsLeast(b, 0);
      while !Rounded(blockSize)
        invariant Valid() && state && n <= PaddingTo8(b)
        invariant blockSize == HEADER + 2 * (|b.entries| + n)
        invariant Model() == old(Model()).(open := Some(Padded(b, n)))
        invariant Rounded(blockSize) <==> n == PaddingTo8(b)
        decreases PaddingTo8(b) - n
      {
        PaddedTwice(b, n, 1);
        PaddingIsLeast(b, n + 1);
        Pad(1);
        n := n + 1;
      }
    }

    // Pads the open block up to a section boundary.
    method PadToSection(sectionAlign: nat)
      requires Valid() && state && sectionAlign > 0
      requires PaddingFits(Model(), sectionAlign)
      modifies this`blockSize, entries
      ensures Valid()
      ensures Model() == old(Model()).(open := Some(Padded(old(Model()).open.value,
                FinalPadding(old(Model()).address, old(Model()).open.value, sectionAlign))))
    {
      var next := currentAddress + blockSize;
      assert blockSize == BlockSize(Model().open.value);
      Pad((AlignUp(next, sectionAlign) - next) / 2);
    }

    // Writes out the open block and starts an empty one.
    method Flush()
      requires Valid() && state
      modifies this
      ensures Valid() && fresh(entries)
      ensures Model() == Close(old(Model()), old(Model()).open.value)
    {
      TotalSizeAppend(finished, Block(pageRva, entries[..(blockSize - HEADER) / 2]));
      finished := finished + [Block(pageRva, entries[..(blockSize - HEADER) / 2])];
      currentAddress := currentAddress + blockSize;
      state, pageRva, blockSize := false, 0, 0;
      entries := new nat[CAPACITY];
    }

    // Opens a block for `addr` if none is open, and stores the entry unless the
    // block is full.
    method Store(kind: nat, addr: nat) returns (ok: bool)
      requires Valid()
      requires state ==> pageRva <= addr
      modifies this, entries
      ensures Valid() && entries == old(entries)
      ensures var b := if old(Model()).open.None? then Block(PageOf(addr), []) else old(Model()).open.value;
              && ok == (|b.entries| < CAPACITY)
              && (ok ==> Model() == old(Model()).(open := Some(Block(b.pageRva, b.entries + [kind * PAGE + (addr - b.pageRva)]))))
    {
      if !state {
        state, pageRva, blockSize := true, addr / PAGE * PAGE, HEADER;
      }
      if blockSize >= HEADER + 2 * CAPACITY {
        return false;
      }
      var curIndex := (blockSize - HEADER) / 2;
      ghost var before := entries[..curIndex];
      entries[curIndex] := kind * PAGE + (addr - pageRva);
      blockSize := blockSize + 2;
      assert entries[..curIndex + 1] == before + [entries[curIndex]];
      return true;
    }

    // `ok` is false where the source stops with "too many fixup entries".
    method AddFixupEntry(kind: nat, addr: nat, flush: bool, sectionAlign: nat) returns (ok: bool)
      requires Valid() && sectionAlign > 0
      requires flush ==> PaddingFits(Model(), sectionAlign)
      modifies this, entries
      ensures Valid() && (entries == old(entries) || fresh(entries))
      ensures flush ==> ok && Model() == Finish(old(Model()), sectionAlign)
      ensures !flush ==> ok == Add(old(Model()), Fixup(kind, addr)).Some?
      ensures !flush && ok ==> Model() == Add(old(Model()), Fixup(kind, addr)).value
    {
      if state && (flush || addr < pageRva || (pageRva + PAGE) % TWO32 <= addr) {
        if flush {
          PadToSection(sectionAlign);
        } else {
          PadTo8();
        }
        Flush();
      }
      ok := true;
      if !flush {
        ok := Store(kind, addr);
      }
    }

    // The copying loop of finish_reloc_translation_pe; its closing assert is the
    // second postcondition.
    method Emit() returns (section: seq<byte>)
      requires Valid()
      ensures section == TableBytes(finished)
      ensures |section| == currentAddress
    {
      hide BlockBytes;
      section := [];
      for i := 0 to |finished|
        invariant section + TableBytes(finished[i..]) == TableBytes(finished)
        invariant |section| + TotalSize(finished[i..]) == TotalSize(finished)
      {
        section := section + BlockBytes(finished[i]);
        assert finished[i..][1..] == finished[i + 1..];
      }
      assert finished[|finished|..] == [];
    }
  }
}
