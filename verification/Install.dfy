/** The install transaction of grub/util/grub-install-common.c: directories are backed up
    before new files go in, and at exit either the backups are dropped or the new files are
    dropped and the backups put back. */
module Install {
  import opened Bytes
  import opened Options

  type Files = map<string, seq<byte>>

  function Get(files: Files, name: string): Option<seq<byte>> {
    if name in files then Some(files[name]) else None
  }

  /* ---- which names are managed ---- */

  // strrchr (name, '.')
  function Ext(name: string): Option<string> {
    if name == [] then None
    else
      match Ext(name[1..])
      case Some(e) => Some(e)
      case None => if name[0] == '.' then Some(name) else None
  }

  predicate ManagedExt(ext: string, suffix: string) {
    || ext == ".mod" + suffix || ext == ".lst" + suffix || ext == ".img" + suffix
    || ext == ".efi" + suffix || ext == ".mo" + suffix
  }

  predicate Managed(name: string, suffix: string) {
    || (Ext(name).Some? && ManagedExt(Ext(name).value, suffix) && name != "menu.lst" + suffix)
    || name == "modinfo.sh" + suffix || name == "efiemu32.o" + suffix || name == "efiemu64.o" + suffix
  }

  const TILDE := "~"

  predicate IsNew(name: string) { Managed(name, "") }
  predicate IsBackup(name: string) { Managed(name, TILDE) }

  lemma {:induction false} ExtTilde(name: string)
    ensures Ext(name + TILDE) == (match Ext(name) case None => None case Some(e) => Some(e + TILDE))
    decreases |name|
  {
    if name == [] {
      assert name + TILDE == TILDE && TILDE[1..] == [];
    } else {
      ExtTilde(name[1..]);
      assert (name + TILDE)[1..] == name[1..] + TILDE;
    }
  }

  lemma {:induction false} ExtIsSuffix(name: string)
    requires Ext(name).Some?
    ensures |Ext(name).value| <= |name| && name[|name| - |Ext(name).value|..] == Ext(name).value
  {
    if Ext(name[1..]).Some? { ExtIsSuffix(name[1..]); }
  }

  lemma TildeCancels(a: string, b: string)
    ensures a + TILDE == b + TILDE <==> a == b
    ensures a + "" == a
  {
    if a + TILDE == b + TILDE {
      assert a == (a + TILDE)[..|a|] && b == (b + TILDE)[..|b|];
    }
  }

  // A name is managed exactly when its backup's name is recognised as a backup.
  lemma BackupOf(name: string)
    ensures IsBackup(name + TILDE) <==> IsNew(name)
  {
    ExtTilde(name);
    if Ext(name).Some? {
      ExtCancels(Ext(name).value);
    }
    TildeCancels(name, "menu.lst");
    TildeCancels(name, "modinfo.sh");
    TildeCancels(name, "efiemu32.o");
    TildeCancels(name, "efiemu64.o");
    NoSuffix();
  }

  lemma NoSuffix()
    ensures "menu.lst" + "" == "menu.lst" && "modinfo.sh" + "" == "modinfo.sh"
    ensures "efiemu32.o" + "" == "efiemu32.o" && "efiemu64.o" + "" == "efiemu64.o"
  {
  }

  lemma ExtCancels(e: string)
    ensures ManagedExt(e + TILDE, TILDE) <==> ManagedExt(e, "")
  {
    TildeCancels(e, ".mod");
    TildeCancels(e, ".lst");
    TildeCancels(e, ".img");
    TildeCancels(e, ".efi");
    TildeCancels(e, ".mo");
    TildeCancels(".mod", "");
    TildeCancels(".lst", "");
    TildeCancels(".img", "");
    TildeCancels(".efi", "");
    TildeCancels(".mo", "");
  }

  lemma BackupEnds(name: string)
    requires IsBackup(name)
    ensures |name| > 0 && name == Base(name) + TILDE && IsNew(Base(name)) && !IsNew(name)
  {
    if Ext(name).Some? { ExtIsSuffix(name); }
    assert name == name[..|name| - 1] + [name[|name| - 1]];
    assert name[|name| - 1] == '~';
    BackupOf(Base(name));
    if IsNew(name) { NewHasNoTilde(name); }
  }

  lemma ExtEnds(e: string)
    requires ManagedExt(e, "")
    ensures |e| > 0 && e[|e| - 1] != '~'
  {
  }

  lemma NewHasNoTilde(name: string)
    requires IsNew(name)
    ensures |name| > 0 && name[|name| - 1] != '~'
  {
    NoSuffix();
    if Ext(name).Some? && ManagedExt(Ext(name).value, "") {
      var e := Ext(name).value;
      ExtIsSuffix(name);
      ExtEnds(e);
      hide Ext, ManagedExt;
      assert name[|name| - |e|..][|e| - 1] == name[|name| - 1];
    }
  }

  // The name ends in e.
  predicate EndsIn(name: string, e: string) {
    |e| <= |name| && name[|name| - |e|..] == e
  }

  // Which names those are: modules, lists other than menu.lst, images and translations by
  // their ending, and three single files; a backup has one of these names and a tilde.
  lemma ManagedNames(name: string)
    ensures IsNew(name) <==>
              || (name != "menu.lst"
                  && (EndsIn(name, ".mod") || EndsIn(name, ".lst") || EndsIn(name, ".img") || EndsIn(name, ".efi") || EndsIn(name, ".mo")))
              || name == "modinfo.sh" || name == "efiemu32.o" || name == "efiemu64.o"
    ensures IsBackup(name) <==> EndsIn(name, "~") && IsNew(name[..|name| - 1])
  {
    NoSuffix();
    DotOnce();
    TildeCancels(".mod", "");
    TildeCancels(".lst", "");
    TildeCancels(".img", "");
    TildeCancels(".efi", "");
    TildeCancels(".mo", "");
    hide Ext;
    ExtIff(name, ".mod");
    ExtIff(name, ".lst");
    ExtIff(name, ".img");
    ExtIff(name, ".efi");
    ExtIff(name, ".mo");
    hide Managed;
    if IsBackup(name) { BackupEnds(name); }
    if EndsIn(name, "~") {
      assert name == name[..|name| - 1] + TILDE;
      BackupOf(name[..|name| - 1]);
    }
  }

  ghost predicate StartsWithItsDot(e: string) {
    e != [] && e[0] == '.' && forall i :: 0 < i < |e| ==> e[i] != '.'
  }

  lemma DotOnce()
    ensures StartsWithItsDot(".mod") && StartsWithItsDot(".lst") && StartsWithItsDot(".img") && StartsWithItsDot(".efi") && StartsWithItsDot(".mo")
  {
  }

  lemma {:induction false} ExtIff(name: string, e: string)
    requires StartsWithItsDot(e)
    ensures Ext(name) == Some(e) <==> EndsIn(name, e)
  {
    if Ext(name) == Some(e) { ExtIsSuffix(name); }
    if EndsIn(name, e) {
      LastDot(name[..|name| - |e|], e);
      assert name == name[..|name| - |e|] + e;
    }
  }

  lemma {:induction false} LastDot(stem: string, e: string)
    requires StartsWithItsDot(e)
    ensures Ext(stem + e) == Some(e)
    decreases |stem|
  {
    if stem == [] {
      NoDot(e[1..]);
      assert stem + e == e;
    } else {
      LastDot(stem[1..], e);
      assert (stem + e)[1..] == stem[1..] + e;
    }
  }

  lemma {:induction false} NoDot(s: string)
    requires forall i :: 0 <= i < |s| ==> s[i] != '.'
    ensures Ext(s) == None
  {
    if s != [] { NoDot(s[1..]); }
  }

  // The name a backup is restored to.
  function Base(name: string): string {
    if name == [] then name else name[..|name| - 1]
  }

  lemma BaseOfTilde(name: string)
    ensures Base(name + TILDE) == name
  {
  }

  lemma NewFacts(name: string)
    requires IsNew(name)
    ensures IsBackup(name + TILDE) && !IsBackup(name) && Base(name + TILDE) == name
  {
    BackupOf(name);
    BaseOfTilde(name);
    if IsBackup(name) { BackupEnds(name); }
  }

  /* ---- one pass over a directory ---- */

  datatype Mode = CleanNew | CleanBackup | CreateBackup | RestoreBackup

  function Suffix(mode: Mode): string {
    if mode == CleanBackup || mode == RestoreBackup then TILDE else ""
  }

  // What `name` holds once the entries in `seen` have been dealt with.
  ghost function PassAt(mode: Mode, files: Files, seen: set<string>, name: string): Option<seq<byte>> {
    match mode
    case CleanNew => if name in seen && IsNew(name) then None else Get(files, name)
    case CleanBackup => if name in seen && IsBackup(name) then None else Get(files, name)
    case CreateBackup =>
      if name in seen && IsNew(name) then None
      else if IsBackup(name) && Base(name) in seen && Base(name) in files then Some(files[Base(name)])
      else Get(files, name)
    case RestoreBackup =>
      if name in seen && IsBackup(name) then None
      else if IsNew(name) && name + TILDE in seen && name + TILDE in files then Some(files[name + TILDE])
      else Get(files, name)
  }

  // The whole pass.
  ghost predicate Passed(mode: Mode, files: Files, after: Files) {
    forall name :: Get(after, name) == PassAt(mode, files, files.Keys, name)
  }

  ghost predicate PassedSome(mode: Mode, files: Files, seen: set<string>, after: Files) {
    forall name :: Get(after, name) == PassAt(mode, files, seen, name)
  }

  // Dealing with one more entry.
  function Deal(mode: Mode, files: Files, name: string): Files
    requires name in files
  {
    if !Managed(name, Suffix(mode)) then files
    else
      match mode
      case CreateBackup => (files - {name})[name + TILDE := files[name]]
      case RestoreBackup => (files - {name})[Base(name) := files[name]]
      case _ => files - {name}
  }

  lemma DealAt(mode: Mode, files: Files, seen: set<string>, cur: Files, name: string, other: string)
    requires PassedSome(mode, files, seen, cur) && name in files && name !in seen && name in cur
    ensures Get(Deal(mode, cur, name), other) == PassAt(mode, files, seen + {name}, other)
  {
    hide Managed, Base;
    assert Get(cur, other) == PassAt(mode, files, seen, other);
    assert Get(cur, name) == PassAt(mode, files, seen, name);
    if Managed(name, Suffix(mode)) {
      if mode == CreateBackup || mode == CleanNew {
        NewFacts(name);
        if IsBackup(other) { BackupEnds(other); }
      } else {
        BackupEnds(name);
        if IsNew(other) { NewFacts(other); }
      }
    } else if mode == CreateBackup {
      if IsBackup(other) { BackupEnds(other); }
    } else if mode == RestoreBackup {
      if IsNew(other) { NewFacts(other); }
    }
  }

  // An entry not yet dealt with is still there.
  lemma StillThere(mode: Mode, files: Files, seen: set<string>, cur: Files, name: string)
    requires PassedSome(mode, files, seen, cur) && name in files && name !in seen
    ensures name in cur
  {
    hide Managed;
    assert Get(cur, name) == PassAt(mode, files, seen, name);
  }

  lemma NothingSeen(mode: Mode, files: Files)
    ensures PassedSome(mode, files, {}, files)
  {
  }

  // readdir: the entries in no particular order.
  method List(files: Files) returns (entries: seq<string>)
    ensures forall i, j :: 0 <= i < j < |entries| ==> entries[i] != entries[j]
    ensures forall name :: name in files <==> name in entries
  {
    entries := [];
    var left := files.Keys;
    while left != {}
      invariant left <= files.Keys
      invariant forall name :: name in entries <==> name in files.Keys - left
      invariant forall i, j :: 0 <= i < j < |entries| ==> entries[i] != entries[j]
    {
      var name :| name in left;
      assert name !in entries;
      entries, left := entries + [name], left - {name};
    }
  }

  function ToSet(entries: seq<string>): set<string> { set e | e in entries }

  method Pass(mode: Mode, files: Files) returns (after: Files)
    ensures Passed(mode, files, after)
  {
    hide Managed, PassAt;
    var entries := List(files);
    after := files;
    NothingSeen(mode, files);
    var i := 0;
    assert ToSet(entries[..0]) == {};
    while i < |entries|
      invariant i <= |entries| && PassedSome(mode, files, ToSet(entries[..i]), after)
    {
      var name := entries[i];
      ghost var seen := ToSet(entries[..i]);
      assert name !in seen;
      StillThere(mode, files, seen, after, name);
      forall other ensures Get(Deal(mode, after, name), other) == PassAt(mode, files, seen + {name}, other) {
        DealAt(mode, files, seen, after, name, other);
      }
      assert ToSet(entries[..i + 1]) == seen + {name};
      if Managed(name, Suffix(mode)) {
        match mode {
          case CreateBackup => after := (after - {name})[name + TILDE := after[name]];
          case RestoreBackup => after := (after - {name})[Base(name) := after[name]];
          case _ => after := after - {name};
        }
      }
      i := i + 1;
    }
    assert ToSet(entries[..i]) == files.Keys;
  }

  /* ---- what the passes amount to ---- */

  ghost function Cleaned(mode: Mode, files: Files): (r: Files)
    ensures Passed(mode, files, r)
  {
    CandidatesSuffice(mode, files);
    map name | name in Candidates(files) && PassAt(mode, files, files.Keys, name).Some? ::
      PassAt(mode, files, files.Keys, name).value
  }

  ghost function Candidates(files: Files): set<string> {
    files.Keys + (set n | n in files :: n + TILDE) + (set n | n in files :: Base(n))
  }

  lemma CandidatesSuffice(mode: Mode, files: Files)
    ensures forall name :: PassAt(mode, files, files.Keys, name).Some? ==> name in Candidates(files)
  {
    hide Managed;
    forall name | PassAt(mode, files, files.Keys, name).Some? ensures name in Candidates(files) {
      if mode == CreateBackup && IsBackup(name) {
        BackupEnds(name);
      }
      if mode == RestoreBackup && IsNew(name) {
        NewFacts(name);
      }
    }
  }

  lemma PassedIsCleaned(mode: Mode, files: Files, after: Files)
    requires Passed(mode, files, after)
    ensures after == Cleaned(mode, files)
  {
    hide PassAt;
    SameEverywhere(after, Cleaned(mode, files));
  }

  lemma SameEverywhere(a: Files, b: Files)
    requires forall name :: Get(a, name) == Get(b, name)
    ensures a == b
  {
    forall name ensures (name in a <==> name in b) && (name in a ==> a[name] == b[name]) {
      assert Get(a, name) == Get(b, name);
    }
  }

  // clean_grub_dir, and the two ways restore_backup_atexit treats a directory.
  ghost function Prepared(files: Files): Files { Cleaned(CreateBackup, Cleaned(CleanBackup, files)) }
  ghost function RolledBack(files: Files): Files { Cleaned(RestoreBackup, Cleaned(CleanNew, files)) }
  ghost function Committed(files: Files): Files { Cleaned(CleanBackup, files) }

  lemma PreparedAt(files: Files, name: string)
    ensures Get(Prepared(files), name) ==
              if IsNew(name) then None else if IsBackup(name) then Get(files, Base(name)) else Get(files, name)
  {
    hide Managed, Cleaned;
    var mid := Cleaned(CleanBackup, files);
    assert Get(Prepared(files), name) == PassAt(CreateBackup, mid, mid.Keys, name);
    assert Get(mid, name) == PassAt(CleanBackup, files, files.Keys, name);
    if IsBackup(name) {
      BackupEnds(name);
      NewFacts(Base(name));
      assert Get(mid, Base(name)) == PassAt(CleanBackup, files, files.Keys, Base(name));
    }
  }

  lemma RolledBackAt(files: Files, name: string)
    ensures Get(RolledBack(files), name) ==
              if IsBackup(name) then None else if IsNew(name) then Get(files, name + TILDE) else Get(files, name)
  {
    hide Managed, Cleaned;
    var mid := Cleaned(CleanNew, files);
    assert Get(RolledBack(files), name) == PassAt(RestoreBackup, mid, mid.Keys, name);
    assert Get(mid, name) == PassAt(CleanNew, files, files.Keys, name);
    if IsBackup(name) { BackupEnds(name); }
    if IsNew(name) {
      NewFacts(name);
      BackupEnds(name + TILDE);
      assert Get(mid, name + TILDE) == PassAt(CleanNew, files, files.Keys, name + TILDE);
    }
  }

  lemma CommittedAt(files: Files, name: string)
    ensures Get(Committed(files), name) == if IsBackup(name) then None else Get(files, name)
  {
    hide Managed, Cleaned;
    assert Get(Committed(files), name) == PassAt(CleanBackup, files, files.Keys, name);
  }

  /* ---- the transaction ---- */

  // Directories by path, the registered ones in order, and whether the point of no return
  // has passed.
  datatype State = State(fs: map<string, Files>, dirs: seq<string>, ponr: bool)

  datatype Event = Register(dir: string) | Put(dir: string, name: string, data: seq<byte>)
                 | Drop(dir: string, name: string) | MakeDir(dir: string) | PointOfNoReturn

  // None: the directory cannot be opened or written, an error that ends the program.
  ghost function After(s: State, e: Event): Option<State> {
    match e
    case Register(d) =>
      if d !in s.fs then None else Some(s.(fs := s.fs[d := Prepared(s.fs[d])], dirs := s.dirs + [d]))
    case Put(d, name, data) => if d !in s.fs then None else Some(s.(fs := s.fs[d := s.fs[d][name := data]]))
    case Drop(d, name) => if d !in s.fs then None else Some(s.(fs := s.fs[d := s.fs[d] - {name}]))
    case MakeDir(d) => if d in s.fs then Some(s) else Some(s.(fs := s.fs[d := map[]]))
    case PointOfNoReturn => Some(s.(ponr := true))
  }

  // The installer writes no file whose name is that of a backup.
  predicate Legal(e: Event) {
    (e.Put? || e.Drop?) ==> !IsBackup(e.name)
  }

  ghost function AfterAll(s: State, es: seq<Event>): Option<State> {
    if es == [] then Some(s)
    else
      match AfterAll(s, es[..|es| - 1])
      case None => None
      case Some(mid) => After(mid, es[|es| - 1])
  }

  ghost function Finished(s: State, files: Files): Files {
    if s.ponr then Committed(files) else RolledBack(files)
  }

  // restore_backup_atexit over the first n registered directories.
  ghost function ExitSome(s: State, n: nat): map<string, Files>
    requires n <= |s.dirs|
  {
    if n == 0 then s.fs
    else
      var before := ExitSome(s, n - 1);
      var d := s.dirs[n - 1];
      if d in before then before[d := Finished(s, before[d])] else before
  }

  ghost function AtExit(s: State): map<string, Files> { ExitSome(s, |s.dirs|) }

  // How many registered directories, from the n-th on, come before the first missing one.
  ghost function BeforeMissing(s: State, n: nat): (r: nat)
    requires n <= |s.dirs|
    ensures n <= r <= |s.dirs|
    decreases |s.dirs| - n
  {
    if n == |s.dirs| || s.dirs[n] !in s.fs then n else BeforeMissing(s, n + 1)
  }

  function Times(dirs: seq<string>, d: string): nat {
    if dirs == [] then 0 else Times(dirs[..|dirs| - 1], d) + if dirs[|dirs| - 1] == d then 1 else 0
  }

  ghost function FinishedTimes(s: State, files: Files, n: nat): Files {
    if n == 0 then files else Finished(s, FinishedTimes(s, files, n - 1))
  }

  // Each registration of a directory treats it once more, and nothing else touches it.
  lemma {:induction false} ExitPerDirectory(s: State, n: nat, d: string)
    requires n <= |s.dirs|
    ensures d in ExitSome(s, n) <==> d in s.fs
    ensures d in s.fs ==> ExitSome(s, n)[d] == FinishedTimes(s, s.fs[d], Times(s.dirs[..n], d))
  {
    hide Finished;
    if n > 0 {
      ExitPerDirectory(s, n - 1, d);
      var dirs := s.dirs[..n];
      assert dirs[..n - 1] == s.dirs[..n - 1] && dirs[n - 1] == s.dirs[n - 1];
      hide FinishedTimes, ExitSome;
      ExitStep(s, n, d);
      FinishOnceMore(s, d, Times(dirs[..n - 1], d));
    }
  }

  lemma ExitStep(s: State, n: nat, d: string)
    requires 0 < n <= |s.dirs|
    ensures var before, after := ExitSome(s, n - 1), ExitSome(s, n);
            && (d in after <==> d in before)
            && (d in before ==> after[d] == if s.dirs[n - 1] == d then Finished(s, before[d]) else before[d])
  {
    hide Finished;
  }

  lemma FinishOnceMore(s: State, d: string, n: nat)
    ensures d in s.fs ==> FinishedTimes(s, s.fs[d], n + 1) == Finished(s, FinishedTimes(s, s.fs[d], n))
  {
    hide Finished;
  }

  // The backups in `files` are the managed files of `start`.
  ghost predicate BacksUp(files: Files, start: Files) {
    forall name :: IsNew(name) ==> Get(files, name + TILDE) == Get(start, name)
  }

  lemma PreparedBacksUp(start: Files)
    ensures BacksUp(Prepared(start), start)
  {
    hide Managed, Prepared;
    forall name | IsNew(name) ensures Get(Prepared(start), name + TILDE) == Get(start, name) {
      NewFacts(name);
      BackupEnds(name + TILDE);
      PreparedAt(start, name + TILDE);
    }
  }

  // A legal event other than registering the directory again leaves its backups alone.
  lemma EventKeepsBackups(s: State, e: Event, d: string, start: Files)
    requires d in s.fs && BacksUp(s.fs[d], start) && Legal(e) && e != Register(d) && After(s, e).Some?
    ensures d in After(s, e).value.fs && BacksUp(After(s, e).value.fs[d], start)
  {
    hide Managed, Prepared;
    var s' := After(s, e).value;
    forall name | IsNew(name) ensures Get(s'.fs[d], name + TILDE) == Get(s.fs[d], name + TILDE) {
      NewFacts(name);
    }
  }

  // From the registration of d to the end of the run, its backups are what it held then.
  lemma {:induction false} RunKeepsBackups(s: State, es: seq<Event>, r: nat, d: string)
    requires r < |es| && es[r] == Register(d) && (forall i :: r < i < |es| ==> es[i] != Register(d) && Legal(es[i]))
    requires AfterAll(s, es).Some?
    ensures AfterAll(s, es[..r]).Some? && d in AfterAll(s, es[..r]).value.fs && d in AfterAll(s, es).value.fs
    ensures BacksUp(AfterAll(s, es).value.fs[d], AfterAll(s, es[..r]).value.fs[d])
    decreases |es|
  {
    hide BacksUp, Prepared, Legal;
    var n := |es| - 1;
    var mid := AfterAll(s, es[..n]).value;
    if r == n {
      PreparedBacksUp(mid.fs[d]);
    } else {
      assert es[..n][..r] == es[..r];
      RunKeepsBackups(s, es[..n], r, d);
      EventKeepsBackups(mid, es[n], d, AfterAll(s, es[..r]).value.fs[d]);
    }
  }

  /* ---- the main results ---- */

  // Leaving before the point of no return, with the directory registered once: managed files
  // are exactly those at registration, no backup is left, other files are as the run left them.
  lemma RollbackRestores(s: State, d: string, start: Files, name: string)
    requires d in s.fs && BacksUp(s.fs[d], start) && !s.ponr && Times(s.dirs, d) == 1
    ensures d in AtExit(s)
    ensures IsNew(name) ==> Get(AtExit(s)[d], name) == Get(start, name)
    ensures IsBackup(name) ==> Get(AtExit(s)[d], name) == None
    ensures !IsNew(name) && !IsBackup(name) ==> Get(AtExit(s)[d], name) == Get(s.fs[d], name)
  {
    hide Managed, RolledBack, AtExit;
    OnceIsFinished(s, d);
    RolledBackAt(s.fs[d], name);
    if IsNew(name) { NewFacts(name); }
  }

  // Leaving after it: managed files are exactly the new ones, however often the directory
  // was registered.
  lemma CommitKeeps(s: State, d: string, name: string)
    requires d in s.fs && s.ponr && Times(s.dirs, d) >= 1
    ensures d in AtExit(s)
    ensures Get(AtExit(s)[d], name) == if IsBackup(name) then None else Get(s.fs[d], name)
  {
    hide Managed, Committed;
    ExitPerDirectory(s, |s.dirs|, d);
    assert s.dirs[..|s.dirs|] == s.dirs;
    CommitTimes(s, s.fs[d], Times(s.dirs, d), name);
  }

  lemma {:induction false} CommitTimes(s: State, files: Files, n: nat, name: string)
    requires s.ponr && n >= 1
    ensures Get(FinishedTimes(s, files, n), name) == if IsBackup(name) then None else Get(files, name)
  {
    hide Managed, Committed;
    CommittedAt(FinishedTimes(s, files, n - 1), name);
    if n > 1 { CommitTimes(s, files, n - 1, name); }
  }

  lemma OnceIsFinished(s: State, d: string)
    requires d in s.fs && Times(s.dirs, d) == 1
    ensures d in AtExit(s) && AtExit(s)[d] == Finished(s, s.fs[d])
  {
    hide Finished;
    ExitPerDirectory(s, |s.dirs|, d);
    assert s.dirs[..|s.dirs|] == s.dirs;
    assert FinishedTimes(s, s.fs[d], 1) == Finished(s, FinishedTimes(s, s.fs[d], 0));
  }

  // Rolling a directory back twice throws away what the first time restored.
  lemma {:induction false} RollbackTwice(s: State, files: Files, n: nat, name: string)
    requires !s.ponr && n >= 2 && IsNew(name)
    ensures Get(FinishedTimes(s, files, n), name) == None
  {
    hide Managed, RolledBack;
    var once := FinishedTimes(s, files, n - 1);
    RolledBackAt(once, name);
    NewFacts(name);
    RolledBackAt(FinishedTimes(s, files, n - 2), name + TILDE);
  }

  ghost predicate HasManaged(files: Files) {
    exists name :: IsNew(name) && name in files
  }

  ghost predicate SameManaged(a: Files, b: Files) {
    forall name :: IsNew(name) ==> Get(a, name) == Get(b, name)
  }

  lemma AtExitIs(s: State, d: string)
    requires d in s.fs
    ensures d in AtExit(s) && AtExit(s)[d] == FinishedTimes(s, s.fs[d], Times(s.dirs, d))
  {
    ExitPerDirectory(s, |s.dirs|, d);
    assert s.dirs[..|s.dirs|] == s.dirs;
  }

  // A run from the start: registered directories, in order of registration.
  lemma {:induction false} TimesRegistered(s: State, es: seq<Event>, d: string)
    requires AfterAll(s, es).Some?
    ensures Times(AfterAll(s, es).value.dirs, d) == Times(s.dirs, d) + CountRegister(es, d)
    decreases |es|
  {
    hide Times, After;
    if es != [] {
      var n := |es| - 1;
      TimesRegistered(s, es[..n], d);
      OneEventCounts(AfterAll(s, es[..n]).value, es[n], d);
    }
  }

  lemma OneEventCounts(s: State, e: Event, d: string)
    requires After(s, e).Some?
    ensures Times(After(s, e).value.dirs, d) == Times(s.dirs, d) + if e == Register(d) then 1 else 0
  {
    hide Prepared;
    if e.Register? {
      assert (s.dirs + [e.dir])[..|s.dirs|] == s.dirs;
    }
  }

  function CountRegister(es: seq<Event>, d: string): nat {
    if es == [] then 0 else CountRegister(es[..|es| - 1], d) + if es[|es| - 1] == Register(d) then 1 else 0
  }

  lemma {:induction false} RegisteredOnce(es: seq<Event>, r: nat, d: string)
    requires r < |es| && es[r] == Register(d) && forall i :: 0 <= i < |es| && i != r ==> es[i] != Register(d)
    ensures CountRegister(es, d) == 1
    decreases |es|
  {
    var n := |es| - 1;
    if r == n {
      NeverRegistered(es[..n], d);
    } else {
      RegisteredOnce(es[..n], r, d);
    }
  }

  lemma {:induction false} NeverRegistered(es: seq<Event>, d: string)
    requires forall i :: 0 <= i < |es| ==> es[i] != Register(d)
    ensures CountRegister(es, d) == 0
    decreases |es|
  {
    if es != [] { NeverRegistered(es[..|es| - 1], d); }
  }

  // Every installation, stopped anywhere: a directory registered once ends up with the
  // managed files it had when it was registered, or after the point of no return with those
  // the installer left, and in both cases without backups and with all other files alone.
  lemma InstallIsTransaction(s: State, es: seq<Event>, r: nat, d: string, name: string)
    requires s.dirs == [] && AfterAll(s, es).Some? && (forall i :: 0 <= i < |es| ==> Legal(es[i]))
    requires r < |es| && es[r] == Register(d) && forall i :: 0 <= i < |es| && i != r ==> es[i] != Register(d)
    ensures AfterAll(s, es[..r]).Some? && d in AfterAll(s, es[..r]).value.fs
    ensures var start, last := AfterAll(s, es[..r]).value, AfterAll(s, es).value;
            && d in last.fs && d in AtExit(last)
            && Get(AtExit(last)[d], name) ==
                 if IsBackup(name) then None
                 else if IsNew(name) && !last.ponr then Get(start.fs[d], name)
                 else Get(last.fs[d], name)
  {
    hide AtExit, Legal, Managed, After, BacksUp;
    RunKeepsBackups(s, es, r, d);
    TimesRegistered(s, es, d);
    RegisteredOnce(es, r, d);
    var start, last := AfterAll(s, es[..r]).value, AfterAll(s, es).value;
    if last.ponr {
      CommitKeeps(last, d, name);
    } else {
      RollbackRestores(last, d, start.fs[d], name);
      if IsBackup(name) { BackupEnds(name); }
    }
  }

  // Rolled back, a directory has the managed files it had at a registration exactly when it
  // was registered only once, or had none.
  lemma RollbackIffOnce(s: State, es: seq<Event>, r: nat, d: string)
    requires s.dirs == [] && AfterAll(s, es).Some? && !AfterAll(s, es).value.ponr
    requires forall i :: 0 <= i < |es| ==> Legal(es[i])
    requires r < |es| && es[r] == Register(d)
    ensures AfterAll(s, es[..r]).Some? && d in AfterAll(s, es[..r]).value.fs && d in AtExit(AfterAll(s, es).value)
    ensures SameManaged(AtExit(AfterAll(s, es).value)[d], AfterAll(s, es[..r]).value.fs[d])
            <==> CountRegister(es, d) == 1 || !HasManaged(AfterAll(s, es[..r]).value.fs[d])
  {
    hide AtExit, Legal, Managed, After, BacksUp, FinishedTimes;
    RegisteredStays(s, es, r, d);
    TimesRegistered(s, es, d);
    CountedOnce(es, r, d);
    var start, last := AfterAll(s, es[..r]).value.fs[d], AfterAll(s, es).value;
    AtExitIs(last, d);
    var end := AtExit(last)[d];
    if CountRegister(es, d) == 1 {
      forall name | IsNew(name) ensures Get(end, name) == Get(start, name) {
        InstallIsTransaction(s, es, r, d, name);
        NewFacts(name);
      }
    } else {
      forall name | IsNew(name) ensures Get(end, name) == None {
        RollbackTwice(last, last.fs[d], Times(last.dirs, d), name);
      }
    }
  }

  // A registered directory was there and stays there.
  lemma {:induction false} RegisteredStays(s: State, es: seq<Event>, r: nat, d: string)
    requires r < |es| && es[r] == Register(d) && AfterAll(s, es).Some?
    ensures AfterAll(s, es[..r]).Some? && d in AfterAll(s, es[..r]).value.fs && d in AfterAll(s, es).value.fs
    decreases |es|
  {
    hide Prepared;
    var n := |es| - 1;
    if r < n {
      assert es[..n][..r] == es[..r];
      RegisteredStays(s, es[..n], r, d);
    }
  }

  lemma {:induction false} CountedOnce(es: seq<Event>, r: nat, d: string)
    requires r < |es| && es[r] == Register(d)
    ensures CountRegister(es, d) >= 1
    ensures CountRegister(es, d) == 1 ==> forall i :: 0 <= i < |es| && i != r ==> es[i] != Register(d)
    decreases |es|
  {
    var n := |es| - 1;
    if r < n {
      CountedOnce(es[..n], r, d);
      assert CountRegister(es, d) == 1 ==> forall i :: 0 <= i < n && i != r ==> es[..n][i] != Register(d);
    } else {
      if CountRegister(es[..n], d) == 0 { CountsNone(es[..n], d); }
      assert CountRegister(es, d) == 1 ==> forall i :: 0 <= i < n ==> es[..n][i] != Register(d);
    }
  }

  lemma {:induction false} CountsNone(es: seq<Event>, d: string)
    requires CountRegister(es, d) == 0
    ensures forall i :: 0 <= i < |es| ==> es[i] != Register(d)
    decreases |es|
  {
    if es != [] {
      CountsNone(es[..|es| - 1], d);
      forall i | 0 <= i < |es| ensures es[i] != Register(d) {
        if i < |es| - 1 { assert es[..|es| - 1][i] == es[i]; }
      }
    }
  }

  // Registering a directory a second time, after a new file went in, and leaving before the
  // point of no return: old and new managed files are all gone.
  lemma ThreeEvents(s: State, a: Event, b: Event, c: Event, s1: State, s2: State, s3: State)
    requires After(s, a) == Some(s1) && After(s1, b) == Some(s2) && After(s2, c) == Some(s3)
    ensures AfterAll(s, [a, b, c]) == Some(s3)
  {
    hide After;
    assert [a][..0] == [] && [a, b][..1] == [a] && [a, b, c][..2] == [a, b];
    assert AfterAll(s, []) == Some(s);
    assert AfterAll(s, [a]) == Some(s1);
    assert AfterAll(s, [a, b]) == Some(s2);
  }

  lemma SecondRegistrationLosesAll(d: string, files: Files, name: string, data: seq<byte>, other: string)
    requires IsNew(name) && IsNew(other)
    ensures var es := [Register(d), Put(d, name, data), Register(d)];
            var end := AfterAll(State(map[d := files], [], false), es);
            && (forall i :: 0 <= i < |es| ==> Legal(es[i]))
            && end.Some? && d in AtExit(end.value) && Get(AtExit(end.value)[d], other) == None
  {
    hide Managed, Prepared, FinishedTimes, AtExit;
    NewFacts(name);
    var s := State(map[d := files], [], false);
    var es := [Register(d), Put(d, name, data), Register(d)];
    var s1 := After(s, es[0]).value;
    var s2 := After(s1, es[1]).value;
    var s3 := After(s2, es[2]).value;
    ThreeEvents(s, es[0], es[1], es[2], s1, s2, s3);
    assert s3.dirs == [d] + [d];
    assert ([d] + [d])[..1] == [d] && [d][..0] == [];
    assert Times([d], d) == 1 && Times(s3.dirs, d) == 2;
    AtExitIs(s3, d);
    RollbackTwice(s3, s3.fs[d], 2, other);
  }

  // A directory that is never registered is as the run left it.
  lemma OthersUntouched(s: State, es: seq<Event>, d: string)
    requires s.dirs == [] && AfterAll(s, es).Some? && d in AfterAll(s, es).value.fs && forall i :: 0 <= i < |es| ==> es[i] != Register(d)
    ensures d in AtExit(AfterAll(s, es).value) && AtExit(AfterAll(s, es).value)[d] == AfterAll(s, es).value.fs[d]
  {
    hide AtExit;
    TimesRegistered(s, es, d);
    NeverRegistered(es, d);
    AtExitIs(AfterAll(s, es).value, d);
  }

  /* ---- the program ---- */

  class Installer {
    var fs: map<string, Files>
    var backupDirs: seq<string>
    var backupProcess: Option<nat>
    var ponr: bool

    constructor (fs: map<string, Files>)
      ensures Now() == State(fs, [], false) && backupProcess == None
    {
      this.fs, backupDirs, backupProcess, ponr := fs, [], None, false;
    }

    ghost function Now(): State
      reads this
    {
      State(fs, backupDirs, ponr)
    }

    // false: the directory cannot be opened, which only matters when it is not just old
    // backups that are to be deleted.
    method CleanDir(dir: string, mode: Mode) returns (ok: bool)
      modifies `fs
      ensures ok <==> dir in old(fs) || mode == CleanBackup
      ensures fs == if dir in old(fs) then old(fs)[dir := Cleaned(mode, old(fs)[dir])] else old(fs)
    {
      if dir !in fs { return mode == CleanBackup; }
      var after := Pass(mode, fs[dir]);
      PassedIsCleaned(mode, fs[dir], after);
      fs := fs[dir := after];
      ok := true;
    }

    method AppendToBackupDirs(dir: string, pid: nat)
      modifies `backupDirs, `backupProcess
      ensures backupDirs == old(backupDirs) + [dir]
      ensures backupProcess == if old(backupProcess).None? then Some(pid) else old(backupProcess)
    {
      backupDirs := backupDirs + [dir];
      if backupProcess.None? { backupProcess := Some(pid); }
    }

    method CleanGrubDir(dir: string, pid: nat) returns (ok: bool)
      modifies this
      ensures ok <==> After(old(Now()), Register(dir)).Some?
      ensures Now() == if ok then After(old(Now()), Register(dir)).value else old(Now())
    {
      hide Cleaned;
      ok := CleanDir(dir, CleanBackup);
      ok := CleanDir(dir, CreateBackup);
      if ok {
        AppendToBackupDirs(dir, pid);
        assert fs == old(fs)[dir := Prepared(old(fs)[dir])];
      }
    }

    method FinishDir(dir: string) returns (ok: bool)
      modifies `fs
      ensures ok <==> dir in old(fs) || ponr
      ensures fs == if dir in old(fs) then old(fs)[dir := Finished(old(Now()), old(fs)[dir])] else old(fs)
    {
      hide Cleaned;
      if ponr {
        ok := CleanDir(dir, CleanBackup);
      } else {
        ok := CleanDir(dir, CleanNew);
        if !ok { return; }
        ok := CleanDir(dir, RestoreBackup);
        assert fs == old(fs)[dir := RolledBack(old(fs)[dir])];
      }
    }

    // A child process that inherited the handler does nothing.  false: a directory to be
    // rolled back has gone.
    method RestoreBackupAtExit(pid: nat) returns (ok: bool)
      modifies this
      ensures ok <==> old(backupProcess) != Some(pid) || ponr || forall d :: d in old(backupDirs) ==> d in old(fs)
      ensures ok ==> fs == if old(backupProcess) == Some(pid) then AtExit(old(Now())) else old(fs)
      ensures !ok ==> fs == ExitSome(old(Now()), BeforeMissing(old(Now()), 0))
    {
      hide Finished;
      if backupProcess != Some(pid) { return true; }
      ghost var s := Now();
      var i := 0;
      while i < |backupDirs|
        invariant i <= |backupDirs| && backupDirs == s.dirs && ponr == s.ponr && fs == ExitSome(s, i)
        invariant fs.Keys == s.fs.Keys
        invariant !ponr ==> forall j :: 0 <= j < i ==> backupDirs[j] in s.fs
        invariant !ponr ==> BeforeMissing(s, 0) == BeforeMissing(s, i)
      {
        FinishedDependsOnPonr(s, Now());
        ok := FinishDir(backupDirs[i]);
        if !ok { return; }
        i := i + 1;
      }
      backupDirs := [];
      ok := true;
    }
  }

  lemma FinishedDependsOnPonr(s: State, t: State)
    requires s.ponr == t.ponr
    ensures forall files :: Finished(s, files) == Finished(t, files)
  {
  }
}
