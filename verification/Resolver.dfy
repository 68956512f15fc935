/** Module dependency resolution: grub/util/resolve.c. */
module Resolver {
  import Counting

  /* ---- module names and paths ---- */

  // strrchr: the last index of `c`, or -1.
  function LastIndex(s: string, c: char): (i: int)
    ensures -1 <= i < |s|
    ensures i >= 0 ==> s[i] == c
    ensures forall j :: i < j < |s| ==> s[j] != c
  {
    if s == [] then -1
    else if s[|s| - 1] == c then |s| - 1
    else LastIndex(s[..|s| - 1], c)
  }

  lemma LastIndexUnique(s: string, c: char, i: int)
    requires -1 <= i < |s| && (i >= 0 ==> s[i] == c) && forall j :: i < j < |s| ==> s[j] != c
    ensures LastIndex(s, c) == i
  {
  }

  const EXT: string := ".mod"

  // ext && strcmp (ext, ".mod") == 0
  predicate HasModExt(s: string) {
    var e := LastIndex(s, '.');
    e >= 0 && s[e..] == EXT
  }

  function BaseName(s: string): string {
    s[LastIndex(s, '/') + 1..]
  }

  // get_module_name
  function ModuleName(s: string): string {
    var base := BaseName(s);
    if HasModExt(base) then base[..LastIndex(base, '.')] else base
  }

  // get_module_path
  function ModulePath(dir: string, s: string): string {
    var base := if HasModExt(s) then s else s + EXT;
    if '/' in s then base else dir + "/" + base
  }

  lemma ExtFacts()
    ensures |EXT| == 4 && EXT[0] == '.' && '/' !in EXT && forall j :: 0 < j < 4 ==> EXT[j] != '.'
  {
    assert EXT == ['.', 'm', 'o', 'd'];
  }

  lemma EndsInMod(s: string)
    ensures HasModExt(s + EXT) && LastIndex(s + EXT, '.') == |s|
  {
    ExtFacts();
    DotOfExt(s, EXT);
  }

  lemma DotOfExt(s: string, ext: string)
    requires |ext| > 0 && ext[0] == '.' && forall j :: 0 < j < |ext| ==> ext[j] != '.'
    ensures LastIndex(s + ext, '.') == |s| && (s + ext)[|s|..] == ext
  {
    hide LastIndex;
    var t := s + ext;
    forall j | |s| < j < |t| ensures t[j] != '.' {
      assert t[j] == ext[j - |s|];
    }
    LastIndexUnique(t, '.', |s|);
  }

  lemma LastSlash(dir: string, base: string)
    requires '/' !in base
    ensures BaseName(dir + "/" + base) == base
  {
    var s := dir + "/" + base;
    assert s[|dir| + 1..] == base;
    forall j | |dir| < j < |s| ensures s[j] != '/' {
      assert s[j] == base[j - |dir| - 1];
    }
    LastIndexUnique(s, '/', |dir|);
  }

  lemma AppendKeepsBase(s: string)
    ensures BaseName(s + EXT) == BaseName(s) + EXT
  {
    ExtFacts();
    AppendWithoutSlash(s, EXT);
  }

  lemma AppendWithoutSlash(s: string, ext: string)
    requires '/' !in ext
    ensures BaseName(s + ext) == BaseName(s) + ext
  {
    var i := LastIndex(s, '/');
    NoSlashBehind(s, ext, i);
    LastIndexUnique(s + ext, '/', i);
    hide LastIndex;
    assert (s + ext)[i + 1..] == s[i + 1..] + ext;
  }

  lemma NoSlashBehind(s: string, ext: string, i: int)
    requires '/' !in ext && -1 <= i < |s| && forall j :: i < j < |s| ==> s[j] != '/'
    ensures forall j :: i < j < |s + ext| ==> (s + ext)[j] != '/'
  {
    forall j | i < j < |s + ext| ensures (s + ext)[j] != '/' {
      if j >= |s| { assert (s + ext)[j] == ext[j - |s|]; }
    }
  }

  lemma NoSlashBase(s: string)
    requires '/' !in s
    ensures BaseName(s) == s
  {
    LastIndexUnique(s, '/', -1);
  }

  lemma StripAppended(base: string)
    ensures HasModExt(base + EXT) && (base + EXT)[..LastIndex(base + EXT, '.')] == base
  {
    EndsInMod(base);
  }

  lemma ExtBehindSlash(s: string)
    requires HasModExt(s)
    ensures LastIndex(s, '/') < LastIndex(s, '.')
  {
    var i, e := LastIndex(s, '/'), LastIndex(s, '.');
    assert s[e..] == EXT;
    forall j | e <= j < |s| ensures s[j] != '/' {
      assert s[j] == s[e..][j - e];
    }
  }

  lemma TailIndex(s: string, k: nat, c: char)
    requires k <= |s| && k <= LastIndex(s, c)
    ensures LastIndex(s[k..], c) == LastIndex(s, c) - k
  {
    LastIndexUnique(s[k..], c, LastIndex(s, c) - k);
  }

  lemma TailIndexUp(s: string, k: nat, c: char)
    requires k <= |s| && LastIndex(s[k..], c) >= 0
    ensures LastIndex(s, c) == LastIndex(s[k..], c) + k
  {
    var f := LastIndex(s[k..], c);
    forall j | k + f < j < |s| ensures s[j] != c {
      assert s[j] == s[k..][j - k];
    }
    LastIndexUnique(s, c, k + f);
  }

  // A name with the .mod suffix has it behind the last slash.
  lemma ModExtInBase(s: string)
    ensures HasModExt(BaseName(s)) <==> HasModExt(s)
  {
    var k := LastIndex(s, '/') + 1;
    var base := s[k..];
    hide LastIndex;
    if HasModExt(s) {
      ExtBehindSlash(s);
      TailIndex(s, k, '.');
      assert base[LastIndex(base, '.')..] == s[LastIndex(s, '.')..];
    }
    if HasModExt(base) {
      TailIndexUp(s, k, '.');
      assert base[LastIndex(base, '.')..] == s[LastIndex(s, '.')..];
    }
  }

  predicate EndsInDotMod(s: string) {
    |s| >= 4 && s[|s| - 4..] == ".mod"
  }

  lemma ModExtIff(s: string)
    ensures HasModExt(s) <==> EndsInDotMod(s)
  {
    ExtFacts();
    if EndsInDotMod(s) {
      EndsInMod(s[..|s| - 4]);
      assert s == s[..|s| - 4] + EXT;
    }
  }

  // What a module is called: the last component of its path, without its .mod.
  lemma NameOfPath(dir: string, x: string)
    requires '/' !in x
    ensures ModuleName(x + ".mod") == x && ModuleName(dir + "/" + x + ".mod") == x
    ensures !EndsInDotMod(x) ==> ModuleName(x) == x && ModuleName(dir + "/" + x) == x
  {
    ExtFacts();
    hide LastIndex;
    var y := x + EXT;
    NoSlashBase(y);
    LastSlash(dir, y);
    assert dir + "/" + y == dir + "/" + x + ".mod";
    EndsInMod(x);
    assert y[..|x|] == x;
    ModExtIff(x);
    NoSlashBase(x);
    LastSlash(dir, x);
  }

  // The path for a module written as s: s with .mod behind it unless it is there, looked for
  // in `dir` unless s says where.
  predicate IsPathFor(dir: string, s: string, path: string) {
    var file := if EndsInDotMod(s) then s else s + ".mod";
    path == if exists i :: 0 <= i < |s| && s[i] == '/' then file else dir + "/" + file
  }

  lemma PathIsPath(dir: string, s: string)
    ensures IsPathFor(dir, s, ModulePath(dir, s))
  {
    ModExtIff(s);
    hide HasModExt, EndsInDotMod;
  }

  // Normalising the path that was computed for a module gives the module's name back.
  lemma PathNamesModule(dir: string, s: string)
    ensures ModuleName(ModulePath(dir, s)) == ModuleName(s)
  {
    hide HasModExt, BaseName, LastIndex;
    ModExtInBase(s);
    AppendKeepsBase(s);
    StripAppended(BaseName(s));
    if '/' !in s {
      NoSlashBase(s);
      LastSlash(dir, s);
      LastSlash(dir, s + EXT);
    }
  }

  /* ---- the dependency graph ---- */

  datatype Dep = Dep(name: string, list: seq<string>)

  // The list of the first entry for `m`, as the search loop finds it.
  function DepsOf(deps: seq<Dep>, m: string): (r: seq<string>)
    ensures (forall i :: 0 <= i < |deps| ==> deps[i].name != m) ==> r == []
    ensures forall i :: 0 <= i < |deps| && deps[i].name == m && (forall j :: 0 <= j < i ==> deps[j].name != m) ==> r == deps[i].list
  {
    if deps == [] then []
    else if deps[0].name == m then deps[0].list
    else DepsOf(deps[1..], m)
  }

  ghost predicate Edge(deps: seq<Dep>, m: string, n: string) {
    exists i :: 0 <= i < |DepsOf(deps, m)| && ModuleName(DepsOf(deps, m)[i]) == n
  }

  ghost predicate IsPath(deps: seq<Dep>, p: seq<string>) {
    p != [] && forall i :: 0 <= i < |p| - 1 ==> Edge(deps, p[i], p[i + 1])
  }

  ghost predicate PathBetween(deps: seq<Dep>, p: seq<string>, a: string, b: string) {
    IsPath(deps, p) && p[0] == a && p[|p| - 1] == b
  }

  ghost predicate Reach(deps: seq<Dep>, a: string, b: string) {
    exists p :: PathBetween(deps, p, a, b)
  }

  // No module that `a` reaches depends on itself, directly or through others.
  ghost predicate AcyclicFrom(deps: seq<Dep>, a: string) {
    forall m, n :: Reach(deps, a, m) && Edge(deps, m, n) ==> !Reach(deps, n, m)
  }

  lemma ReachSelf(deps: seq<Dep>, a: string)
    ensures Reach(deps, a, a)
  {
    assert PathBetween(deps, [a], a, a);
  }

  lemma ReachStep(deps: seq<Dep>, a: string, b: string, c: string)
    requires Edge(deps, a, b) && Reach(deps, b, c)
    ensures Reach(deps, a, c)
  {
    hide Edge;
    var p :| PathBetween(deps, p, b, c);
    var q := [a] + p;
    assert forall i :: 0 <= i < |q| - 1 ==> q[i + 1] == p[i];
    assert PathBetween(deps, q, a, c);
  }

  lemma AcyclicBelow(deps: seq<Dep>, a: string, b: string)
    requires AcyclicFrom(deps, a) && Edge(deps, a, b)
    ensures AcyclicFrom(deps, b)
  {
    hide Edge, Reach;
    forall m, n | Reach(deps, b, m) && Edge(deps, m, n) ensures !Reach(deps, n, m) {
      ReachStep(deps, a, b, m);
    }
  }

  /* ---- rank: why the recursion ends ---- */

  ghost function Names(deps: seq<Dep>): set<string> {
    if deps == [] then {} else {deps[0].name} + ListNames(deps[0].list) + Names(deps[1..])
  }

  ghost function ListNames(l: seq<string>): set<string> {
    set i | 0 <= i < |l| :: ModuleName(l[i])
  }

  lemma {:induction false} EdgesAreNames(deps: seq<Dep>, m: string, n: string)
    requires Edge(deps, m, n)
    ensures m in Names(deps) && n in Names(deps)
    decreases |deps|
  {
    if deps[0].name != m {
      assert DepsOf(deps, m) == DepsOf(deps[1..], m);
      EdgesAreNames(deps[1..], m, n);
    }
  }

  ghost function Below(deps: seq<Dep>, m: string): set<string> {
    set x | x in Names(deps) && Reach(deps, m, x)
  }

  // Number of modules at or below `m`.
  ghost function Rank(deps: seq<Dep>, m: string): nat {
    |Below(deps, m)|
  }

  lemma RankDecreases(deps: seq<Dep>, m: string, n: string)
    requires AcyclicFrom(deps, m) && Edge(deps, m, n)
    ensures Rank(deps, n) < Rank(deps, m)
  {
    hide Edge, Reach, Names;
    EdgesAreNames(deps, m, n);
    ReachSelf(deps, m);
    forall x | x in Below(deps, n) ensures x in Below(deps, m) {
      ReachStep(deps, m, n, x);
    }
    assert m in Below(deps, m) && m !in Below(deps, n);
    assert Below(deps, n) <= Below(deps, m) - {m};
    Counting.SubsetSize(Below(deps, n), Below(deps, m) - {m});
  }

  lemma PathTail(deps: seq<Dep>, p: seq<string>)
    requires IsPath(deps, p) && |p| > 1
    ensures IsPath(deps, p[1..])
  {
    hide Edge;
    var q := p[1..];
    forall i | 0 <= i < |q| - 1 ensures Edge(deps, q[i], q[i + 1]) {
      assert q[i] == p[i + 1] && q[i + 1] == p[i + 1 + 1];
    }
  }

  /* ---- lists of added modules ---- */

  ghost predicate Distinct(mods: seq<string>) {
    forall i, j :: 0 <= i < j < |mods| ==> mods[i] != mods[j]
  }

  // Newest first: what a module depends on was added before it.
  ghost predicate DepsBehind(deps: seq<Dep>, mods: seq<string>) {
    forall i, n :: 0 <= i < |mods| && Edge(deps, mods[i], n) ==> n in mods[i + 1..]
  }

  // The paths belong to the modules, position by position.
  ghost predicate PathsFor(mods: seq<string>, paths: seq<string>) {
    |paths| == |mods| && forall i :: 0 <= i < |mods| ==> ModuleName(paths[i]) == mods[i]
  }

  // A way to write a module: in a request or in a dependency list.
  ghost predicate Written(deps: seq<Dep>, requests: seq<string>, s: string) {
    s in requests || exists i :: 0 <= i < |deps| && s in deps[i].list
  }

  // Every path is the path for a module as it is written somewhere.
  ghost predicate AllWritten(dir: string, deps: seq<Dep>, requests: seq<string>, paths: seq<string>) {
    forall i :: 0 <= i < |paths| ==> PathWritten(dir, deps, requests, paths[i])
  }

  ghost predicate PathWritten(dir: string, deps: seq<Dep>, requests: seq<string>, path: string) {
    exists s :: Written(deps, requests, s) && IsPathFor(dir, s, path)
  }

  lemma {:induction false} DepsAreWritten(deps: seq<Dep>, requests: seq<string>, m: string, s: string)
    requires s in DepsOf(deps, m)
    ensures Written(deps, requests, s)
    decreases |deps|
  {
    if deps[0].name != m {
      DepsAreWritten(deps[1..], requests, m, s);
      if s !in requests {
        var i :| 0 <= i < |deps[1..]| && s in deps[1..][i].list;
        assert s in deps[i + 1].list;
      }
    }
  }

  lemma WriteOne(dir: string, deps: seq<Dep>, requests: seq<string>, paths: seq<string>, s: string)
    requires AllWritten(dir, deps, requests, paths) && Written(deps, requests, s)
    ensures AllWritten(dir, deps, requests, [ModulePath(dir, s)] + paths)
  {
    hide Written, IsPathFor, ModulePath;
    PathIsPath(dir, s);
    assert PathWritten(dir, deps, requests, ModulePath(dir, s));
  }

  ghost predicate AddedBelow(deps: seq<Dep>, added: seq<string>, root: string) {
    forall x :: x in added ==> Reach(deps, root, x)
  }

  lemma PrependKeeps(deps: seq<Dep>, mods: seq<string>, m: string)
    requires Distinct(mods) && DepsBehind(deps, mods) && m !in mods
    requires forall n :: Edge(deps, m, n) ==> n in mods
    ensures Distinct([m] + mods) && DepsBehind(deps, [m] + mods)
  {
    hide Edge;
    var mods' := [m] + mods;
    forall i, n | 0 <= i < |mods'| && Edge(deps, mods'[i], n) ensures n in mods'[i + 1..] {
      if i > 0 {
        assert mods'[i] == mods[i - 1] && mods'[i + 1..] == mods[i..];
      } else {
        assert mods'[1..] == mods;
      }
    }
  }

  // add_module's two accumulated lists.
  class Lists {
    var mods: seq<string>
    var paths: seq<string>

    ghost predicate Valid(deps: seq<Dep>)
      reads this
    {
      Distinct(mods) && DepsBehind(deps, mods) && PathsFor(mods, paths)
    }

    constructor ()
      ensures mods == [] && paths == []
    {
      mods, paths := [], [];
    }

    // Adds `name` and everything below it that is not there yet, in front.
    method AddModule(dir: string, deps: seq<Dep>, name: string, ghost requests: seq<string>) returns (ghost added: seq<string>)
      requires AcyclicFrom(deps, ModuleName(name)) && Valid(deps)
      requires Written(deps, requests, name) && AllWritten(dir, deps, requests, paths)
      modifies this
      ensures Valid(deps) && AllWritten(dir, deps, requests, paths)
      ensures mods == added + old(mods) && ModuleName(name) in mods
      ensures AddedBelow(deps, added, ModuleName(name))
      decreases Rank(deps, ModuleName(name)), 1
    {
      hide Edge, Rank, AcyclicFrom, Distinct, DepsBehind, PathsFor, AddedProperly, ModulePath, ModuleName, Reach, DepsOf, AllWritten, Written;
      var modName := ModuleName(name);
      added := [];
      if modName in mods {
        assert mods == [] + mods;
        return;
      }
      var list := FirstDeps(deps, modName);
      added := AddDependencies(dir, deps, modName, list, requests);
      NotAddedItself(deps, modName, added);
      assert modName !in added + old(mods);
      PrependKeeps(deps, mods, modName);
      PathNamesModule(dir, name);
      PathsPrepend(mods, paths, modName, ModulePath(dir, name));
      WriteOne(dir, deps, requests, paths, name);
      ReachSelf(deps, modName);
      mods := [modName] + mods;
      paths := [ModulePath(dir, name)] + paths;
      added := [modName] + added;
      assert mods == added + old(mods);
    }

    method AddDependencies(dir: string, deps: seq<Dep>, modName: string, list: seq<string>, ghost requests: seq<string>)
      returns (ghost added: seq<string>)
      requires AcyclicFrom(deps, modName) && Valid(deps) && list == DepsOf(deps, modName) && AllWritten(dir, deps, requests, paths)
      modifies this
      ensures Valid(deps) && AllWritten(dir, deps, requests, paths)
      ensures mods == added + old(mods)
      ensures forall n :: Edge(deps, modName, n) ==> n in mods
      ensures AddedProperly(deps, added, modName)
      decreases Rank(deps, modName), 0
    {
      hide Rank, AcyclicFrom, Distinct, DepsBehind, PathsFor, AddedBelow, AddedProperly, ModuleName, AllWritten, Written, DepsOf;
      added := [];
      AddedNothing(deps, modName);
      for k := 0 to |list|
        invariant Valid(deps) && mods == added + old(mods) && AllWritten(dir, deps, requests, paths)
        invariant forall i :: 0 <= i < k ==> ModuleName(list[i]) in mods
        invariant AddedProperly(deps, added, modName)
      {
        assert Edge(deps, modName, ModuleName(list[k]));
        RankDecreases(deps, modName, ModuleName(list[k]));
        AcyclicBelow(deps, modName, ModuleName(list[k]));
        DepsAreWritten(deps, requests, modName, list[k]);
        ghost var more := AddModule(dir, deps, list[k], requests);
        AddedMore(deps, added, more, modName, ModuleName(list[k]));
        added := more + added;
      }
    }
  }

  // What the dependencies of `root` brought in: each reachable through one of them.
  ghost predicate AddedProperly(deps: seq<Dep>, added: seq<string>, root: string) {
    forall x :: x in added ==> exists n :: Edge(deps, root, n) && Reach(deps, n, x)
  }

  lemma AddedNothing(deps: seq<Dep>, root: string)
    ensures AddedProperly(deps, [], root)
  {
  }

  lemma AddedMore(deps: seq<Dep>, added: seq<string>, more: seq<string>, root: string, n: string)
    requires AddedProperly(deps, added, root) && AddedBelow(deps, more, n) && Edge(deps, root, n)
    ensures AddedProperly(deps, more + added, root)
  {
    hide Edge, Reach;
    forall x | x in more + added ensures exists n :: Edge(deps, root, n) && Reach(deps, n, x) {
      if x in more {
        assert Edge(deps, root, n) && Reach(deps, n, x);
      }
    }
  }

  // Without cycles the dependencies cannot have added the module itself.
  lemma NotAddedItself(deps: seq<Dep>, m: string, added: seq<string>)
    requires AcyclicFrom(deps, m) && AddedProperly(deps, added, m)
    ensures m !in added && AddedBelow(deps, added, m)
  {
    hide Edge, Reach;
    ReachSelf(deps, m);
    forall x | x in added ensures x != m && Reach(deps, m, x) {
      var n :| Edge(deps, m, n) && Reach(deps, n, x);
      ReachStep(deps, m, n, x);
    }
  }

  lemma PathsPrepend(mods: seq<string>, paths: seq<string>, m: string, p: string)
    requires PathsFor(mods, paths) && ModuleName(p) == m
    ensures PathsFor([m] + mods, [p] + paths)
  {
  }

  // The loop over the dependency list that stops at the first matching entry.
  method FirstDeps(deps: seq<Dep>, m: string) returns (list: seq<string>)
    ensures list == DepsOf(deps, m)
  {
    var k := 0;
    while k < |deps| && deps[k].name != m
      invariant 0 <= k <= |deps| && DepsOf(deps, m) == DepsOf(deps[k..], m)
    {
      assert deps[k..][1..] == deps[k + 1..];
      k := k + 1;
    }
    list := if k < |deps| then deps[k].list else [];
  }

  /* ---- the result ---- */

  function Reversed(s: seq<string>): (r: seq<string>)
    ensures |r| == |s|
    ensures forall i :: 0 <= i < |s| ==> r[i] == s[|s| - 1 - i]
  {
    if s == [] then [] else Reversed(s[1..]) + [s[0]]
  }

  ghost predicate Requested(deps: seq<Dep>, requests: seq<string>, x: string) {
    exists k :: 0 <= k < |requests| && Reach(deps, ModuleName(requests[k]), x)
  }

  // The modules that a list of paths names.
  function NamesOf(paths: seq<string>): (names: seq<string>)
    ensures |names| == |paths|
    ensures forall i :: 0 <= i < |paths| ==> names[i] == ModuleName(paths[i])
  {
    seq(|paths|, i requires 0 <= i < |paths| => ModuleName(paths[i]))
  }

  // Every module after the modules it depends on.
  ghost predicate DepsBefore(deps: seq<Dep>, names: seq<string>) {
    forall i, n :: 0 <= i < |names| && Edge(deps, names[i], n) ==> n in names[..i]
  }

  // A list that holds the start of a path and is closed holds its end.
  lemma {:induction false} ClosedUnderPaths(deps: seq<Dep>, mods: seq<string>, p: seq<string>)
    requires DepsBehind(deps, mods) && IsPath(deps, p) && p[0] in mods
    ensures p[|p| - 1] in mods
    decreases |p|
  {
    if |p| > 1 {
      var i :| 0 <= i < |mods| && mods[i] == p[0];
      assert Edge(deps, mods[i], p[1]);
      assert p[1] in mods[i + 1..];
      PathTail(deps, p);
      ClosedUnderPaths(deps, mods, p[1..]);
    }
  }

  lemma ReversedOrder(deps: seq<Dep>, mods: seq<string>)
    requires Distinct(mods) && DepsBehind(deps, mods)
    ensures Distinct(Reversed(mods)) && DepsBefore(deps, Reversed(mods))
  {
    hide Edge, Reversed;
    var names := Reversed(mods);
    var k := |mods| - 1;
    forall i, n | 0 <= i < |names| && Edge(deps, names[i], n) ensures n in names[..i] {
      assert names[i] == mods[k - i];
      assert n in mods[k - i + 1..];
      var j :| 0 <= j < |mods[k - i + 1..]| && mods[k - i + 1..][j] == n;
      assert names[..i][i - 1 - j] == mods[k - i + 1 + j];
    }
  }

  // Main result: grub_util_resolve_dependencies when the requests reach no cycle.  The
  // modules named by the returned paths are distinct, are exactly what the requests reach,
  // and each comes after everything it depends on.
  method ResolveDependencies(dir: string, deps: seq<Dep>, requests: seq<string>)
    returns (result: seq<string>)
    requires forall k :: 0 <= k < |requests| ==> AcyclicFrom(deps, ModuleName(requests[k]))
    ensures Distinct(NamesOf(result))
    ensures forall x :: x in NamesOf(result) <==> Requested(deps, requests, x)
    ensures DepsBefore(deps, NamesOf(result))
    ensures AllWritten(dir, deps, requests, result)
  {
    hide AllWritten, Written;
    hide Edge, AcyclicFrom, Distinct, DepsBehind, PathsFor, Reach, ModuleName, DepsBefore, NamesOf;
    var l := new Lists();
    EmptyLists(deps);
    for k := 0 to |requests|
      invariant fresh(l) && l.Valid(deps) && AllWritten(dir, deps, requests, l.paths)
      invariant forall i :: 0 <= i < k ==> ModuleName(requests[i]) in l.mods
      invariant forall x :: x in l.mods ==> Requested(deps, requests, x)
    {
      ghost var before := l.mods;
      RequestsAreWritten(deps, requests, k);
      ghost var added := l.AddModule(dir, deps, requests[k], requests);
      forall x | x in l.mods ensures Requested(deps, requests, x) {
        if x !in before {
          assert x in added;
          assert Reach(deps, ModuleName(requests[k]), x);
        }
      }
    }
    AllRequested(deps, requests, l.mods);
    var p, prev := l.paths, [];
    while p != []
      invariant Reversed(l.paths) == Reversed(p) + prev
    {
      prev, p := [p[0]] + prev, p[1..];
    }
    result := prev;
    assert result == Reversed(l.paths);
    ReversedOrder(deps, l.mods);
    ReversedPaths(l.mods, l.paths);
    SameElements(l.mods);
    ReversedWritten(dir, deps, requests, l.paths);
  }

  lemma RequestsAreWritten(deps: seq<Dep>, requests: seq<string>, k: nat)
    requires k < |requests|
    ensures Written(deps, requests, requests[k])
  {
  }

  lemma ReversedWritten(dir: string, deps: seq<Dep>, requests: seq<string>, paths: seq<string>)
    requires AllWritten(dir, deps, requests, paths)
    ensures AllWritten(dir, deps, requests, Reversed(paths))
  {
    hide PathWritten, Reversed;
  }

  // Such a list exists under no other condition: positions grow along every path, so a list
  // in that order holds no module that reaches a cycle.
  lemma OrderedOnlyIfAcyclic(deps: seq<Dep>, mods: seq<string>, a: string)
    requires Distinct(mods) && DepsBehind(deps, mods) && a in mods
    ensures AcyclicFrom(deps, a)
  {
    hide Edge, Distinct, DepsBehind;
    forall m, n | Reach(deps, a, m) && Edge(deps, m, n) && Reach(deps, n, m) ensures false {
      var p :| PathBetween(deps, p, a, m);
      var q :| PathBetween(deps, q, n, m);
      var i :| 0 <= i < |mods| && mods[i] == a;
      var j := PathGoesBack(deps, mods, p, i);
      var k := EdgeGoesBack(deps, mods, j, n);
      var l := PathGoesBack(deps, mods, q, k);
      OnePlace(mods, j, l);
    }
  }

  lemma OnePlace(mods: seq<string>, i: nat, j: nat)
    requires Distinct(mods) && i < |mods| && j < |mods| && mods[i] == mods[j]
    ensures i == j
  {
  }

  lemma EdgeGoesBack(deps: seq<Dep>, mods: seq<string>, i: nat, n: string) returns (j: nat)
    requires DepsBehind(deps, mods) && i < |mods| && Edge(deps, mods[i], n)
    ensures i < j < |mods| && mods[j] == n
  {
    hide Edge;
    var d :| 0 <= d < |mods[i + 1..]| && mods[i + 1..][d] == n;
    j := i + 1 + d;
  }

  lemma {:induction false} PathGoesBack(deps: seq<Dep>, mods: seq<string>, p: seq<string>, i: nat) returns (j: nat)
    requires DepsBehind(deps, mods) && IsPath(deps, p) && i < |mods| && mods[i] == p[0]
    ensures i <= j < |mods| && mods[j] == p[|p| - 1]
    decreases |p|
  {
    hide Edge, DepsBehind;
    j := i;
    if |p| > 1 {
      assert Edge(deps, p[0], p[1]);
      j := EdgeGoesBack(deps, mods, i, p[1]);
      PathTail(deps, p);
      j := PathGoesBack(deps, mods, p[1..], j);
    }
  }

  lemma EmptyLists(deps: seq<Dep>)
    ensures Distinct([]) && DepsBehind(deps, []) && PathsFor([], [])
    ensures forall dir, requests :: AllWritten(dir, deps, requests, [])
  {
  }

  lemma AllRequested(deps: seq<Dep>, requests: seq<string>, mods: seq<string>)
    requires DepsBehind(deps, mods) && forall i :: 0 <= i < |requests| ==> ModuleName(requests[i]) in mods
    ensures forall x :: Requested(deps, requests, x) ==> x in mods
  {
    hide DepsBehind, IsPath, ModuleName;
    forall x | Requested(deps, requests, x) ensures x in mods {
      var k :| 0 <= k < |requests| && Reach(deps, ModuleName(requests[k]), x);
      var p :| PathBetween(deps, p, ModuleName(requests[k]), x);
      ClosedUnderPaths(deps, mods, p);
    }
  }

  lemma ReversedPaths(mods: seq<string>, paths: seq<string>)
    requires PathsFor(mods, paths)
    ensures NamesOf(Reversed(paths)) == Reversed(mods)
  {
    hide ModuleName, NamesOf, Reversed;
    forall i | 0 <= i < |mods| ensures NamesOf(Reversed(paths))[i] == Reversed(mods)[i] {
      assert Reversed(paths)[i] == paths[|mods| - 1 - i];
    }
  }

  lemma SameElements(s: seq<string>)
    ensures forall x :: x in Reversed(s) <==> x in s
  {
    forall x ensures x in Reversed(s) <==> x in s {
      if x in s {
        var i :| 0 <= i < |s| && s[i] == x;
        assert Reversed(s)[|s| - 1 - i] == x;
      }
    }
  }
}
