/** The memdisk archive of grub/util/grub-mkstandalone.c: names are normalised, long names go
    into a GNU 'L' record, every record is padded to 512 bytes, and a reader gets the files
    back. */
module TarArchive {
  import opened Align
  import opened Bytes
  import opened Options
  import opened TarHeader

  const SLASH: byte := 47

  /* ---- names ---- */

  function Trimmed(s: seq<byte>): seq<byte> {
    if s != [] && s[0] == SLASH then Trimmed(s[1..]) else s
  }

  // A slash before another one goes.
  function Squeezed(s: seq<byte>): seq<byte> {
    if s == [] then []
    else if s[0] == SLASH && |s| > 1 && s[1] == SLASH then Squeezed(s[1..])
    else [s[0]] + Squeezed(s[1..])
  }

  function Normal(to: seq<byte>): seq<byte> { Squeezed(Trimmed(to)) }

  method NormalName(to: seq<byte>) returns (name: seq<byte>)
    ensures name == Normal(to)
  {
    var i := 0;
    while i < |to| && to[i] == SLASH
      invariant i <= |to| && Trimmed(to) == Trimmed(to[i..])
    {
      assert to[i..][1..] == to[i + 1..];
      i := i + 1;
    }
    ghost var body := to[i..];
    assert Trimmed(to) == body;
    hide Trimmed, Squeezed;
    name := [];
    while i < |to|
      invariant i <= |to| && Squeezed(body) == name + Squeezed(to[i..])
    {
      SqueezedStep(to, i);
      if !(to[i] == SLASH && i + 1 < |to| && to[i + 1] == SLASH) {
        name := name + [to[i]];
      }
      i := i + 1;
    }
    SqueezedEnd(to);
  }

  lemma SqueezedStep(to: seq<byte>, i: nat)
    requires i < |to|
    ensures Squeezed(to[i..]) == (if to[i] == SLASH && i + 1 < |to| && to[i + 1] == SLASH then Squeezed(to[i + 1..])
                                  else [to[i]] + Squeezed(to[i + 1..]))
  {
    var rest := to[i..];
    assert rest[1..] == to[i + 1..] && rest[0] == to[i] && (|rest| > 1 ==> rest[1] == to[i + 1]);
  }

  lemma SqueezedEnd(to: seq<byte>)
    ensures Squeezed(to[|to|..]) == []
  {
    assert to[|to|..] == [];
  }

  // The path components that are not empty.
  function Parts(s: seq<byte>, part: seq<byte>): seq<seq<byte>> {
    if s == [] then Whole(part)
    else if s[0] == SLASH then Whole(part) + Parts(s[1..], [])
    else Parts(s[1..], part + [s[0]])
  }

  function Whole(part: seq<byte>): seq<seq<byte>> { if part == [] then [] else [part] }

  ghost predicate Tidy(s: seq<byte>) {
    (s != [] ==> s[0] != SLASH) && forall i :: 0 <= i < |s| - 1 ==> !(s[i] == SLASH && s[i + 1] == SLASH)
  }

  lemma {:induction false} TrimmedFacts(s: seq<byte>)
    ensures Trimmed(s) != [] ==> Trimmed(s)[0] != SLASH
    ensures Parts(Trimmed(s), []) == Parts(s, [])
  {
    if s != [] && s[0] == SLASH {
      TrimmedFacts(s[1..]);
      assert Parts(s, []) == [] + Parts(s[1..], []);
    }
  }

  lemma {:induction false} SqueezedFacts(s: seq<byte>, part: seq<byte>)
    ensures s != [] ==> Squeezed(s) != [] && Squeezed(s)[0] == s[0]
    ensures s == [] ==> Squeezed(s) == []
    ensures forall i :: 0 <= i < |Squeezed(s)| - 1 ==> !(Squeezed(s)[i] == SLASH && Squeezed(s)[i + 1] == SLASH)
    ensures Parts(Squeezed(s), part) == Parts(s, part)
    decreases |s|
  {
    if s != [] {
      var rest := s[1..];
      if s[0] == SLASH && |s| > 1 && s[1] == SLASH {
        SqueezedFacts(rest, part);
        assert Parts(rest, []) == Whole([]) + Parts(rest[1..], []);
        assert Parts(rest, part) == Whole(part) + Parts(rest[1..], []);
      } else {
        SqueezedFacts(rest, if s[0] == SLASH then [] else part + [s[0]]);
        var sq := Squeezed(s);
        assert sq[1..] == Squeezed(rest);
        forall i | 0 <= i < |sq| - 1 ensures !(sq[i] == SLASH && sq[i + 1] == SLASH) {
          if i > 0 { assert sq[i] == Squeezed(rest)[i - 1] && sq[i + 1] == Squeezed(rest)[i]; }
        }
      }
    }
  }

  // Normalising keeps the path's components and leaves no leading or doubled slash.
  lemma NormalIsTidy(to: seq<byte>)
    ensures Tidy(Normal(to)) && Parts(Normal(to), []) == Parts(to, [])
  {
    TrimmedFacts(to);
    SqueezedFacts(Trimmed(to), []);
  }

  lemma {:induction false} SqueezedTidy(s: seq<byte>)
    requires forall i :: 0 <= i < |s| - 1 ==> !(s[i] == SLASH && s[i + 1] == SLASH)
    ensures Squeezed(s) == s
  {
    if s != [] { SqueezedTidy(s[1..]); }
  }

  // A tidy name is left alone, so normalising twice is normalising once.
  lemma NormalOfTidy(s: seq<byte>)
    requires Tidy(s)
    ensures Normal(s) == s
  {
    SqueezedTidy(s);
  }

  ghost predicate NoNul(s: seq<byte>) { forall i :: 0 <= i < |s| ==> s[i] != 0 }

  /* ---- records ---- */

  datatype File = File(name: seq<byte>, data: seq<byte>)

  ghost predicate Storable(f: File) {
    NoNul(f.name) && |f.name| < 0x1_0000_0000 && |f.data| < 0x1_0000_0000
  }

  ghost predicate AllStorable(files: seq<File>) {
    forall i :: 0 <= i < |files| ==> Storable(files[i])
  }

  // (~size + 1) & 511
  function Pad(size: nat): (n: nat)
    ensures n < BLOCK && (size + n) % BLOCK == 0
  {
    PadFills(size);
    (BLOCK - size % BLOCK) % BLOCK
  }

  lemma PadFills(size: nat)
    ensures (size + (BLOCK - size % BLOCK) % BLOCK) % BLOCK == 0
  {
    var q, r := size / BLOCK, size % BLOCK;
    if r != 0 {
      assert (BLOCK - r) % BLOCK == BLOCK - r;
      MultipleHasNoRemainder(q + 1, BLOCK);
      assert size + (BLOCK - r) == (q + 1) * BLOCK;
    }
  }

  function Prefix99(name: seq<byte>): seq<byte> { if |name| < 99 then name else name[..99] }

  function Body(data: seq<byte>): seq<byte> { data + Zeros(Pad(|data|)) }

  function LongRecord(name: seq<byte>): seq<byte>
    requires |name| > 99
  {
    Header(name[..99], |name|, LONG_NAME) + Body(name)
  }

  function FileRecord(f: File): seq<byte> {
    Header(Prefix99(f.name), |f.data|, REGULAR) + Body(f.data)
  }

  function Record(f: File): seq<byte> {
    (if |f.name| > 99 then LongRecord(f.name) else []) + FileRecord(f)
  }

  function Archive(files: seq<File>): seq<byte> {
    if files == [] then [] else Archive(files[..|files| - 1]) + Record(files[|files| - 1])
  }

  // Every record takes whole blocks, so every header starts on a block boundary.
  lemma RecordIsBlocks(f: File)
    ensures |Record(f)| % BLOCK == 0
    ensures |f.name| > 99 ==> |LongRecord(f.name)| % BLOCK == 0
  {
    hide Header;
    SumOfMultiples(BLOCK, |Body(f.data)|, BLOCK);
    SumOfMultiples(BLOCK, |Body(f.name)|, BLOCK);
    if |f.name| > 99 {
      SumOfMultiples(|LongRecord(f.name)|, |FileRecord(f)|, BLOCK);
    }
  }

  lemma {:induction false} ArchiveIsBlocks(files: seq<File>)
    ensures |Archive(files)| % BLOCK == 0
  {
    hide Record;
    if files != [] {
      var n := |files| - 1;
      ArchiveIsBlocks(files[..n]);
      RecordIsBlocks(files[n]);
      SumOfMultiples(|Archive(files[..n])|, |Record(files[n])|, BLOCK);
    }
  }

  /* ---- the reader ---- */

  predicate AllZero(s: seq<byte>) { forall i :: 0 <= i < |s| ==> s[i] == 0 }

  // The first header with its body and what follows them; a block of zeros is the end.
  datatype Piece = Broken | Finished | Piece(entry: Entry, body: seq<byte>, rest: seq<byte>)

  function NextPiece(data: seq<byte>): (r: Piece)
    ensures r.Piece? ==> |r.rest| < |data|
  {
    if |data| < BLOCK then Broken
    else if AllZero(data[..BLOCK]) then Finished
    else
      match ParseHeader(data[..BLOCK])
      case None => Broken
      case Some(e) =>
        var next := BLOCK + e.size + Pad(e.size);
        if next > |data| then Broken else Piece(e, data[BLOCK..BLOCK + e.size], data[next..])
  }

  // Files up to the end-of-archive block; `long` is the name from an 'L' record just read.
  // None: the archive is damaged.
  function Read(data: seq<byte>, long: Option<seq<byte>>): Option<seq<File>>
    decreases |data|
  {
    match NextPiece(data)
    case Broken => None
    case Finished => Some([])
    case Piece(e, body, rest) =>
      if e.flag == LONG_NAME then Read(rest, Some(UntilNul(body)))
      else if e.flag == REGULAR then
        match Read(rest, None)
        case None => None
        case Some(files) => Some([File(if long.Some? then long.value else e.name, body)] + files)
      else None
  }

  lemma {:induction false} UntilNulAll(s: seq<byte>)
    requires NoNul(s)
    ensures UntilNul(s) == s
  {
    if s != [] { UntilNulAll(s[1..]); }
  }

  // One header and its padded body, at the front of the data.
  lemma ReadStep(name: seq<byte>, flag: byte, body: seq<byte>, rest: seq<byte>) returns (data: seq<byte>)
    requires |name| <= 99 && NoNul(name) && |body| < 0x1_0000_0000
    ensures data == Header(name, |body|, flag) + Body(body) + rest
    ensures NextPiece(data) == Piece(Entry(name, |body|, flag), body, rest)
  {
    hide Header, ParseHeader, Pad;
    HeaderRoundTrip(name, |body|, flag);
    var hd := Header(name, |body|, flag);
    data := hd + Body(body) + rest;
    Sliced(hd, body, Zeros(Pad(|body|)), rest);
    hide Body;
    assert hd[MAGIC] != 0;
  }

  lemma Sliced(hd: seq<byte>, body: seq<byte>, pad: seq<byte>, rest: seq<byte>)
    ensures var data, n := hd + (body + pad) + rest, |hd|;
            && data[..n] == hd && data[n..n + |body|] == body && data[n + |body| + |pad|..] == rest
  {
  }

  lemma ReadLong(name: seq<byte>, rest: seq<byte>)
    requires |name| > 99 && NoNul(name) && |name| < 0x1_0000_0000
    ensures Read(LongRecord(name) + rest, None) == Read(rest, Some(name))
  {
    var data := ReadStep(name[..99], LONG_NAME, name, rest);
    UntilNulAll(name);
    hide Header, NextPiece, UntilNul;
    assert LongRecord(name) + rest == data;
  }

  lemma ReadRegular(data: seq<byte>, e: Entry, body: seq<byte>, long: Option<seq<byte>>, rest: seq<byte>)
    requires NextPiece(data) == Piece(e, body, rest) && e.flag == REGULAR && Read(rest, None).Some?
    ensures Read(data, long) == Some([File(if long.Some? then long.value else e.name, body)] + Read(rest, None).value)
  {
    hide NextPiece, UntilNul;
  }

  lemma ReadFile(f: File, rest: seq<byte>, long: Option<seq<byte>>)
    requires Storable(f) && Read(rest, None).Some?
    requires long == if |f.name| > 99 then Some(f.name) else None
    ensures Read(FileRecord(f) + rest, long) == Some([f] + Read(rest, None).value)
  {
    hide Header, NextPiece, Read;
    var data := ReadStep(Prefix99(f.name), REGULAR, f.data, rest);
    assert FileRecord(f) + rest == data;
    assert |f.name| <= 99 ==> Prefix99(f.name) == f.name;
    ReadRegular(data, Entry(Prefix99(f.name), |f.data|, REGULAR), f.data, long, rest);
  }

  lemma ReadRecord(f: File, rest: seq<byte>)
    requires Storable(f) && Read(rest, None).Some?
    ensures Read(Record(f) + rest, None) == Some([f] + Read(rest, None).value)
  {
    hide Read, FileRecord, LongRecord;
    if |f.name| > 99 {
      ReadLong(f.name, FileRecord(f) + rest);
      ReadFile(f, rest, Some(f.name));
      assert Record(f) + rest == LongRecord(f.name) + (FileRecord(f) + rest);
    } else {
      ReadFile(f, rest, None);
      assert Record(f) == FileRecord(f);
    }
  }

  lemma {:induction false} ReadArchive(files: seq<File>, rest: seq<byte>, tail: seq<File>)
    requires AllStorable(files) && Read(rest, None) == Some(tail)
    ensures Read(Archive(files) + rest, None) == Some(files + tail)
    decreases |files|
  {
    hide Read, Record, Storable;
    if files == [] {
      assert Archive(files) + rest == rest && files + tail == tail;
    } else {
      var n := |files| - 1;
      var f := files[n];
      ReadRecord(f, rest);
      ReadArchive(files[..n], Record(f) + rest, [f] + tail);
      assert Archive(files) + rest == Archive(files[..n]) + (Record(f) + rest);
      assert files + tail == files[..n] + ([f] + tail);
    }
  }

  lemma ReadEnd()
    ensures Read(Zeros(BLOCK), None) == Some([])
  {
    assert Zeros(BLOCK)[..BLOCK] == Zeros(BLOCK);
  }

  // Every list of files comes back, in order, names over 99 bytes included.
  lemma ArchiveRoundTrip(files: seq<File>)
    requires AllStorable(files)
    ensures Read(Archive(files) + Zeros(BLOCK), None) == Some(files)
  {
    hide Read, Archive, AllStorable;
    ReadEnd();
    ReadArchive(files, Zeros(BLOCK), []);
    assert files + [] == files;
  }

  /* ---- the tree that is packed ---- */

  // Directory entries come sorted by name.
  datatype Node = Regular(data: seq<byte>) | Special | Directory(entries: seq<Named>)
  datatype Named = Named(name: seq<byte>, node: Node)

  function FilesIn(node: Node, to: seq<byte>): seq<File> {
    match node
    case Special => []
    case Regular(data) => [File(Normal(to), data)]
    case Directory(entries) => FilesOf(entries, |entries|, to)
  }

  function FilesOf(entries: seq<Named>, n: nat, to: seq<byte>): seq<File>
    requires n <= |entries|
    decreases entries, n
  {
    if n == 0 then []
    else FilesOf(entries, n - 1, to) + FilesIn(entries[n - 1].node, to + [SLASH] + entries[n - 1].name)
  }

  ghost predicate AllTidy(files: seq<File>) {
    forall i :: 0 <= i < |files| ==> Tidy(files[i].name)
  }

  // However the tree is nested and wherever it is grafted, the archived names are tidy.
  lemma {:induction false} FilesAreTidy(node: Node, to: seq<byte>)
    ensures AllTidy(FilesIn(node, to))
    decreases node
  {
    hide Normal, Tidy;
    match node
    case Special =>
    case Regular(data) => NormalIsTidy(to);
    case Directory(entries) => EntriesAreTidy(node, |entries|, to);
  }

  lemma {:induction false} EntriesAreTidy(node: Node, n: nat, to: seq<byte>)
    requires node.Directory? && n <= |node.entries|
    ensures AllTidy(FilesOf(node.entries, n, to))
    decreases node, 0, n
  {
    hide Tidy;
    if n > 0 {
      EntriesAreTidy(node, n - 1, to);
      var child := node.entries[n - 1];
      FilesAreTidy(child.node, to + [SLASH] + child.name);
    }
  }

  /* ---- routes through the tree ---- */

  // A route is a list of entry numbers, from a list of entries downwards.
  ghost function NodeOn(es: seq<Named>, route: seq<nat>): Option<Node>
    decreases |route|
  {
    if route == [] || route[0] >= |es| then None
    else if |route| == 1 then Some(es[route[0]].node)
    else match es[route[0]].node
      case Directory(sub) => NodeOn(sub, route[1..])
      case _ => None
  }

  // The entry names on a route, joined by slashes, and their components.
  ghost function PathOn(es: seq<Named>, route: seq<nat>): seq<byte>
    requires NodeOn(es, route).Some?
    decreases |route|
  {
    es[route[0]].name + if |route| == 1 then [] else [SLASH] + PathOn(es[route[0]].node.entries, route[1..])
  }

  ghost function PartsOn(es: seq<Named>, route: seq<nat>): seq<seq<byte>>
    requires NodeOn(es, route).Some?
    decreases |route|
  {
    Parts(es[route[0]].name, []) + if |route| == 1 then [] else PartsOn(es[route[0]].node.entries, route[1..])
  }

  // Depth first, entries in order.
  ghost predicate Precedes(a: seq<nat>, b: seq<nat>)
    decreases |a|
  {
    b != [] && (a == [] || a[0] < b[0] || (a[0] == b[0] && Precedes(a[1..], b[1..])))
  }

  // The route ends at a regular file with f's data, and f has the name spelt out on the route.
  ghost predicate Leads(es: seq<Named>, prefix: seq<byte>, route: seq<nat>, f: File) {
    NodeOn(es, route) == Some(Regular(f.data)) && f.name == Normal(prefix + PathOn(es, route))
  }

  ghost predicate IsRoute(es: seq<Named>, n: nat, route: seq<nat>) {
    NodeOn(es, route).Some? && NodeOn(es, route).value.Regular? && route[0] < n
  }

  ghost predicate FirstIs(r: seq<nat>, n: nat) { r != [] && r[0] == n }

  // The files are those that the routes through the first n entries lead to: each route to a
  // regular file is there exactly once, in depth-first order.
  ghost predicate Lists(es: seq<Named>, n: nat, prefix: seq<byte>, routes: seq<seq<nat>>, files: seq<File>) {
    && |routes| == |files|
    && (forall i :: 0 <= i < |routes| ==> IsRoute(es, n, routes[i]) && Leads(es, prefix, routes[i], files[i]))
    && (forall i, j :: 0 <= i < j < |routes| ==> Precedes(routes[i], routes[j]))
    && (forall r :: IsRoute(es, n, r) ==> r in routes)
  }

  // The part of a list that comes from the entry numbered n.
  ghost predicate ListsEntry(es: seq<Named>, n: nat, prefix: seq<byte>, routes: seq<seq<nat>>, files: seq<File>) {
    && |routes| == |files|
    && (forall i :: 0 <= i < |routes| ==> IsRoute(es, n + 1, routes[i]) && FirstIs(routes[i], n) && Leads(es, prefix, routes[i], files[i]))
    && (forall i, j :: 0 <= i < j < |routes| ==> Precedes(routes[i], routes[j]))
    && (forall r :: IsRoute(es, n + 1, r) && FirstIs(r, n) ==> r in routes)
  }

  function Under(n: nat, routes: seq<seq<nat>>): (r: seq<seq<nat>>)
    ensures |r| == |routes| && forall i :: 0 <= i < |r| ==> r[i] == [n] + routes[i]
  {
    if routes == [] then [] else [[n] + routes[0]] + Under(n, routes[1..])
  }

  // The routes through one more entry come behind the others.
  lemma ListsMore(es: seq<Named>, n: nat, prefix: seq<byte>, rs: seq<seq<nat>>, fs: seq<File>, more: seq<seq<nat>>, gs: seq<File>)
    requires Lists(es, n, prefix, rs, fs) && ListsEntry(es, n, prefix, more, gs)
    ensures Lists(es, n + 1, prefix, rs + more, fs + gs)
  {
    hide Leads, NodeOn, IsRoute, Precedes;
    var all, files := rs + more, fs + gs;
    forall i | 0 <= i < |all| ensures IsRoute(es, n + 1, all[i]) && Leads(es, prefix, all[i], files[i]) {
      if i < |rs| { RouteWidens(es, n, rs[i]); }
    }
    forall i, j | 0 <= i < j < |all| ensures Precedes(all[i], all[j]) {
      if i < |rs| <= j { RoutesApart(es, n, all[i], all[j]); }
    }
    forall r | IsRoute(es, n + 1, r) ensures r in all {
      RouteSplits(es, n, r);
    }
  }

  lemma RouteWidens(es: seq<Named>, n: nat, r: seq<nat>)
    requires IsRoute(es, n, r)
    ensures IsRoute(es, n + 1, r)
  {
  }

  lemma RouteSplits(es: seq<Named>, n: nat, r: seq<nat>)
    requires IsRoute(es, n + 1, r)
    ensures FirstIs(r, n) || IsRoute(es, n, r)
  {
  }

  lemma RoutesApart(es: seq<Named>, n: nat, r: seq<nat>, q: seq<nat>)
    requires IsRoute(es, n, r) && FirstIs(q, n)
    ensures Precedes(r, q)
  {
  }

  lemma ListsNone(es: seq<Named>, prefix: seq<byte>)
    ensures Lists(es, 0, prefix, [], [])
  {
  }

  // What entry n of a list contributes.
  lemma {:induction false} NodeRoutes(es: seq<Named>, n: nat, prefix: seq<byte>) returns (routes: seq<seq<nat>>)
    requires n < |es|
    ensures ListsEntry(es, n, prefix, routes, FilesIn(es[n].node, prefix + es[n].name))
    decreases es[n].node, 1
  {
    match es[n].node
    case Special =>
      routes := [];
      NoRoute(es, n);
    case Regular(data) =>
      routes := [[n]];
      OneRoute(es, n);
    case Directory(sub) =>
      var to := prefix + es[n].name;
      var inner := EntryRoutes(sub, |sub|, to);
      routes := Under(n, inner);
      ListsUnder(es, n, prefix, inner, FilesOf(sub, |sub|, to));
  }

  lemma NoRoute(es: seq<Named>, n: nat)
    requires n < |es| && es[n].node.Special?
    ensures forall r :: IsRoute(es, n + 1, r) ==> !FirstIs(r, n)
  {
  }

  lemma OneRoute(es: seq<Named>, n: nat)
    requires n < |es| && es[n].node.Regular?
    ensures IsRoute(es, n + 1, [n]) && forall r :: IsRoute(es, n + 1, r) && FirstIs(r, n) ==> r == [n]
    ensures PathOn(es, [n]) == es[n].name
  {
    assert es[n].name + [] == es[n].name;
  }

  lemma {:induction false} EntryRoutes(es: seq<Named>, n: nat, to: seq<byte>) returns (routes: seq<seq<nat>>)
    requires n <= |es|
    ensures Lists(es, n, to + [SLASH], routes, FilesOf(es, n, to))
    decreases es, 0, n
  {
    routes := [];
    if n == 0 {
      ListsNone(es, to + [SLASH]);
    } else {
      var before := EntryRoutes(es, n - 1, to);
      var more := NodeRoutes(es, n - 1, to + [SLASH]);
      hide Lists, ListsEntry;
      ListsMore(es, n - 1, to + [SLASH], before, FilesOf(es, n - 1, to), more, FilesIn(es[n - 1].node, to + [SLASH] + es[n - 1].name));
      routes := before + more;
    }
  }

  // A directory's routes, seen from the list that the directory is in.
  lemma ListsUnder(es: seq<Named>, n: nat, prefix: seq<byte>, routes: seq<seq<nat>>, files: seq<File>)
    requires n < |es| && es[n].node.Directory?
    requires Lists(es[n].node.entries, |es[n].node.entries|, prefix + es[n].name + [SLASH], routes, files)
    ensures ListsEntry(es, n, prefix, Under(n, routes), files)
  {
    hide NodeOn, Leads, IsRoute, Precedes, FirstIs, Under;
    var all := Under(n, routes);
    forall i | 0 <= i < |all|
      ensures IsRoute(es, n + 1, all[i]) && FirstIs(all[i], n) && Leads(es, prefix, all[i], files[i])
    {
      RouteUnder(es, n, prefix, routes[i], files[i]);
    }
    forall i, j | 0 <= i < j < |all| ensures Precedes(all[i], all[j]) {
      PrecedesUnder(n, routes[i], routes[j]);
    }
    forall r | IsRoute(es, n + 1, r) && FirstIs(r, n) ensures r in all {
      RouteInside(es, n, r);
      UnderHolds(n, routes, r);
    }
  }

  lemma UnderHolds(n: nat, routes: seq<seq<nat>>, r: seq<nat>)
    requires FirstIs(r, n) && r[1..] in routes
    ensures r in Under(n, routes)
  {
    hide Under;
    var i :| 0 <= i < |routes| && routes[i] == r[1..];
    assert Under(n, routes)[i] == [n] + r[1..] == r;
  }

  lemma PrecedesUnder(n: nat, a: seq<nat>, b: seq<nat>)
    requires Precedes(a, b)
    ensures Precedes([n] + a, [n] + b)
  {
    assert ([n] + a)[1..] == a && ([n] + b)[1..] == b;
  }

  lemma RouteUnder(es: seq<Named>, n: nat, prefix: seq<byte>, route: seq<nat>, f: File)
    requires n < |es| && es[n].node.Directory? && IsRoute(es[n].node.entries, |es[n].node.entries|, route)
    requires Leads(es[n].node.entries, prefix + es[n].name + [SLASH], route, f)
    ensures IsRoute(es, n + 1, [n] + route) && FirstIs([n] + route, n) && Leads(es, prefix, [n] + route, f)
  {
    hide Normal;
    var sub, r := es[n].node.entries, [n] + route;
    assert r[1..] == route && |r| > 1;
    assert NodeOn(es, r) == NodeOn(sub, route);
    assert prefix + PathOn(es, r) == prefix + es[n].name + [SLASH] + PathOn(sub, route);
  }

  lemma RouteInside(es: seq<Named>, n: nat, r: seq<nat>)
    requires n < |es| && es[n].node.Directory? && IsRoute(es, n + 1, r) && FirstIs(r, n)
    ensures |r| > 1 && IsRoute(es[n].node.entries, |es[n].node.entries|, r[1..])
  {
    assert |r| > 1;
    assert NodeOn(es, r) == NodeOn(es[n].node.entries, r[1..]);
  }

  // The components of a route's path are those of its names.
  lemma {:induction false} PathParts(es: seq<Named>, route: seq<nat>)
    requires NodeOn(es, route).Some?
    ensures Parts(PathOn(es, route), []) == PartsOn(es, route)
    decreases |route|
  {
    var name := es[route[0]].name;
    if |route| == 1 {
      assert name + [] == name;
    } else {
      var rest := PathOn(es[route[0]].node.entries, route[1..]);
      PathParts(es[route[0]].node.entries, route[1..]);
      PartsJoin(name, rest, []);
      assert name + ([SLASH] + rest) == name + [SLASH] + rest;
    }
  }

  lemma {:induction false} PartsJoin(a: seq<byte>, b: seq<byte>, part: seq<byte>)
    ensures Parts(a + [SLASH] + b, part) == Parts(a, part) + Parts(b, [])
    decreases |a|
  {
    if a == [] {
      assert (a + [SLASH] + b)[1..] == b;
    } else {
      assert (a + [SLASH] + b)[1..] == a[1..] + [SLASH] + b;
      PartsJoin(a[1..], b, if a[0] == SLASH then [] else part + [a[0]]);
    }
  }

  lemma {:induction false} ArchiveConcat(a: seq<File>, b: seq<File>)
    ensures Archive(a + b) == Archive(a) + Archive(b)
    decreases |b|
  {
    hide Record;
    if b == [] {
      assert a + b == a;
    } else {
      var n := |b| - 1;
      assert (a + b)[..|a| + n] == a + b[..n];
      ArchiveConcat(a, b[..n]);
    }
  }

  /* ---- the writer ---- */

  const COPY_BUFFER: nat := 1048576

  class Writer {
    var memdisk: seq<byte>

    method WriteZeros(n: nat)
      modifies this
      ensures memdisk == old(memdisk) + Zeros(n)
    {
      memdisk := memdisk + Zeros(n);
    }

    method WritePad(size: nat)
      modifies this
      ensures memdisk == old(memdisk) + Zeros(Pad(size))
    {
      WriteZeros(Pad(size));
    }

    method WriteLongName(name: seq<byte>)
      requires |name| > 99
      modifies this
      ensures memdisk == old(memdisk) + LongRecord(name)
    {
      hide Header, Pad;
      var hd := MakeHeader(name[..99], |name|, LONG_NAME);
      memdisk := memdisk + hd[..];
      memdisk := memdisk + name;
      WritePad(|name|);
    }

    // The copy loop, one buffer at a time.
    method CopyData(data: seq<byte>)
      modifies this
      ensures memdisk == old(memdisk) + data
    {
      var at := 0;
      while at < |data|
        invariant at <= |data| && memdisk == old(memdisk) + data[..at]
      {
        var r := if |data| - at < COPY_BUFFER then |data| - at else COPY_BUFFER;
        assert data[..at + r] == data[..at] + data[at..at + r];
        memdisk := memdisk + data[at..at + r];
        at := at + r;
      }
      assert data[..at] == data;
    }

    method AddRegular(name: seq<byte>, data: seq<byte>)
      modifies this
      ensures memdisk == old(memdisk) + Record(File(name, data))
    {
      hide Header, Pad;
      if |name| > 99 {
        WriteLongName(name);
      }
      hide LongRecord;
      ghost var before := memdisk;
      var hd := MakeHeader(if |name| < 99 then name else name[..99], |data|, REGULAR);
      memdisk := memdisk + hd[..];
      CopyData(data);
      WritePad(|data|);
      assert memdisk == before + FileRecord(File(name, data));
    }

    method AddTarFile(node: Node, to: seq<byte>)
      modifies this
      ensures memdisk == old(memdisk) + Archive(FilesIn(node, to))
      decreases node, 1
    {
      hide Normal, Record, FilesOf, Archive;
      NoFiles();
      match node {
        case Special =>
        case Regular(data) =>
          var tcn := NormalName(to);
          AddRegular(tcn, data);
          OneFile(File(tcn, data));
        case Directory(entries) =>
          AddDirectory(node, to);
      }
    }

    method AddDirectory(node: Node, to: seq<byte>)
      requires node.Directory?
      modifies this
      ensures memdisk == old(memdisk) + Archive(FilesOf(node.entries, |node.entries|, to))
      decreases node, 0
    {
      hide FilesIn, Archive;
      NoFiles();
      var i := 0;
      while i < |node.entries|
        invariant i <= |node.entries| && memdisk == old(memdisk) + Archive(FilesOf(node.entries, i, to))
      {
        var child := node.entries[i];
        AddTarFile(child.node, to + [SLASH] + child.name);
        ArchiveConcat(FilesOf(node.entries, i, to), FilesIn(child.node, to + [SLASH] + child.name));
        i := i + 1;
      }
    }
  }

  lemma NoFiles()
    ensures Archive([]) == []
  {
  }

  lemma OneFile(f: File)
    ensures Archive([f]) == Record(f)
  {
    hide Record;
    assert [f][..0] == [];
    assert Archive([f][..0]) == [];
  }

  /* ---- the memdisk ---- */

  // Names and sizes on all routes are within what a header can say.
  ghost predicate Packable(roots: seq<Named>) {
    forall r :: IsRoute(roots, |roots|, r) ==>
      NoNul(PathOn(roots, r)) && |PathOn(roots, r)| < 0x1_0000_0000 && |NodeOn(roots, r).value.data| < 0x1_0000_0000
  }

  // f is the file at the end of the route: its data, and a tidy name with the components of
  // the names on the route, from the root's own name down.
  ghost predicate FileOn(roots: seq<Named>, route: seq<nat>, f: File) {
    NodeOn(roots, route) == Some(Regular(f.data)) && Tidy(f.name) && Parts(f.name, []) == PartsOn(roots, route)
  }

  // The files are those of all routes to regular files, each once, depth first.
  ghost predicate FilesOnRoutes(roots: seq<Named>, routes: seq<seq<nat>>, files: seq<File>) {
    && |routes| == |files|
    && (forall i :: 0 <= i < |routes| ==> FileOn(roots, routes[i], files[i]))
    && (forall i, j :: 0 <= i < j < |routes| ==> Precedes(routes[i], routes[j]))
    && (forall r :: NodeOn(roots, r).Some? && NodeOn(roots, r).value.Regular? ==> r in routes)
  }

  // main: the trees in turn, then the end-of-archive block.  Reading the archive gives the
  // files that the routes through the trees lead to, each once and in order.
  method MakeMemdisk(roots: seq<Named>) returns (memdisk: seq<byte>)
    ensures memdisk == Archive(AllFiles(roots, |roots|)) + Zeros(BLOCK)
    ensures Packable(roots) ==> exists routes, files :: FilesOnRoutes(roots, routes, files) && Read(memdisk, None) == Some(files)
  {
    hide FilesIn, Read, AllStorable, FilesOnRoutes, Packable;
    var w := new Writer;
    w.memdisk := [];
    var i := 0;
    while i < |roots|
      invariant i <= |roots| && w.memdisk == Archive(AllFiles(roots, i))
    {
      w.AddTarFile(roots[i].node, roots[i].name);
      ArchiveConcat(AllFiles(roots, i), FilesIn(roots[i].node, roots[i].name));
      i := i + 1;
    }
    w.WriteZeros(BLOCK);
    memdisk := w.memdisk;
    if Packable(roots) {
      ghost var routes := MemdiskHoldsRoutes(roots);
    }
  }

  function AllFiles(roots: seq<Named>, n: nat): seq<File>
    requires n <= |roots|
  {
    if n == 0 then [] else AllFiles(roots, n - 1) + FilesIn(roots[n - 1].node, roots[n - 1].name)
  }

  // Main result: what is archived are the regular files of the trees, each under the names on
  // the route to it.
  lemma MemdiskHoldsRoutes(roots: seq<Named>) returns (routes: seq<seq<nat>>)
    requires Packable(roots)
    ensures FilesOnRoutes(roots, routes, AllFiles(roots, |roots|)) && AllStorable(AllFiles(roots, |roots|))
    ensures Read(Archive(AllFiles(roots, |roots|)) + Zeros(BLOCK), None) == Some(AllFiles(roots, |roots|))
  {
    hide Read, Archive, Packable, AllFiles;
    routes := RootRoutes(roots, |roots|);
    var files := AllFiles(roots, |roots|);
    forall i | 0 <= i < |files| ensures Storable(files[i]) && FileOn(roots, routes[i], files[i]) {
      RouteIsStorable(roots, routes[i], files[i]);
    }
    hide FileOn, Storable, IsRoute, Leads;
    forall r | NodeOn(roots, r).Some? && NodeOn(roots, r).value.Regular? ensures r in routes {
      EveryRoute(roots, r);
    }
    ArchiveRoundTrip(files);
  }

  lemma EveryRoute(roots: seq<Named>, r: seq<nat>)
    requires NodeOn(roots, r).Some? && NodeOn(roots, r).value.Regular?
    ensures IsRoute(roots, |roots|, r)
  {
  }

  lemma RouteIsStorable(roots: seq<Named>, r: seq<nat>, f: File)
    requires Packable(roots) && IsRoute(roots, |roots|, r) && Leads(roots, [], r, f)
    ensures Storable(f) && FileOn(roots, r, f)
  {
    hide NodeOn, PathOn, PartsOn, Parts, Tidy, Normal;
    var path := PathOn(roots, r);
    assert [] + path == path;
    NormalIsTidy(path);
    NormalIsShort(path);
    PathParts(roots, r);
  }

  lemma NormalIsShort(to: seq<byte>)
    ensures |Normal(to)| <= |to| && (NoNul(to) ==> NoNul(Normal(to)))
  {
    TrimmedIsShort(to);
    SqueezedIsShort(Trimmed(to));
  }

  lemma {:induction false} TrimmedIsShort(s: seq<byte>)
    ensures |Trimmed(s)| <= |s| && (NoNul(s) ==> NoNul(Trimmed(s)))
  {
    if s != [] && s[0] == SLASH { TrimmedIsShort(s[1..]); }
  }

  lemma {:induction false} SqueezedIsShort(s: seq<byte>)
    ensures |Squeezed(s)| <= |s| && (NoNul(s) ==> NoNul(Squeezed(s)))
  {
    if s != [] { SqueezedIsShort(s[1..]); }
  }

  lemma {:induction false} RootRoutes(roots: seq<Named>, n: nat) returns (routes: seq<seq<nat>>)
    requires n <= |roots|
    ensures Lists(roots, n, [], routes, AllFiles(roots, n))
    decreases n
  {
    routes := [];
    if n == 0 {
      ListsNone(roots, []);
    } else {
      var before := RootRoutes(roots, n - 1);
      var more := NodeRoutes(roots, n - 1, []);
      assert [] + roots[n - 1].name == roots[n - 1].name;
      hide Lists, ListsEntry;
      ListsMore(roots, n - 1, [], before, AllFiles(roots, n - 1), more, FilesIn(roots[n - 1].node, roots[n - 1].name));
      routes := before + more;
    }
  }
}
