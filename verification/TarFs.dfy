/** Reading the memdisk at boot: `grub_cpio_find_file` of grub/grub-core/fs/tar.c, the driver
    that the archive is written for. */
module TarFs {
  import opened Bytes
  import opened Options
  import opened TarHeader
  import opened TarArchive

  const LONG_LINK: byte := 75

  // What one search step gives: an entry and the disk behind it, the end of the archive, a
  // damaged archive, or, when the third header in a row is still a name or link record, a
  // name without a file.
  datatype Found = Hit(name: seq<byte>, flag: byte, body: seq<byte>, rest: seq<byte>) | End | Damaged | Stale

  // `data` is the disk from the next header on, `long` a name from an 'L' record, and `tries`
  // the headers read so far.
  function FindFile(data: seq<byte>, long: Option<seq<byte>>, tries: nat): (r: Found)
    requires tries <= 3
    ensures r.Hit? ==> |r.rest| < |data|
    decreases 3 - tries
  {
    if tries == 3 then if long.None? then Damaged else Stale
    else if |data| < BLOCK then Damaged
    else
      var hd := data[..BLOCK];
      if hd[NAME] == 0 && hd[PREFIX] == 0 then End
      else if !HasMagic(hd) then Damaged
      else
        var size := SizeIn(hd);
        var next := BLOCK + size + Pad(size);
        if BLOCK + size > |data| then Damaged
        else
          var body := data[BLOCK..BLOCK + size];
          var rest := if next <= |data| then data[next..] else [];
          if hd[TYPEFLAG] == LONG_NAME then FindFile(rest, Some(UntilNul(body)), tries + 1)
          else if hd[TYPEFLAG] == LONG_LINK then FindFile(rest, long, tries + 1)
          else Hit(if long.Some? then long.value else ShortName(hd), hd[TYPEFLAG], body, rest)
  }

  predicate HasMagic(hd: seq<byte>)
    requires |hd| == BLOCK
  {
    hd[MAGIC..MAGIC + 5] == MAGIC_TEXT[..5]
  }

  function SizeIn(hd: seq<byte>): nat
    requires |hd| == BLOCK
  {
    ParseOctal(hd[SIZE..SIZE + 12], 0)
  }

  function ShortName(hd: seq<byte>): seq<byte>
    requires |hd| == BLOCK
  {
    var prefix := UntilNul(hd[PREFIX..PREFIX + 155]);
    (if hd[PREFIX] == 0 then [] else prefix + [SLASH]) + UntilNul(hd[NAME..NAME + 100])
  }

  // The regular files, in order, until the driver sees the end.
  function Files(data: seq<byte>): Option<seq<File>>
    decreases |data|
  {
    match FindFile(data, None, 0)
    case End => Some([])
    case Damaged => None
    case Stale => None
    case Hit(name, flag, body, rest) =>
      match Files(rest)
      case None => None
      case Some(files) => Some((if flag == REGULAR then [File(name, body)] else []) + files)
  }

  // grub_cpio_mount looks at the first header's magic only.
  function Mounted(disk: seq<byte>): Option<seq<File>> {
    if |disk| < BLOCK || disk[MAGIC..MAGIC + 5] != MAGIC_TEXT[..5] then None else Files(disk)
  }

  /* ---- reading what was written ---- */

  // One record at the front of the data.
  lemma FindStep(name: seq<byte>, flag: byte, body: seq<byte>, rest: seq<byte>) returns (data: seq<byte>)
    requires |name| <= 99 && NoNul(name) && |body| < 0x1_0000_0000
    ensures data == Header(name, |body|, flag) + Body(body) + rest && |data| >= BLOCK
    ensures var hd := data[..BLOCK];
            && (hd[NAME] == 0 <==> name == []) && hd[PREFIX] == 0 && HasMagic(hd)
            && SizeIn(hd) == |body| && hd[TYPEFLAG] == flag && ShortName(hd) == name
    ensures var next := BLOCK + |body| + Pad(|body|);
            next <= |data| && data[BLOCK..BLOCK + |body|] == body && data[next..] == rest
  {
    hide Header, Pad, UntilNul, ParseOctal;
    HeaderFields(name, |body|, flag);
    var hd := Header(name, |body|, flag);
    data := hd + Body(body) + rest;
    Sliced(hd, body, Zeros(Pad(|body|)), rest);
    hide Body;
    assert [] + UntilNul(hd[NAME..NAME + 100]) == name;
  }

  // A name in its header: the driver takes an empty one for the end of the archive.
  lemma FindShort(f: File, rest: seq<byte>)
    requires Storable(f) && |f.name| <= 99
    ensures FindFile(Record(f) + rest, None, 0) == if f.name == [] then End else Hit(f.name, REGULAR, f.data, rest)
  {
    hide Header, Pad, UntilNul, ParseOctal, ShortName;
    var data := FindStep(Prefix99(f.name), REGULAR, f.data, rest);
    assert Prefix99(f.name) == f.name;
    assert Record(f) + rest == data;
  }

  // A name in a record of its own.
  lemma FindLong(f: File, rest: seq<byte>)
    requires Storable(f) && |f.name| > 99
    ensures FindFile(Record(f) + rest, None, 0) == Hit(f.name, REGULAR, f.data, rest)
  {
    hide Header, Pad, UntilNul, ParseOctal, ShortName, FindFile;
    var tail := FindStep(Prefix99(f.name), REGULAR, f.data, rest);
    var data := FindStep(f.name[..99], LONG_NAME, f.name, tail);
    UntilNulAll(f.name);
    FindAfterName(tail, f, rest);
    FindName(data, f, tail);
    assert Record(f) + rest == data;
  }

  lemma FindName(data: seq<byte>, f: File, tail: seq<byte>)
    requires |data| >= BLOCK && |f.name| > 99 && UntilNul(f.name) == f.name
    requires var hd := data[..BLOCK];
             && hd[NAME] != 0 && HasMagic(hd)
             && SizeIn(hd) == |f.name| && hd[TYPEFLAG] == LONG_NAME
    requires var next := BLOCK + |f.name| + Pad(|f.name|);
             next <= |data| && data[BLOCK..BLOCK + |f.name|] == f.name && data[next..] == tail
    ensures FindFile(data, None, 0) == FindFile(tail, Some(f.name), 1)
  {
    hide Pad, UntilNul, ShortName, HasMagic, SizeIn;
    var hd, body := data[..BLOCK], data[BLOCK..BLOCK + |f.name|];
    assert hd[TYPEFLAG] == LONG_NAME && UntilNul(body) == f.name;
  }

  lemma FindAfterName(data: seq<byte>, f: File, rest: seq<byte>)
    requires |data| >= BLOCK && |f.name| > 99
    requires var hd := data[..BLOCK];
             && hd[NAME] != 0 && HasMagic(hd)
             && SizeIn(hd) == |f.data| && hd[TYPEFLAG] == REGULAR
    requires var next := BLOCK + |f.data| + Pad(|f.data|);
             next <= |data| && data[BLOCK..BLOCK + |f.data|] == f.data && data[next..] == rest
    ensures FindFile(data, Some(f.name), 1) == Hit(f.name, REGULAR, f.data, rest)
  {
    hide Pad, UntilNul, ShortName, HasMagic, SizeIn;
  }

  lemma FindRecord(f: File, rest: seq<byte>)
    requires Storable(f)
    ensures FindFile(Record(f) + rest, None, 0) == if f.name == [] then End else Hit(f.name, REGULAR, f.data, rest)
  {
    hide FindFile, Record;
    if |f.name| > 99 {
      FindLong(f, rest);
    } else {
      FindShort(f, rest);
    }
  }

  // The files before the first one without a name.
  function UpToUnnamed(files: seq<File>): (r: seq<File>)
    ensures r <= files
    ensures r == files <==> forall i :: 0 <= i < |files| ==> files[i].name != []
  {
    if files == [] || files[0].name == [] then []
    else
      assert files == [files[0]] + files[1..];
      [files[0]] + UpToUnnamed(files[1..])
  }

  lemma ArchiveFirst(files: seq<File>)
    requires files != []
    ensures Archive(files) == Record(files[0]) + Archive(files[1..])
  {
    hide Archive, Record;
    assert files == [files[0]] + files[1..];
    ArchiveConcat([files[0]], files[1..]);
    OneFile(files[0]);
  }

  lemma EndsAtZeros()
    ensures Files(Zeros(BLOCK)) == Some([])
  {
    assert Zeros(BLOCK)[..BLOCK] == Zeros(BLOCK);
  }

  // The driver sees the files in order up to the first one without a name.
  lemma {:induction false} DriverReads(files: seq<File>)
    requires AllStorable(files)
    ensures Files(Archive(files) + Zeros(BLOCK)) == Some(UpToUnnamed(files))
    decreases |files|
  {
    hide FindFile, Record, Archive, Storable, Files;
    if files == [] {
      EndsAtZeros();
      NoFiles();
      assert [] + Zeros(BLOCK) == Zeros(BLOCK);
    } else {
      var f, more := files[0], files[1..];
      var rest := Archive(more) + Zeros(BLOCK);
      ArchiveFirst(files);
      assert Archive(files) + Zeros(BLOCK) == Record(f) + rest;
      assert Storable(f);
      FindRecord(f, rest);
      DriverReads(more);
      FilesNext(Record(f) + rest, f, rest);
    }
  }

  lemma FilesNext(data: seq<byte>, f: File, rest: seq<byte>)
    requires FindFile(data, None, 0) == if f.name == [] then End else Hit(f.name, REGULAR, f.data, rest)
    requires Files(rest).Some?
    ensures Files(data) == Some(if f.name == [] then [] else [f] + Files(rest).value)
  {
    hide FindFile;
  }

  lemma FirstMagic(f: File, rest: seq<byte>)
    requires Storable(f)
    ensures var data := Record(f) + rest; |data| >= BLOCK && data[MAGIC..MAGIC + 5] == MAGIC_TEXT[..5]
  {
    hide Header, Pad, Body;
    var data := Record(f) + rest;
    if |f.name| > 99 {
      HeaderFirst(f.name[..99], |f.name|, LONG_NAME, Body(f.name) + FileRecord(f) + rest);
      assert data == Header(f.name[..99], |f.name|, LONG_NAME) + (Body(f.name) + FileRecord(f) + rest);
    } else {
      HeaderFirst(Prefix99(f.name), |f.data|, REGULAR, Body(f.data) + rest);
      assert data == Header(Prefix99(f.name), |f.data|, REGULAR) + (Body(f.data) + rest);
    }
  }

  lemma HeaderFirst(name: seq<byte>, size: nat, flag: byte, tail: seq<byte>)
    requires |name| <= 99 && NoNul(name) && size < 0x1_0000_0000
    ensures var data := Header(name, size, flag) + tail; |data| >= BLOCK && data[MAGIC..MAGIC + 5] == MAGIC_TEXT[..5]
  {
    hide Header, UntilNul, ParseOctal;
    HeaderFields(name, size, flag);
    var hd := Header(name, size, flag);
    assert (hd + tail)[MAGIC..MAGIC + 5] == hd[MAGIC..MAGIC + 5];
  }

  // Main result.  The boot-time driver mounts every archive that has a file, and then sees
  // all files in order if and only if none has the empty name, which it takes for the end.
  lemma MemdiskIsReadable(files: seq<File>)
    requires AllStorable(files)
    ensures files != [] ==> Mounted(Archive(files) + Zeros(BLOCK)) == Some(UpToUnnamed(files))
    ensures files == [] ==> Mounted(Archive(files) + Zeros(BLOCK)) == None
    ensures Mounted(Archive(files) + Zeros(BLOCK)) == Some(files)
            <==> files != [] && forall i :: 0 <= i < |files| ==> files[i].name != []
  {
    hide Files, Archive, Record, Storable;
    DriverReads(files);
    if files != [] {
      ArchiveFirst(files);
      assert Storable(files[0]);
      var rest := Archive(files[1..]) + Zeros(BLOCK);
      assert Archive(files) + Zeros(BLOCK) == Record(files[0]) + rest;
      FirstMagic(files[0], rest);
    } else {
      NoFiles();
      assert [] + Zeros(BLOCK) == Zeros(BLOCK);
      ZerosHaveNoMagic();
    }
  }

  lemma ZerosHaveNoMagic()
    ensures Zeros(BLOCK)[MAGIC..MAGIC + 5] != MAGIC_TEXT[..5]
  {
    assert Zeros(BLOCK)[MAGIC..MAGIC + 5][0] == 0;
    assert MAGIC_TEXT[..5][0] == 117;
  }

  // A name is empty exactly when the path it was made from is nothing but slashes.
  lemma {:induction false} EmptyNameIff(to: seq<byte>)
    ensures Normal(to) == [] <==> forall i :: 0 <= i < |to| ==> to[i] == SLASH
  {
    if to != [] && to[0] == SLASH {
      EmptyNameIff(to[1..]);
      assert forall i :: 0 < i < |to| ==> to[i] == to[1..][i - 1];
    } else {
      SqueezedFacts(to, []);
    }
  }

  // The driver on the memdisk of any trees that hold a regular file: it shows the files that
  // the routes lead to, all of them if and only if every route has a name on it.
  lemma TreesAreMounted(roots: seq<Named>) returns (routes: seq<seq<nat>>)
    requires Packable(roots) && exists r :: IsRoute(roots, |roots|, r)
    ensures var files := AllFiles(roots, |roots|);
            && FilesOnRoutes(roots, routes, files)
            && (Mounted(Archive(files) + Zeros(BLOCK)) == Some(files) <==> forall i :: 0 <= i < |routes| ==> PartsOn(roots, routes[i]) != [])
  {
    hide Mounted, Archive, AllFiles, Packable, IsRoute, AllStorable;
    routes := MemdiskHoldsRoutes(roots);
    var files := AllFiles(roots, |roots|);
    SomeRoute(roots, routes);
    MemdiskIsReadable(files);
    forall i | 0 <= i < |files| ensures files[i].name != [] <==> PartsOn(roots, routes[i]) != [] {
      assert FileOn(roots, routes[i], files[i]);
      NamedIffParts(files[i].name);
    }
  }

  lemma SomeRoute(roots: seq<Named>, routes: seq<seq<nat>>)
    requires (exists r :: IsRoute(roots, |roots|, r)) && forall r :: NodeOn(roots, r).Some? && NodeOn(roots, r).value.Regular? ==> r in routes
    ensures routes != []
  {
    var r :| IsRoute(roots, |roots|, r);
  }

  // A tidy name is empty exactly when it has no components.
  lemma NamedIffParts(name: seq<byte>)
    requires Tidy(name)
    ensures name != [] <==> Parts(name, []) != []
  {
    if name != [] { SomePart(name[1..], [] + [name[0]]); }
  }

  lemma {:induction false} SomePart(s: seq<byte>, part: seq<byte>)
    requires part != []
    ensures Parts(s, part) != []
  {
    if s != [] && s[0] != SLASH { SomePart(s[1..], part + [s[0]]); }
  }
}
