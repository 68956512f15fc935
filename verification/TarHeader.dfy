/** The ustar header block of grub/util/grub-mkstandalone.c: octal fields, the checksum that
    covers itself, and the fields a reader takes from it (POSIX pax, "ustar Interchange
    Format"). */
module TarHeader {
  import opened Align
  import opened Bytes
  import opened Options

  const BLOCK: nat := 512

  /* ---- octal numbers ---- */

  function Pow8(n: nat): (p: nat)
    ensures p >= 1
  {
    if n == 0 then 1 else 8 * Pow8(n - 1)
  }

  // The n lowest octal digits, most significant first.
  function Octal(v: nat, n: nat): (s: seq<byte>)
    ensures |s| == n
    decreases n
  {
    if n == 0 then [] else Octal(v / 8, n - 1) + [48 + v % 8]
  }

  predicate IsDigit(b: byte) { 48 <= b < 56 }

  // A reader takes digits up to the first other byte.
  function ParseOctal(s: seq<byte>, acc: nat): nat {
    if s == [] || !IsDigit(s[0]) then acc else ParseOctal(s[1..], acc * 8 + (s[0] - 48))
  }

  lemma {:induction false} ParseDigits(v: nat, n: nat, b: byte, rest: seq<byte>, acc: nat)
    requires v < Pow8(n) && !IsDigit(b)
    ensures ParseOctal(Octal(v, n) + [b] + rest, acc) == acc * Pow8(n) + v
    decreases n
  {
    if n == 0 {
      assert Octal(v, n) + [b] + rest == [b] + rest;
    } else {
      OctalFront(v, n - 1);
      var p := Pow8(n - 1);
      assert Pow8(n) == 8 * p;
      hide Octal, Pow8, ParseOctal;
      var d := v / p % 8;
      TopDigit(v, p);
      var s := Octal(v, n) + [b] + rest;
      assert s[0] == 48 + d && s[1..] == Octal(v, n - 1) + [b] + rest;
      ParseOne(s, acc, d);
      OctalModulo(v, n - 1);
      ParseDigits(v % p, n - 1, b, rest, acc * 8 + d);
      Regroup(acc, d, p, v);
    }
  }

  lemma ParseOne(s: seq<byte>, acc: nat, d: nat)
    requires s != [] && d < 8 && s[0] == 48 + d
    ensures ParseOctal(s, acc) == ParseOctal(s[1..], acc * 8 + d)
  {
  }

  lemma TopDigit(v: nat, p: nat)
    requires p >= 1 && v < 8 * p
    ensures v / p < 8 && v == (v / p) * p + v % p && v / p % 8 == v / p
  {
    DivMod(v, p);
    var q, r := v / p, v % p;
    SmallQuotient(q, r, p);
  }

  lemma SmallQuotient(q: int, r: int, p: int)
    requires p > 0 && 0 <= r && q * p + r < 8 * p && q >= 0
    ensures q < 8 && q % 8 == q
  {
    assert (8 - q) * p == 8 * p - q * p;
    PositiveFactor(8 - q, p);
  }

  lemma PositiveFactor(d: int, p: int)
    requires p > 0 && d * p > 0
    ensures d > 0
  {
  }

  lemma Regroup(acc: nat, d: nat, p: nat, v: nat)
    requires p >= 1 && v == d * p + v % p
    ensures (acc * 8 + d) * p + v % p == acc * (8 * p) + v
  {
  }

  lemma {:induction false} OctalFront(v: nat, n: nat)
    ensures Octal(v, n + 1) == [48 + v / Pow8(n) % 8] + Octal(v, n)
    decreases n
  {
    if n == 0 {
      assert Octal(v / 8, 0) == [];
    } else {
      OctalFront(v / 8, n - 1);
      DivDiv(v, Pow8(n - 1));
      assert Octal(v, n + 1) == Octal(v / 8, n) + [48 + v % 8];
    }
  }

  lemma DivDiv(v: nat, p: nat)
    requires p >= 1
    ensures v / 8 / p == v / (8 * p)
  {
    var q := v / (8 * p);
    var r := v % (8 * p);
    assert v == 8 * (p * q) + r;
    assert v / 8 == p * q + r / 8;
    assert r / 8 < p;
    DivUnique(v / 8, p, q, r / 8);
  }

  lemma DivUnique(x: nat, p: nat, q: nat, r: nat)
    requires p >= 1 && x == p * q + r && r < p
    ensures x / p == q
  {
    DivMod(x, p);
    var d := q - x / p;
    assert d * p == x % p - r by {
      assert d * p == q * p - x / p * p;
    }
    if d * p >= 0 {
      OnlyMultipleBelow(d, p);
    } else {
      assert -d * p == r - x % p;
      OnlyMultipleBelow(-d, p);
    }
  }

  // Higher digits do not matter.
  lemma {:induction false} OctalModulo(v: nat, n: nat)
    ensures Octal(v % Pow8(n), n) == Octal(v, n)
    decreases n
  {
    if n > 0 {
      var p := Pow8(n - 1);
      OctalModulo(v / 8, n - 1);
      ModDiv(v, p);
    }
  }

  lemma ModDiv(v: nat, p: nat)
    requires p >= 1
    ensures v % (8 * p) / 8 == v / 8 % p && v % (8 * p) % 8 == v % 8
  {
    var q := v / (8 * p);
    var r := v % (8 * p);
    assert v == 8 * (p * q) + r;
    assert v / 8 == p * q + r / 8 && v % 8 == r % 8;
    DivUnique(v / 8, p, q, r / 8);
  }

  /* ---- sums ---- */

  function Sum(s: seq<byte>): (n: nat)
    ensures n <= 255 * |s|
  {
    if s == [] then 0 else Sum(s[..|s| - 1]) + s[|s| - 1]
  }

  const CHKSUM: nat := 148
  const SPACES: seq<byte> := [32, 32, 32, 32, 32, 32, 32, 32]

  // The sum with the checksum field taken as spaces.
  function HeaderSum(hd: seq<byte>): nat
    requires |hd| == BLOCK
  {
    Sum(Splice(hd, CHKSUM, SPACES))
  }

  // compute_checksum: seven digits, and the last space stays.
  function Summed(hd: seq<byte>): seq<byte>
    requires |hd| == BLOCK
  {
    Splice(Splice(hd, CHKSUM, SPACES), CHKSUM, Octal(HeaderSum(hd), 7))
  }

  predicate ChecksumOk(hd: seq<byte>)
    requires |hd| == BLOCK
  {
    ParseOctal(hd[CHKSUM..CHKSUM + 8], 0) == HeaderSum(hd)
  }

  lemma SpliceOver(hd: seq<byte>, at: nat, a: seq<byte>, b: seq<byte>)
    requires at + |b| <= |hd| && |a| <= |b|
    ensures Splice(Splice(hd, at, a), at, b) == Splice(hd, at, b)
  {
  }

  lemma SliceElsewhere(hd: seq<byte>, at: nat, data: seq<byte>, lo: nat, hi: nat)
    requires at + |data| <= |hd| && lo <= hi <= |hd| && (hi <= at || at + |data| <= lo)
    ensures Splice(hd, at, data)[lo..hi] == hd[lo..hi]
  {
  }

  // The stored checksum verifies.
  lemma SummedVerifies(hd: seq<byte>)
    requires |hd| == BLOCK
    ensures ChecksumOk(Summed(hd))
  {
    var spaced := Splice(hd, CHKSUM, SPACES);
    var digits := Octal(HeaderSum(hd), 7);
    var out := Splice(spaced, CHKSUM, digits);
    SpliceOver(spaced, CHKSUM, digits, SPACES);
    SpliceOver(hd, CHKSUM, SPACES, SPACES);
    assert Splice(out, CHKSUM, SPACES) == spaced;
    var field := out[CHKSUM..CHKSUM + 8];
    assert field == digits + [32] by {
      assert field[..7] == digits;
      assert field[7] == spaced[CHKSUM + 7] == SPACES[7];
    }
    assert digits + [32] + [] == digits + [32];
    SevenDigits();
    ParseDigits(HeaderSum(hd), 7, 32, [], 0);
  }

  lemma SevenDigits()
    ensures Pow8(7) == 2097152 && Pow8(11) == 8589934592
  {
    assert Pow8(3) == 512;
    assert Pow8(6) == 262144;
    assert Pow8(9) == 134217728;
  }

  /* ---- the whole header ---- */

  const NAME: nat := 0
  const MODE: nat := 100
  const UID: nat := 108
  const GID: nat := 116
  const SIZE: nat := 124
  const MTIME: nat := 136
  const TYPEFLAG: nat := 156
  const MAGIC: nat := 257
  const UNAME: nat := 265
  const GNAME: nat := 297
  const PREFIX: nat := 345

  const MODE_TEXT: seq<byte> := [48, 48, 48, 48, 54, 48, 48]
  const ID_TEXT: seq<byte> := [48, 48, 48, 49, 55, 53, 48]
  const MAGIC_TEXT: seq<byte> := [117, 115, 116, 97, 114, 0]
  const OWNER_TEXT: seq<byte> := [103, 114, 117, 98]
  const TIMESTAMP: nat := 1420070400

  const REGULAR: byte := 48
  const LONG_NAME: byte := 76

  // The header before the checksum.
  function Front(name: seq<byte>, size: nat): seq<byte>
    requires |name| <= 99
  {
    Splice(Splice(Splice(Splice(Splice(Zeros(BLOCK), NAME, name), MODE, MODE_TEXT), UID, ID_TEXT), GID, ID_TEXT),
           SIZE, Octal(size, 11))
  }

  function Filled(name: seq<byte>, size: nat, flag: byte): seq<byte>
    requires |name| <= 99
  {
    Splice(Splice(Splice(Splice(Splice(Front(name, size), MTIME, Octal(TIMESTAMP, 11)), TYPEFLAG, [flag]),
           MAGIC, MAGIC_TEXT), UNAME, OWNER_TEXT), GNAME, OWNER_TEXT)
  }

  function Header(name: seq<byte>, size: nat, flag: byte): (hd: seq<byte>)
    requires |name| <= 99
    ensures |hd| == BLOCK
  {
    Summed(Filled(name, size, flag))
  }

  lemma FrontFields(name: seq<byte>, size: nat)
    requires |name| <= 99
    ensures var hd := Front(name, size);
            && |hd| == BLOCK
            && hd[NAME..NAME + 100] == name + Zeros(100 - |name|)
            && hd[SIZE..SIZE + 12] == Octal(size, 11) + [0]
            && (forall i :: MTIME <= i < BLOCK ==> hd[i] == 0)
  {
    hide Octal;
    var a := Splice(Zeros(BLOCK), NAME, name);
    var b := Splice(a, MODE, MODE_TEXT);
    var c := Splice(b, UID, ID_TEXT);
    var d := Splice(c, GID, ID_TEXT);
    var hd := Splice(d, SIZE, Octal(size, 11));
    SliceElsewhere(a, MODE, MODE_TEXT, NAME, NAME + 100);
    SliceElsewhere(b, UID, ID_TEXT, NAME, NAME + 100);
    SliceElsewhere(c, GID, ID_TEXT, NAME, NAME + 100);
    SliceElsewhere(d, SIZE, Octal(size, 11), NAME, NAME + 100);
    assert a[NAME..NAME + 100] == name + Zeros(100 - |name|);
    assert hd[SIZE..SIZE + 12][..11] == Octal(size, 11);
    assert d[SIZE + 11] == 0;
    assert hd[SIZE..SIZE + 12][11] == d[SIZE + 11];
  }

  lemma FilledFields(name: seq<byte>, size: nat, flag: byte)
    requires |name| <= 99
    ensures var hd := Filled(name, size, flag);
            && |hd| == BLOCK
            && hd[NAME..NAME + 100] == name + Zeros(100 - |name|)
            && hd[SIZE..SIZE + 12] == Octal(size, 11) + [0]
            && hd[TYPEFLAG] == flag
            && hd[MAGIC..MAGIC + 6] == MAGIC_TEXT
            && (forall i :: PREFIX <= i < PREFIX + 155 ==> hd[i] == 0)
  {
    hide Octal, Front;
    FrontFields(name, size);
    var t := Octal(TIMESTAMP, 11);
    var a := Front(name, size);
    var b := Splice(a, MTIME, t);
    var c := Splice(b, TYPEFLAG, [flag]);
    var d := Splice(c, MAGIC, MAGIC_TEXT);
    var e := Splice(d, UNAME, OWNER_TEXT);
    var hd := Splice(e, GNAME, OWNER_TEXT);
    SliceElsewhere(a, MTIME, t, NAME, NAME + 100);
    SliceElsewhere(b, TYPEFLAG, [flag], NAME, NAME + 100);
    SliceElsewhere(c, MAGIC, MAGIC_TEXT, NAME, NAME + 100);
    SliceElsewhere(d, UNAME, OWNER_TEXT, NAME, NAME + 100);
    SliceElsewhere(e, GNAME, OWNER_TEXT, NAME, NAME + 100);
    SliceElsewhere(a, MTIME, t, SIZE, SIZE + 12);
    SliceElsewhere(b, TYPEFLAG, [flag], SIZE, SIZE + 12);
    SliceElsewhere(c, MAGIC, MAGIC_TEXT, SIZE, SIZE + 12);
    SliceElsewhere(d, UNAME, OWNER_TEXT, SIZE, SIZE + 12);
    SliceElsewhere(e, GNAME, OWNER_TEXT, SIZE, SIZE + 12);
    SliceElsewhere(d, UNAME, OWNER_TEXT, MAGIC, MAGIC + 6);
    SliceElsewhere(e, GNAME, OWNER_TEXT, MAGIC, MAGIC + 6);
    hide Splice;
  }

  /* ---- reading it ---- */

  function UntilNul(s: seq<byte>): seq<byte> {
    if s == [] || s[0] == 0 then [] else [s[0]] + UntilNul(s[1..])
  }

  datatype Entry = Entry(name: seq<byte>, size: nat, flag: byte)

  // None when the magic or the checksum is wrong.
  function ParseHeader(hd: seq<byte>): Option<Entry>
    requires |hd| == BLOCK
  {
    if hd[MAGIC..MAGIC + 5] != MAGIC_TEXT[..5] || !ChecksumOk(hd) then None
    else
      var name := UntilNul(hd[NAME..NAME + 100]);
      var prefix := UntilNul(hd[PREFIX..PREFIX + 155]);
      Some(Entry(if prefix == [] then name else prefix + [47] + name, ParseOctal(hd[SIZE..SIZE + 12], 0), hd[TYPEFLAG]))
  }

  lemma {:induction false} UntilNulStops(name: seq<byte>, rest: seq<byte>)
    requires forall i :: 0 <= i < |name| ==> name[i] != 0
    ensures UntilNul(name + [0] + rest) == name
    decreases |name|
  {
    if name == [] {
      assert name + [0] + rest == [0] + rest;
    } else {
      UntilNulStops(name[1..], rest);
      assert (name + [0] + rest)[1..] == name[1..] + [0] + rest;
    }
  }

  lemma SummedKeeps(hd: seq<byte>)
    requires |hd| == BLOCK
    ensures var out := Summed(hd);
            && out[NAME..NAME + 100] == hd[NAME..NAME + 100]
            && out[SIZE..SIZE + 12] == hd[SIZE..SIZE + 12]
            && out[TYPEFLAG] == hd[TYPEFLAG]
            && out[MAGIC..MAGIC + 6] == hd[MAGIC..MAGIC + 6]
            && (forall i :: PREFIX <= i < PREFIX + 155 ==> out[i] == hd[i])
  {
    hide Octal, HeaderSum;
    var digits := Octal(HeaderSum(hd), 7);
    var spaced := Splice(hd, CHKSUM, SPACES);
    SliceElsewhere(hd, CHKSUM, SPACES, NAME, NAME + 100);
    SliceElsewhere(spaced, CHKSUM, digits, NAME, NAME + 100);
    SliceElsewhere(hd, CHKSUM, SPACES, SIZE, SIZE + 12);
    SliceElsewhere(spaced, CHKSUM, digits, SIZE, SIZE + 12);
    SliceElsewhere(hd, CHKSUM, SPACES, MAGIC, MAGIC + 6);
    SliceElsewhere(spaced, CHKSUM, digits, MAGIC, MAGIC + 6);
    hide Splice;
  }

  // What the fields of a written header read as.
  lemma HeaderFields(name: seq<byte>, size: nat, flag: byte)
    requires |name| <= 99 && size < 0x1_0000_0000 && forall i :: 0 <= i < |name| ==> name[i] != 0
    ensures var hd := Header(name, size, flag);
            && UntilNul(hd[NAME..NAME + 100]) == name && hd[NAME] == (if name == [] then 0 else name[0])
            && UntilNul(hd[PREFIX..PREFIX + 155]) == [] && hd[PREFIX] == 0
            && ParseOctal(hd[SIZE..SIZE + 12], 0) == size && hd[TYPEFLAG] == flag
            && hd[MAGIC..MAGIC + 5] == MAGIC_TEXT[..5] && hd[MAGIC] != 0
  {
    hide Summed, Filled;
    var raw := Filled(name, size, flag);
    FilledFields(name, size, flag);
    SummedKeeps(raw);
    var hd := Header(name, size, flag);
    SliceFront(hd, MAGIC, 5, 6);
    FirstOfName(hd, name);
    NameField(name);
    SevenDigits();
    ParseDigits(size, 11, 0, [], 0);
    assert Octal(size, 11) + [0] + [] == Octal(size, 11) + [0];
    assert hd[PREFIX..PREFIX + 155][0] == 0;
    assert UntilNul(hd[PREFIX..PREFIX + 155]) == [];
  }

  lemma SliceFront(s: seq<byte>, a: nat, n: nat, m: nat)
    requires 0 < n <= m && a + m <= |s|
    ensures s[a..a + n] == s[a..a + m][..n] && s[a] == s[a..a + m][0]
  {
  }

  lemma FirstOfName(hd: seq<byte>, name: seq<byte>)
    requires |hd| == BLOCK && |name| <= 99 && hd[NAME..NAME + 100] == name + Zeros(100 - |name|)
    ensures hd[NAME] == if name == [] then 0 else name[0]
  {
    var field := name + Zeros(100 - |name|);
    assert hd[NAME] == hd[NAME..NAME + 100][0] == field[0];
  }

  function Text(s: string): (r: seq<byte>)
    ensures |r| == |s| && forall i :: 0 <= i < |s| ==> r[i] == s[i] as int % 256
  {
    if s == [] then [] else [s[0] as int % 256] + Text(s[1..])
  }

  lemma FrontTexts(name: seq<byte>, size: nat)
    requires |name| <= 99
    ensures var hd := Front(name, size);
            && |hd| == BLOCK && hd[100..107] == MODE_TEXT && hd[108..115] == ID_TEXT && hd[116..123] == ID_TEXT
            && (forall i :: MTIME <= i < BLOCK ==> hd[i] == 0)
  {
    hide Octal;
    var a := Splice(Zeros(BLOCK), NAME, name);
    var b := Splice(a, MODE, MODE_TEXT);
    var c := Splice(b, UID, ID_TEXT);
    var d := Splice(c, GID, ID_TEXT);
    SliceElsewhere(b, UID, ID_TEXT, 100, 107);
    SliceElsewhere(c, GID, ID_TEXT, 100, 107);
    SliceElsewhere(d, SIZE, Octal(size, 11), 100, 107);
    SliceElsewhere(c, GID, ID_TEXT, 108, 115);
    SliceElsewhere(d, SIZE, Octal(size, 11), 108, 115);
    SliceElsewhere(d, SIZE, Octal(size, 11), 116, 123);
    FrontFields(name, size);
  }

  lemma ModeFields(name: seq<byte>, size: nat, flag: byte)
    requires |name| <= 99
    ensures var hd := Filled(name, size, flag);
            |hd| == BLOCK && hd[100..107] == MODE_TEXT && hd[108..115] == ID_TEXT && hd[116..123] == ID_TEXT
  {
    hide Octal, Front;
    FrontTexts(name, size);
    var t := Octal(TIMESTAMP, 11);
    var a := Front(name, size);
    var b := Splice(a, MTIME, t);
    var c := Splice(b, TYPEFLAG, [flag]);
    var d := Splice(c, MAGIC, MAGIC_TEXT);
    var e := Splice(d, UNAME, OWNER_TEXT);
    SliceElsewhere(a, MTIME, t, 100, 107);
    SliceElsewhere(b, TYPEFLAG, [flag], 100, 107);
    SliceElsewhere(c, MAGIC, MAGIC_TEXT, 100, 107);
    SliceElsewhere(d, UNAME, OWNER_TEXT, 100, 107);
    SliceElsewhere(e, GNAME, OWNER_TEXT, 100, 107);
    SliceElsewhere(a, MTIME, t, 108, 115);
    SliceElsewhere(b, TYPEFLAG, [flag], 108, 115);
    SliceElsewhere(c, MAGIC, MAGIC_TEXT, 108, 115);
    SliceElsewhere(d, UNAME, OWNER_TEXT, 108, 115);
    SliceElsewhere(e, GNAME, OWNER_TEXT, 108, 115);
    SliceElsewhere(a, MTIME, t, 116, 123);
    SliceElsewhere(b, TYPEFLAG, [flag], 116, 123);
    SliceElsewhere(c, MAGIC, MAGIC_TEXT, 116, 123);
    SliceElsewhere(d, UNAME, OWNER_TEXT, 116, 123);
    SliceElsewhere(e, GNAME, OWNER_TEXT, 116, 123);
    hide Splice;
  }

  lemma OwnerFields(name: seq<byte>, size: nat, flag: byte)
    requires |name| <= 99
    ensures var hd := Filled(name, size, flag);
            |hd| == BLOCK && hd[136..148] == Octal(TIMESTAMP, 11) + [0] && hd[265..269] == OWNER_TEXT && hd[297..301] == OWNER_TEXT
  {
    hide Octal, Front;
    FrontTexts(name, size);
    var t := Octal(TIMESTAMP, 11);
    var a := Front(name, size);
    var b := Splice(a, MTIME, t);
    var c := Splice(b, TYPEFLAG, [flag]);
    var d := Splice(c, MAGIC, MAGIC_TEXT);
    var e := Splice(d, UNAME, OWNER_TEXT);
    assert b[136..148][..11] == t && b[136..148][11] == a[147];
    assert b[136..148] == t + [0];
    SliceElsewhere(b, TYPEFLAG, [flag], 136, 148);
    SliceElsewhere(c, MAGIC, MAGIC_TEXT, 136, 148);
    SliceElsewhere(d, UNAME, OWNER_TEXT, 136, 148);
    SliceElsewhere(e, GNAME, OWNER_TEXT, 136, 148);
    SliceElsewhere(e, GNAME, OWNER_TEXT, 265, 269);
    hide Splice;
  }

  lemma SummedElsewhere(hd: seq<byte>)
    requires |hd| == BLOCK
    ensures |Summed(hd)| == BLOCK && forall i :: 0 <= i < BLOCK && !(148 <= i < 156) ==> Summed(hd)[i] == hd[i]
  {
    hide Octal, HeaderSum;
  }

  lemma SameSlice(a: seq<byte>, b: seq<byte>, lo: nat, hi: nat)
    requires lo <= hi <= |a| == |b| && forall i :: lo <= i < hi ==> a[i] == b[i]
    ensures a[lo..hi] == b[lo..hi]
  {
  }

  lemma ChecksumIs(hd: seq<byte>)
    requires |hd| == BLOCK && ChecksumOk(hd)
    ensures ParseOctal(hd[148..156], 0) == Sum(hd[..148] + Text("        ") + hd[156..])
  {
    hide Sum, ParseOctal;
    assert Text("        ") == SPACES;
    assert Splice(hd, CHKSUM, SPACES) == hd[..148] + SPACES + hd[156..];
  }

  lemma FieldNumbers(size: nat)
    requires size < 0x1_0000_0000
    ensures ParseOctal(Octal(size, 11) + [0], 0) == size && ParseOctal(Octal(TIMESTAMP, 11) + [0], 0) == 1420070400
  {
    hide ParseOctal, Octal;
    SevenDigits();
    ParseDigits(size, 11, 0, [], 0);
    ParseDigits(TIMESTAMP, 11, 0, [], 0);
    assert Octal(size, 11) + [0] + [] == Octal(size, 11) + [0];
    assert Octal(TIMESTAMP, 11) + [0] + [] == Octal(TIMESTAMP, 11) + [0];
  }

  lemma Texts()
    ensures Text("0000600") == MODE_TEXT && Text("0001750") == ID_TEXT && Text("grub") == OWNER_TEXT
    ensures Text("ustar") + [0] == MAGIC_TEXT
  {
    hide Text;
    assert Text("0000600") == MODE_TEXT;
    assert Text("0001750") == ID_TEXT;
    assert Text("grub") == OWNER_TEXT;
    assert Text("ustar") + [0] == MAGIC_TEXT;
  }

  // The header field by field, at the places of the ustar Interchange Format: name, mode, uid,
  // gid, size, mtime, checksum, typeflag, magic, uname and gname.
  lemma HeaderLayout(name: seq<byte>, size: nat, flag: byte)
    requires |name| <= 99 && size < 0x1_0000_0000
    ensures var hd := Header(name, size, flag);
            && hd[0..100] == name + Zeros(100 - |name|)
            && hd[100..107] == Text("0000600") && hd[108..115] == Text("0001750") && hd[116..123] == Text("0001750")
            && ParseOctal(hd[124..136], 0) == size && ParseOctal(hd[136..148], 0) == 1420070400
            && ParseOctal(hd[148..156], 0) == Sum(hd[..148] + Text("        ") + hd[156..])
            && hd[156] == flag && hd[257..262] == Text("ustar") && hd[262] == 0
            && hd[265..269] == Text("grub") && hd[297..301] == Text("grub")
  {
    hide Octal, Sum, Summed, Filled, ParseOctal, Header, Text;
    HeaderKeeps(name, size, flag);
    var raw := Filled(name, size, flag);
    var hd := Header(name, size, flag);
    FilledFields(name, size, flag);
    ModeFields(name, size, flag);
    OwnerFields(name, size, flag);
    SameSlice(hd, raw, 0, 100);
    SameSlice(hd, raw, 100, 107);
    SameSlice(hd, raw, 108, 115);
    SameSlice(hd, raw, 116, 123);
    SameSlice(hd, raw, 124, 136);
    SameSlice(hd, raw, 136, 148);
    SameSlice(hd, raw, 257, 263);
    SameSlice(hd, raw, 265, 269);
    SameSlice(hd, raw, 297, 301);
    ChecksumIs(hd);
    FieldNumbers(size);
    Texts();
    assert hd[257..262] == hd[257..263][..5] && hd[262] == hd[257..263][5];
  }

  lemma HeaderKeeps(name: seq<byte>, size: nat, flag: byte)
    requires |name| <= 99
    ensures |Filled(name, size, flag)| == BLOCK && ChecksumOk(Header(name, size, flag))
    ensures forall i :: 0 <= i < BLOCK && !(148 <= i < 156) ==> Header(name, size, flag)[i] == Filled(name, size, flag)[i]
  {
    hide Filled, Summed, ChecksumOk;
    FilledFields(name, size, flag);
    SummedElsewhere(Filled(name, size, flag));
    SummedVerifies(Filled(name, size, flag));
  }

  // A reader gets back what the writer put in, and the checksum verifies.
  lemma HeaderRoundTrip(name: seq<byte>, size: nat, flag: byte)
    requires |name| <= 99 && size < 0x1_0000_0000 && forall i :: 0 <= i < |name| ==> name[i] != 0
    ensures ParseHeader(Header(name, size, flag)) == Some(Entry(name, size, flag))
    ensures Header(name, size, flag)[MAGIC] != 0
  {
    hide Summed, Filled, ChecksumOk, UntilNul, ParseOctal;
    HeaderFields(name, size, flag);
    FilledFields(name, size, flag);
    SummedVerifies(Filled(name, size, flag));
  }

  lemma NameField(name: seq<byte>)
    requires |name| <= 99 && forall i :: 0 <= i < |name| ==> name[i] != 0
    ensures UntilNul(name + Zeros(100 - |name|)) == name
  {
    assert name + Zeros(100 - |name|) == name + [0] + Zeros(99 - |name|);
    UntilNulStops(name, Zeros(99 - |name|));
  }

  /* ---- the code ---- */

  method SetTarValue(hd: array<byte>, field: nat, val: nat, len: nat)
    requires 1 <= len && field + len <= hd.Length
    modifies hd
    ensures hd[..] == Splice(old(hd[..]), field, Octal(val, len - 1))
  {
    var i := 0;
    while i < len - 1
      invariant i <= len - 1
      invariant hd[field + len - 1 - i..field + len - 1] == Octal(val, i)
      invariant forall k :: 0 <= k < hd.Length && !(field + len - 1 - i <= k < field + len - 1) ==> hd[k] == old(hd[k])
    {
      OctalFront(val, i);
      hide Octal;
      ghost var was := hd[field + len - 1 - i..field + len - 1];
      var d := val / Pow8(i);
      hd[field + len - 2 - i] := 48 + d % 8;
      assert hd[field + len - 1 - i..field + len - 1] == was;
      assert hd[field + len - 2 - i..field + len - 1] == [48 + d % 8] + was;
      i := i + 1;
    }
  }

  method ComputeChecksum(hd: array<byte>)
    requires hd.Length == BLOCK
    modifies hd
    ensures hd[..] == Summed(old(hd[..]))
  {
    hide Octal;
    var i := 0;
    while i < 8
      invariant i <= 8
      invariant forall k :: CHKSUM <= k < CHKSUM + i ==> hd[k] == 32
      invariant forall k :: 0 <= k < BLOCK && !(CHKSUM <= k < CHKSUM + i) ==> hd[k] == old(hd[k])
    {
      hd[CHKSUM + i] := 32;
      i := i + 1;
    }
    assert hd[..] == Splice(old(hd[..]), CHKSUM, SPACES);
    var chk: nat := 0;
    i := 0;
    while i < BLOCK
      invariant i <= BLOCK && chk == Sum(hd[..i])
    {
      assert hd[..i + 1][..i] == hd[..i];
      chk := chk + hd[i];
      i := i + 1;
    }
    assert hd[..BLOCK] == hd[..];
    SetTarValue(hd, CHKSUM, chk, 8);
  }

  method MakeHeader(name: seq<byte>, size: nat, flag: byte) returns (hd: array<byte>)
    requires |name| <= 99
    ensures fresh(hd) && hd.Length == BLOCK && hd[..] == Header(name, size, flag)
  {
    hide Octal, Splice, Summed;
    hd := new byte[BLOCK](_ => 0);
    assert hd[..] == Zeros(BLOCK);
    Memcpy(hd, NAME, name);
    Memcpy(hd, MODE, MODE_TEXT);
    Memcpy(hd, UID, ID_TEXT);
    Memcpy(hd, GID, ID_TEXT);
    SetTarValue(hd, SIZE, size, 12);
    assert hd[..] == Front(name, size);
    hide Front;
    SetTarValue(hd, MTIME, TIMESTAMP, 12);
    Memcpy(hd, TYPEFLAG, [flag]);
    Memcpy(hd, MAGIC, MAGIC_TEXT);
    Memcpy(hd, UNAME, OWNER_TEXT);
    Memcpy(hd, GNAME, OWNER_TEXT);
    assert hd[..] == Filled(name, size, flag);
    hide Filled;
    ComputeChecksum(hd);
  }
}
