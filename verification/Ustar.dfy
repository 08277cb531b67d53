/** Archive headers in the ustar interchange format: writing and parsing. */
module Ustar {
  import opened Prelude
  import opened CStrings
  import opened Disk
  import opened Octal

  const HEADER_SIZE := 512
  const SLASH: Byte := 47
  const DOT: Byte := 46
  const REGULAR: Byte := 48
  const DIRECTORY: Byte := 53
  const CHKSUM_AT := 148
  const CHKSUM_LEN := 8
  const MTIME := 1136102400

  type Header = h: seq<Byte> | |h| == HEADER_SIZE witness Zeros(HEADER_SIZE)

  // ---------- names ----------

  predicate Antisocial(name: seq<Byte>) {
    [SLASH] <= name || [DOT, SLASH] <= name || [DOT, DOT, SLASH] <= name
  }

  /** What follows the first slash. */
  function AfterSlash(name: seq<Byte>): (r: seq<Byte>)
    requires SLASH in name
    ensures |r| < |name| && r == name[|name| - |r|..] && (0 !in name ==> 0 !in r)
  {
    if name[0] == SLASH then name[1..] else AfterSlash(name[1..])
  }

  /** strip_antisocial_prefixes. */
  function Strip(name: seq<Byte>): (r: seq<Byte>)
    ensures r != [] && r != [DOT, DOT] && !Antisocial(r)
    ensures r == [DOT] || exists k :: 0 <= k <= |name| && r == name[k..]
    decreases |name|
  {
    if Antisocial(name) then
      assert SLASH in name by { assert name[0] == SLASH || name[1] == SLASH || name[2] == SLASH; }
      var rest := AfterSlash(name);
      Strip(rest)
    else if name == [] || name == [DOT, DOT] then assert [DOT][0] != SLASH; [DOT]
    else assert name == name[0..]; name
  }

  method StripPrefixes(name: seq<Byte>) returns (r: seq<Byte>)
    ensures r == Strip(name)
  {
    r := name;
    while [SLASH] <= r || [DOT, SLASH] <= r || [DOT, DOT, SLASH] <= r
      invariant Strip(r) == Strip(name)
      decreases |r|
    {
      assert SLASH in r by { assert r[0] == SLASH || r[1] == SLASH || r[2] == SLASH; }
      r := AfterSlash(r);
    }
    if r == [] || r == [DOT, DOT] {
      r := [DOT];
    }
  }

  /** Stripping a stripped name changes nothing. */
  lemma StripTwice(name: seq<Byte>)
    ensures Strip(Strip(name)) == Strip(name)
  {
  }

  lemma {:induction false} AfterFirstSlash(a: seq<Byte>, b: seq<Byte>)
    requires 47 !in a
    ensures SLASH in a + [47] + b && AfterSlash(a + [47] + b) == b
  {
    var name := a + [47] + b;
    assert name[|a|] == 47;
    if a != [] {
      assert name[1..] == a[1..] + [47] + b && name[0] == a[0];
      AfterFirstSlash(a[1..], b);
    } else {
      assert name[1..] == b;
    }
  }

  /** Stripping takes "/", "./" and "../" off the front, for as long as there is one. */
  lemma StripsOff(dots: seq<Byte>, name: seq<Byte>)
    requires dots == [] || dots == [46] || dots == [46, 46]
    ensures Strip(dots + [47] + name) == Strip(name)
  {
    AfterFirstSlash(dots, name);
    var s := dots + [47] + name;
    assert s[..|dots| + 1] == dots + [47];
    assert Antisocial(s) by {
      assert dots == [] ==> [SLASH] <= s;
      assert dots == [46] ==> [DOT, SLASH] <= s;
      assert dots == [46, 46] ==> [DOT, DOT, SLASH] <= s;
    }
  }

  /** A name with none of them in front stays as it is, but an empty name and ".." become ".". */
  lemma StripsNothing(name: seq<Byte>)
    ensures name == [] || name == [46, 46] ==> Strip(name) == [46]
    ensures name != [] && name != [46, 46] && name[0] != 47 && !([46, 47] <= name) && !([46, 46, 47] <= name) ==>
      Strip(name) == name
  {
  }

  lemma {:induction false} StripNoNull(name: seq<Byte>)
    requires 0 !in name
    ensures 0 !in Strip(name)
    decreases |name|
  {
    if Antisocial(name) {
      assert SLASH in name by { assert name[0] == SLASH || name[1] == SLASH || name[2] == SLASH; }
      StripNoNull(AfterSlash(name));
    }
  }

  // ---------- fields and the checksum ----------

  function Put(h: Header, a: nat, d: seq<Byte>): Header
    requires a + |d| <= HEADER_SIZE
  {
    Splice(h, a, d)
  }

  function Field(h: Header, a: nat, n: nat): seq<Byte>
    requires a + n <= HEADER_SIZE
  {
    h[a..a + n]
  }

  lemma PutHere(h: Header, a: nat, d: seq<Byte>)
    requires a + |d| <= HEADER_SIZE
    ensures Field(Put(h, a, d), a, |d|) == d
  {
  }

  lemma PutElsewhere(h: Header, a: nat, d: seq<Byte>, b: nat, n: nat)
    requires a + |d| <= HEADER_SIZE && b + n <= HEADER_SIZE && (a + |d| <= b || b + n <= a)
    ensures Field(Put(h, a, d), b, n) == Field(h, b, n)
  {
  }

  /** Byte `i` as the checksum counts it: the checksum field counts as spaces. */
  function Counted(h: Header, i: nat): nat
    requires i < HEADER_SIZE
  {
    if CHKSUM_AT <= i < CHKSUM_AT + CHKSUM_LEN then 32 else h[i]
  }

  function Sum(h: Header, n: nat): (r: nat)
    requires n <= HEADER_SIZE
    ensures r <= 255 * n
  {
    if n == 0 then 0 else Sum(h, n - 1) + Counted(h, n - 1)
  }

  /** The plain sum of bytes. */
  function ByteSum(s: seq<Byte>): nat {
    if s == [] then 0 else ByteSum(s[..|s| - 1]) + s[|s| - 1]
  }

  lemma {:induction false} SumSpaces(h: Header, n: nat)
    requires n <= HEADER_SIZE
    ensures Sum(h, n) == ByteSum(Splice(h, 148, Fill(8, 32))[..n])
  {
    var g := Splice(h, 148, Fill(8, 32));
    if n > 0 {
      SumSpaces(h, n - 1);
      assert g[..n][..n - 1] == g[..n - 1] && g[..n][n - 1] == g[n - 1];
    }
  }

  /** The checksum is the sum of all 512 bytes of the header with eight spaces for the checksum field. */
  lemma ChksumIs(h: Header)
    ensures Sum(h, HEADER_SIZE) == ByteSum(Splice(h, 148, [32, 32, 32, 32, 32, 32, 32, 32]))
  {
    var g := Splice(h, 148, Fill(8, 32));
    SumSpaces(h, 512);
    assert g[..512] == g && Fill(8, 32) == [32, 32, 32, 32, 32, 32, 32, 32];
  }

  method CalculateChksum(h: Header) returns (chksum: nat)
    ensures chksum == Sum(h, HEADER_SIZE)
    ensures chksum == ByteSum(Splice(h, 148, [32, 32, 32, 32, 32, 32, 32, 32]))
  {
    hide ByteSum;
    ChksumIs(h);
    chksum := 0;
    for i := 0 to HEADER_SIZE
      invariant chksum == Sum(h, i)
    {
      chksum := chksum + if CHKSUM_AT <= i < CHKSUM_AT + CHKSUM_LEN then 32 else h[i];
    }
  }

  /** Filling the checksum in does not change it. */
  lemma {:induction false} SumIgnoresChksum(h: Header, d: seq<Byte>, n: nat)
    requires |d| == CHKSUM_LEN && n <= HEADER_SIZE
    ensures Sum(Put(h, CHKSUM_AT, d), n) == Sum(h, n)
  {
    if n > 0 { SumIgnoresChksum(h, d, n - 1); }
  }

  // ---------- the header ----------

  /** A 32-bit int as "%o" sees it. */
  function AsUnsigned(x: int): nat { x % 0x1_0000_0000 }

  /** A string in a field of `n` bytes, the rest null. */
  function Padded(s: seq<Byte>, n: nat): (r: seq<Byte>)
    requires |s| <= n
    ensures |r| == n
  {
    s + Zeros(n - |s|)
  }

  function OctalField(v: nat, w: nat): (r: seq<Byte>)
    ensures |r| == w + 1
  {
    Digits(v, w) + [0]
  }

  const USTAR: seq<Byte> := [117, 115, 116, 97, 114]
  const ROOT: seq<Byte> := [114, 111, 111, 116]

  /** The fields before the checksum. */
  function Attributes(name: seq<Byte>, typeflag: Byte, size: int): (h: Header)
    requires |name| <= 99
    ensures forall k :: CHKSUM_AT <= k < HEADER_SIZE ==> h[k] == 0
  {
    var h := Put(Zeros(HEADER_SIZE), 0, Padded(name, 100));
    var h := Put(h, 100, OctalField(if typeflag == REGULAR then 420 else 493, 7));
    var h := Put(h, 108, OctalField(0, 7));
    var h := Put(h, 116, OctalField(0, 7));
    var h := Put(h, 124, OctalField(AsUnsigned(size), 11));
    Put(h, 136, OctalField(MTIME, 11))
  }

  /** The header but for its checksum, field by field. */
  function Unsummed(name: seq<Byte>, typeflag: Byte, size: int): Header
    requires |name| <= 99
  {
    var h := Put(Attributes(name, typeflag, size), 156, [typeflag]);
    var h := Put(h, 257, Padded(USTAR, 6));
    var h := Put(h, 263, [ZERO, ZERO]);
    var h := Put(h, 297, Padded(ROOT, 32));
    Put(h, 265, Padded(ROOT, 32))
  }

  function Made(name: seq<Byte>, typeflag: Byte, size: int): Header
    requires |name| <= 99
  {
    var h := Unsummed(name, typeflag, size);
    Put(h, CHKSUM_AT, OctalField(Sum(h, HEADER_SIZE), 7))
  }

  datatype Error =
    | NotUstar | BadVersion | BadChksumField | ChksumMismatch | NameTooLong | BadType | BadSizeField | TooLarge
  datatype Parsed = Entry(name: seq<Byte>, typeflag: Byte, size: nat) | EndOfArchive | Failed(error: Error)

  /** What a header says. */
  function Parse(h: Header): Parsed {
    if h == Zeros(HEADER_SIZE) then EndOfArchive
    else if Field(h, 257, 6) != Padded(USTAR, 6) then Failed(NotUstar)
    else if Field(h, 263, 2) != [ZERO, ZERO] then Failed(BadVersion)
    else
      var chksum := ParseFrom(Field(h, CHKSUM_AT, CHKSUM_LEN), 0, 0);
      if chksum.None? then Failed(BadChksumField)
      else if chksum.value != Sum(h, HEADER_SIZE) then Failed(ChksumMismatch)
      else if h[99] != 0 || h[345] != 0 then Failed(NameTooLong)
      else if h[156] != REGULAR && h[156] != DIRECTORY then Failed(BadType)
      else
        var size := if h[156] == REGULAR then ParseFrom(Field(h, 124, 12), 0, 0) else Some(0);
        if size.None? then Failed(BadSizeField)
        else if size.value > INT_MAX then Failed(TooLarge)
        else Entry(Strip(CString(Field(h, 0, 100))), h[156], size.value)
  }

  // ---------- the round trip ----------

  lemma MadeFields(name: seq<Byte>, typeflag: Byte, size: int)
    requires |name| <= 99
    ensures var h := Unsummed(name, typeflag, size);
            && Field(h, 0, 100) == Padded(name, 100) && Field(h, 124, 12) == OctalField(AsUnsigned(size), 11)
            && Field(h, 156, 1) == [typeflag] && Field(h, 257, 6) == Padded(USTAR, 6)
            && Field(h, 263, 2) == [ZERO, ZERO] && Field(h, 345, 1) == [0]
  {
  }

  lemma FieldBytes(h: Header, a: nat)
    requires a < HEADER_SIZE
    ensures Field(h, a, 1) == [h[a]]
  {
  }

  /** The checksum field leaves the others, and the checksum, as they were. */
  lemma SummedFields(h: Header, d: seq<Byte>)
    requires |d| == CHKSUM_LEN
    ensures var g := Put(h, CHKSUM_AT, d);
            && Field(g, 0, 100) == Field(h, 0, 100) && Field(g, 124, 12) == Field(h, 124, 12)
            && Field(g, 156, 1) == Field(h, 156, 1) && Field(g, 257, 6) == Field(h, 257, 6)
            && Field(g, 263, 2) == Field(h, 263, 2) && Field(g, 345, 1) == Field(h, 345, 1)
            && Field(g, CHKSUM_AT, CHKSUM_LEN) == d && Sum(g, HEADER_SIZE) == Sum(h, HEADER_SIZE)
  {
    hide Put, Field, Sum;
    PutElsewhere(h, CHKSUM_AT, d, 0, 100);
    PutElsewhere(h, CHKSUM_AT, d, 124, 12);
    PutElsewhere(h, CHKSUM_AT, d, 156, 1);
    PutElsewhere(h, CHKSUM_AT, d, 257, 6);
    PutElsewhere(h, CHKSUM_AT, d, 263, 2);
    PutElsewhere(h, CHKSUM_AT, d, 345, 1);
    PutHere(h, CHKSUM_AT, d);
    SumIgnoresChksum(h, d, HEADER_SIZE);
  }

  lemma Pow8s()
    ensures Pow8(7) == 2097152 && Pow8(11) == 8589934592
  {
    assert Pow8(4) == 4096;
    assert Pow8(8) == 4096 * Pow8(4);
  }

  /** The fields of a made header, its checksum included. */
  ghost predicate Filled(h: Header, name: seq<Byte>, typeflag: Byte, size: nat)
    requires |name| <= 99
  {
    && Field(h, 0, 100) == Padded(name, 100) && Field(h, 124, 12) == OctalField(size, 11)
    && Field(h, 156, 1) == [typeflag] && Field(h, 257, 6) == Padded(USTAR, 6)
    && Field(h, 263, 2) == [ZERO, ZERO] && Field(h, 345, 1) == [0]
    && Field(h, CHKSUM_AT, CHKSUM_LEN) == OctalField(Sum(h, HEADER_SIZE), 7)
  }

  lemma MadeFilled(name: seq<Byte>, typeflag: Byte, size: int)
    requires |name| <= 99
    ensures Filled(Made(name, typeflag, size), name, typeflag, AsUnsigned(size))
  {
    hide Put, Field, Sum, Unsummed, OctalField, Padded;
    var u := Unsummed(name, typeflag, size);
    MadeFields(name, typeflag, size);
    SummedFields(u, OctalField(Sum(u, HEADER_SIZE), 7));
  }

  lemma FieldParses(v: nat, w: nat)
    requires 0 < w && v < Pow8(w) && v <= ULONG_MAX
    ensures ParseFrom(OctalField(v, w), 0, 0) == Some(v)
  {
    ParseWritten(v, w, []);
    assert Digits(v, w) + [0] + [] == OctalField(v, w);
  }

  lemma NameParses(name: seq<Byte>)
    requires |name| <= 99 && 0 !in name
    ensures CString(Padded(name, 100)) == name
  {
    assert Padded(name, 100) == name + [0] + Zeros(99 - |name|);
    CStringPrefix(name, Zeros(99 - |name|));
  }

  lemma FilledParses(h: Header, name: seq<Byte>, typeflag: Byte, size: nat)
    requires |name| <= 99 && 0 !in name && (typeflag == REGULAR || typeflag == DIRECTORY) && size <= ULONG_MAX
    requires Filled(h, name, typeflag, size)
    ensures Parse(h) ==
      if typeflag == DIRECTORY then Entry(Strip(name), typeflag, 0)
      else if size <= INT_MAX then Entry(Strip(name), typeflag, size)
      else Failed(TooLarge)
  {
    hide Field, Sum, OctalField, Padded, ParseFrom, Pow8, Strip, CString;
    Pow8s();
    FieldParses(Sum(h, HEADER_SIZE), 7);
    FieldParses(size, 11);
    FieldBytes(h, 156);
    FieldBytes(h, 345);
    NotZeros(h);
    NameField(h, name);
    NameParses(name);
  }

  /** A made header parses to the stripped name, the type and the size; only a negative size does not come back. */
  lemma RoundTrip(name: seq<Byte>, typeflag: Byte, size: int)
    requires 0 !in name && |Strip(name)| <= 99 && (typeflag == REGULAR || typeflag == DIRECTORY)
    requires -INT_MAX - 1 <= size <= INT_MAX
    ensures Parse(Made(Strip(name), typeflag, size)) ==
      if typeflag == DIRECTORY then Entry(Strip(name), typeflag, 0)
      else if size >= 0 then Entry(Strip(name), typeflag, size)
      else Failed(TooLarge)
  {
    hide Filled, Made, Parse, Strip;
    StripNoNull(name);
    StripTwice(name);
    MadeFilled(Strip(name), typeflag, size);
    FilledParses(Made(Strip(name), typeflag, size), Strip(name), typeflag, AsUnsigned(size));
  }

  lemma NotZeros(h: Header)
    requires Field(h, 257, 6) == Padded(USTAR, 6)
    ensures h != Zeros(HEADER_SIZE)
  {
    assert Field(h, 257, 6)[0] == h[257] && Padded(USTAR, 6)[0] == 117;
  }

  lemma NameField(h: Header, n: seq<Byte>)
    requires |n| <= 99 && Field(h, 0, 100) == Padded(n, 100)
    ensures h[99] == 0
  {
    assert Field(h, 0, 100)[99] == h[99];
  }

  // ---------- the format ----------

  /** The `w` digits from `a` stand for `v`, and a null follows. */
  ghost predicate Says(h: Header, a: nat, w: nat, v: nat)
    requires a + w < HEADER_SIZE
  {
    OctalValue(h[a..a + w]) == v && h[a + w] == 0 && forall i :: a <= i < a + w ==> IsDigit(h[i])
  }

  lemma FieldSays(h: Header, a: nat, w: nat, v: nat)
    requires a + w < HEADER_SIZE && v < Pow8(w) && Field(h, a, w + 1) == OctalField(v, w)
    ensures Says(h, a, w, v)
  {
    hide Pow8;
    DigitsValue(v, w);
    var f := Field(h, a, w + 1);
    assert f[..w] == Digits(v, w) && f[..w] == h[a..a + w] && f[w] == h[a + w] == 0;
    forall i | a <= i < a + w ensures IsDigit(h[i]) {
      assert h[i] == f[i - a] == Digits(v, w)[i - a];
    }
  }

  lemma AttributeFields(name: seq<Byte>, typeflag: Byte, size: int)
    requires |name| <= 99
    ensures var h := Made(name, typeflag, size);
            && Field(h, 100, 8) == OctalField(if typeflag == REGULAR then 420 else 493, 7)
            && Field(h, 108, 8) == OctalField(0, 7) && Field(h, 116, 8) == OctalField(0, 7)
            && Field(h, 136, 12) == OctalField(MTIME, 11)
            && Field(h, 265, 32) == Padded(ROOT, 32) && Field(h, 297, 32) == Padded(ROOT, 32)
  {
    hide Sum, OctalField;
  }

  /** Where everything is in a header, by the offsets and forms of the ustar interchange format: name, mode
      rw-r--r-- or rwxr-xr-x, owner and group 0, size, time, checksum, type, magic and version, "root" twice. */
  ghost predicate Conforms(h: Header, name: seq<Byte>, typeflag: Byte, size: nat) {
    && |name| < 100 && h[..|name|] == name && (forall i :: |name| <= i < 100 ==> h[i] == 0)
    && Says(h, 100, 7, if typeflag == 48 then 0x1a4 else 0x1ed)
    && Says(h, 108, 7, 0) && Says(h, 116, 7, 0) && Says(h, 124, 11, size) && Says(h, 136, 11, 1136102400)
    && Says(h, 148, 7, ByteSum(Splice(h, 148, [32, 32, 32, 32, 32, 32, 32, 32])))
    && h[156] == typeflag && h[257..265] == [117, 115, 116, 97, 114, 0, 48, 48]
    && h[265..270] == [114, 111, 111, 116, 0] && h[297..302] == [114, 111, 111, 116, 0]
  }

  /** The header made for a file is such a header. */
  lemma HeaderSays(name: seq<Byte>, typeflag: Byte, size: nat)
    requires |name| <= 99 && size <= INT_MAX
    ensures Conforms(Made(name, typeflag, size), name, typeflag, size)
  {
    hide Made, Sum, OctalField, Pow8, ByteSum, Says, Field, Padded, Splice;
    var h := Made(name, typeflag, size);
    MadeFilled(name, typeflag, size);
    AttributeFields(name, typeflag, size);
    Pow8s();
    ChksumIs(h);
    FieldSays(h, 100, 7, if typeflag == REGULAR then 420 else 493);
    FieldSays(h, 108, 7, 0);
    FieldSays(h, 116, 7, 0);
    FieldSays(h, 124, 11, size);
    FieldSays(h, 136, 11, MTIME);
    FieldSays(h, 148, 7, Sum(h, HEADER_SIZE));
    TextFields(h, name, typeflag);
  }

  lemma TextFields(h: Header, name: seq<Byte>, typeflag: Byte)
    requires |name| <= 99 && Field(h, 0, 100) == Padded(name, 100) && Field(h, 156, 1) == [typeflag]
    requires Field(h, 257, 6) == Padded(USTAR, 6) && Field(h, 263, 2) == [ZERO, ZERO]
    requires Field(h, 265, 32) == Padded(ROOT, 32) && Field(h, 297, 32) == Padded(ROOT, 32)
    ensures h[..|name|] == name && (forall i :: |name| <= i < 100 ==> h[i] == 0) && h[156] == typeflag
    ensures h[257..265] == [117, 115, 116, 97, 114, 0, 48, 48]
    ensures h[265..270] == [114, 111, 111, 116, 0] && h[297..302] == [114, 111, 111, 116, 0]
  {
    assert h[..|name|] == Field(h, 0, 100)[..|name|] == name;
    forall i | |name| <= i < 100 ensures h[i] == 0 {
      assert h[i] == Field(h, 0, 100)[i];
    }
    assert h[156] == Field(h, 156, 1)[0];
    assert h[257..265] == Field(h, 257, 6) + Field(h, 263, 2);
    assert h[265..270] == Field(h, 265, 32)[..5] && h[297..302] == Field(h, 297, 32)[..5];
  }

  /** A header is taken for an entry exactly when it is one: magic and version, a checksum field that is
      well formed and right, a name that fits, a known type, and for a file a size of at most 2^31 - 1. */
  lemma AcceptedExactly(h: Header)
    ensures Parse(h).Entry? <==>
      && h[257..265] == [117, 115, 116, 97, 114, 0, 48, 48] && h[99] == 0 && h[345] == 0
      && WellFormed(h[148..156])
      && OctalValue(h[148..156][..DigitRun(h[148..156])]) == ByteSum(Splice(h, 148, [32, 32, 32, 32, 32, 32, 32, 32]))
      && (|| h[156] == 53
          || (h[156] == 48 && WellFormed(h[124..136])
              && OctalValue(h[124..136][..DigitRun(h[124..136])]) <= 0x7fff_ffff))
  {
    hide Sum, ByteSum, ParseFrom, Strip, CString, WellFormed, OctalValue, DigitRun;
    ChksumIs(h);
    ParseIs(h[148..156]);
    ParseIs(h[124..136]);
    MagicIs(h);
    if Field(h, 257, 6) == Padded(USTAR, 6) { NotZeros(h); }
  }

  lemma MagicIs(h: Header)
    ensures h[257..265] == [117, 115, 116, 97, 114, 0, 48, 48] <==>
            Field(h, 257, 6) == Padded(USTAR, 6) && Field(h, 263, 2) == [ZERO, ZERO]
  {
    var m := h[257..265];
    assert m[..6] == Field(h, 257, 6) && m[6..] == Field(h, 263, 2) && m == m[..6] + m[6..];
    assert Padded(USTAR, 6) == [117, 115, 116, 97, 114, 0];
    var t: seq<Byte> := [117, 115, 116, 97, 114, 0, 48, 48];
    assert t[..6] == Padded(USTAR, 6) && t[6..] == [ZERO, ZERO];
  }

  // ---------- the code ----------

  /** Copies `d` into the buffer at `a`. */
  method PutField(header: array<Byte>, a: nat, d: seq<Byte>)
    requires header.Length == HEADER_SIZE && a + |d| <= HEADER_SIZE
    modifies header
    ensures header[..] == Put(old(header[..]), a, d)
  {
    for i := 0 to |d|
      invariant forall k :: 0 <= k < HEADER_SIZE ==>
        header[k] == if a <= k < a + i then d[k - a] else old(header[k])
    {
      header[a + i] := d[i];
    }
  }

  /** strlcpy into a zeroed field, whose last byte stays null. */
  method PutString(header: array<Byte>, a: nat, s: seq<Byte>, n: nat)
    requires header.Length == HEADER_SIZE && a + n <= HEADER_SIZE && |s| < n
    requires forall k :: a <= k < a + n ==> header[k] == 0
    modifies header
    ensures header[..] == Put(old(header[..]), a, Padded(s, n))
  {
    PutField(header, a, s + [0]);
    assert Put(old(header[..]), a, s + [0]) == Put(old(header[..]), a, Padded(s, n));
  }

  /** snprintf of a "%0<w>o" conversion into a field of w + 1 bytes. */
  method PutOctal(header: array<Byte>, a: nat, v: nat, w: nat)
    requires header.Length == HEADER_SIZE && a + w + 1 <= HEADER_SIZE && 0 < w && v < Pow8(w)
    modifies header
    ensures header[..] == Put(old(header[..]), a, OctalField(v, w))
  {
    var digits := FormatOctal(v, w);
    PutField(header, a, digits + [0]);
  }

  /** ustar_make_header. */
  method MakeHeader(fileName: seq<Byte>, typeflag: Byte, size: int, header: array<Byte>) returns (ok: bool)
    requires header.Length == HEADER_SIZE && (typeflag == REGULAR || typeflag == DIRECTORY)
    requires -INT_MAX - 1 <= size <= INT_MAX
    modifies header
    ensures ok <==> |Strip(fileName)| <= 99
    ensures ok ==> header[..] == Made(Strip(fileName), typeflag, size)
    ensures !ok ==> header[..] == old(header[..])
  {
    hide Put, Digits, Pow8, Strip, Sum;
    var name := StripPrefixes(fileName);
    if |name| > 99 {
      return false;
    }
    FillHeader(name, typeflag, size, header);
    var chksum := CalculateChksum(header[..]);
    Pow8s();
    PutOctal(header, CHKSUM_AT, chksum, 7);
    ok := true;
  }

  /** Clears the header and fills the fields before the checksum in. */
  method FillAttributes(name: seq<Byte>, typeflag: Byte, size: int, header: array<Byte>)
    requires header.Length == HEADER_SIZE && |name| <= 99 && -INT_MAX - 1 <= size <= INT_MAX
    modifies header
    ensures header[..] == Attributes(name, typeflag, size)
  {
    hide Digits, Pow8;
    Pow8s();
    for i := 0 to HEADER_SIZE
      invariant forall k :: 0 <= k < i ==> header[k] == 0
    {
      header[i] := 0;
    }
    assert header[..] == Zeros(HEADER_SIZE);
    PutString(header, 0, name, 100);
    PutOctal(header, 100, if typeflag == REGULAR then 420 else 493, 7);
    PutOctal(header, 108, 0, 7);
    PutOctal(header, 116, 0, 7);
    PutOctal(header, 124, AsUnsigned(size), 11);
    PutOctal(header, 136, MTIME, 11);
  }

  /** Fills the header in but for its checksum. */
  method FillHeader(name: seq<Byte>, typeflag: Byte, size: int, header: array<Byte>)
    requires header.Length == HEADER_SIZE && |name| <= 99 && -INT_MAX - 1 <= size <= INT_MAX
    modifies header
    ensures header[..] == Unsummed(name, typeflag, size)
  {
    hide Attributes;
    FillAttributes(name, typeflag, size, header);
    assert forall k :: CHKSUM_AT <= k < HEADER_SIZE ==> header[..][k] == 0;
    PutField(header, 156, [typeflag]);
    PutString(header, 257, USTAR, 6);
    PutField(header, 263, [ZERO, ZERO]);
    PutString(header, 297, ROOT, 32);
    PutString(header, 265, ROOT, 32);
  }

  method IsAllZeros(h: Header) returns (r: bool)
    ensures r <==> h == Zeros(HEADER_SIZE)
  {
    for i := 0 to HEADER_SIZE
      invariant forall k :: 0 <= k < i ==> h[k] == 0
    {
      if h[i] != 0 {
        return false;
      }
    }
    r := true;
  }

  /** ustar_parse_header. */
  method ParseHeader(h: Header) returns (r: Parsed)
    ensures r == Parse(h)
  {
    hide Sum, ParseFrom, Strip, CString;
    var end := IsAllZeros(h);
    if end {
      return EndOfArchive;
    }
    if Field(h, 257, 6) != Padded(USTAR, 6) {
      return Failed(NotUstar);
    } else if h[263] != ZERO || h[264] != ZERO {
      return Failed(BadVersion);
    }
    var chksum := ParseOctalField(Field(h, CHKSUM_AT, CHKSUM_LEN));
    if chksum.None? {
      return Failed(BadChksumField);
    }
    var sum := CalculateChksum(h);
    if chksum.value != sum {
      return Failed(ChksumMismatch);
    } else if h[99] != 0 || h[345] != 0 {
      return Failed(NameTooLong);
    } else if h[156] != REGULAR && h[156] != DIRECTORY {
      return Failed(BadType);
    }
    var size := Some(0);
    if h[156] == REGULAR {
      size := ParseOctalField(Field(h, 124, 12));
      if size.None? {
        return Failed(BadSizeField);
      } else if size.value > INT_MAX {
        return Failed(TooLarge);
      }
    }
    var name := StripPrefixes(CString(Field(h, 0, 100)));
    r := Entry(name, h[156], size.value);
  }
}
