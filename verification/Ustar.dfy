/** ustar archive headers: src/lib/ustar.c, after the "ustar Interchange
    Format" of the pax utility in IEEE Std 1003.1. A header is 512 characters
    with codes below 256. */
module Ustar {
  import opened Options
  import opened NumberText

  // ------------------------------------------------------------- names

  /** A name that starts with "/", "./" or "../", which a naive extractor
      would resolve outside its directory. */
  predicate Antisocial(s: string) {
    || CharAt(s, 0) == '/'
    || (CharAt(s, 0) == '.' && CharAt(s, 1) == '/')
    || (CharAt(s, 0) == '.' && CharAt(s, 1) == '.' && CharAt(s, 2) == '/')
  }

  /** Where such a name has its first slash. */
  ghost function SlashIndex(s: string): (i: nat)
    requires Antisocial(s)
    ensures i < |s| && s[i] == '/' && forall j :: 0 <= j < i ==> s[j] != '/'
  {
    if CharAt(s, 0) == '/' then 0 else if CharAt(s, 1) == '/' then 1 else 2
  }

  /** strchr for a slash that is there. */
  method FirstSlash(s: string, ghost at: nat) returns (i: nat)
    requires at < |s| && s[at] == '/' && forall j :: 0 <= j < at ==> s[j] != '/'
    ensures i == at
  {
    i := 0;
    while s[i] != '/'
      invariant 0 <= i <= at
      decreases at - i
    {
      i := i + 1;
    }
  }

  /** The part of a name behind its antisocial prefixes. */
  ghost function Tail(s: string): (t: string)
    ensures |t| <= |s| && t == s[|s| - |t|..] && !Antisocial(t)
    decreases |s|
  {
    if Antisocial(s) then Tail(s[SlashIndex(s) + 1..]) else s
  }

  ghost function Strip(s: string): string {
    var t := Tail(s);
    if t == "" || t == ".." then "." else t
  }

  /** A stripped name is safe, and is "." or the end of the original. */
  lemma StripSafe(s: string)
    ensures !Antisocial(Strip(s)) && Strip(s) != "" && Strip(s) != ".."
    ensures Strip(s) == "." || exists k :: 0 <= k <= |s| && Strip(s) == s[k..]
  {
    var t := Tail(s);
    assert t == s[|s| - |t|..];
  }

  /** Stripping twice is stripping once. */
  lemma StripTwice(s: string)
    ensures Strip(Strip(s)) == Strip(s)
  {
    hide Antisocial;
    StripSafe(s);
    var r := Strip(s);
    assert Tail(r) == r;
  }

  ghost predicate Escapes(s: string) {
    "/" <= s || "./" <= s || "../" <= s
  }

  /** What stripping drops, one prefix at a time, and that it drops nothing
      else. */
  lemma StripLaws(s: string)
    ensures Strip("/" + s) == Strip(s) && Strip("./" + s) == Strip(s) && Strip("../" + s) == Strip(s)
    ensures !Escapes(s) ==> Strip(s) == if s == "" || s == ".." then "." else s
    ensures !Escapes(Strip(s))
  {
    hide Antisocial, Tail, Escapes;
    DropPrefix("/", s);
    DropPrefix("./", s);
    DropPrefix("../", s);
    StartsWith(s);
    StartsWith(Strip(s));
    StripSafe(s);
    if !Antisocial(s) {
      TailIsAll(s);
    }
  }

  lemma DropPrefix(p: string, s: string)
    requires p == "/" || p == "./" || p == "../"
    ensures Tail(p + s) == Tail(s)
  {
    var t := p + s;
    assert t[|p|..] == s && t[|p| - 1] == '/';
    assert forall i :: 0 <= i < |p| - 1 ==> t[i] == p[i] == '.';
    assert Antisocial(t) && SlashIndex(t) == |p| - 1;
  }

  lemma TailIsAll(s: string)
    requires !Antisocial(s)
    ensures Tail(s) == s
  {
  }

  lemma StartsWith(s: string)
    ensures Antisocial(s) <==> Escapes(s)
  {
  }

  /** strip_antisocial_prefixes */
  method StripPrefixes(fileName: string) returns (r: string)
    ensures r == Strip(fileName)
  {
    var s := fileName;
    while Antisocial(s)
      invariant Tail(s) == Tail(fileName)
      decreases |s|
    {
      var i := FirstSlash(s, SlashIndex(s));
      s := s[i + 1..];
    }
    r := if s == "" || s == ".." then "." else s;
  }

  // ---------------------------------------------------------- checksum

  ghost predicate IsHeader(h: seq<char>) {
    |h| == 512 && forall i :: 0 <= i < 512 ==> h[i] as int < 256
  }

  /** What position `i` adds to the checksum: the checksum's own field counts
      as spaces. */
  function Weight(h: seq<char>, i: nat): nat
    requires i < |h|
  {
    if 148 <= i < 156 then 32 else h[i] as int
  }

  ghost function Sum(h: seq<char>, n: nat): nat
    requires n <= |h|
  {
    if n == 0 then 0 else Sum(h, n - 1) + Weight(h, n - 1)
  }

  /** The sum of the bytes of `s`. */
  ghost function ByteSum(s: seq<char>): nat {
    if s == [] then 0 else ByteSum(s[..|s| - 1]) + s[|s| - 1] as int
  }

  /** A header with its checksum field filled with spaces. */
  ghost function Blanked(h: seq<char>): (g: seq<char>)
    requires |h| == 512
    ensures |g| == 512
  {
    h[..148] + "        " + h[156..]
  }

  lemma {:induction false} SumOfBlanked(h: seq<char>, n: nat)
    requires |h| == 512 && n <= 512
    ensures Sum(h, n) == ByteSum(Blanked(h)[..n])
  {
    if n > 0 {
      SumOfBlanked(h, n - 1);
      var g := Blanked(h)[..n];
      assert g[..n - 1] == Blanked(h)[..n - 1] && g[n - 1] == Blanked(h)[n - 1];
      BlankedAt(h, n - 1);
    }
  }

  lemma BlankedAt(h: seq<char>, i: nat)
    requires |h| == 512 && i < 512
    ensures Blanked(h)[i] as int == Weight(h, i)
  {
    var blanks := "        ";
    assert forall k :: 0 <= k < 8 ==> blanks[k] == ' ';
    assert Blanked(h)[i] == if i < 148 then h[i] else if i < 156 then blanks[i - 148] else h[i];
  }

  /** calculate_chksum: the sum of all bytes, the checksum field counting as
      eight spaces. */
  method CalculateChksum(h: seq<char>) returns (sum: int)
    requires IsHeader(h)
    ensures sum == ByteSum(h[..148] + "        " + h[156..])
    ensures sum == Sum(h, 512) && 0 <= sum < 0x4_0000
  {
    SumOfBlanked(h, 512);
    assert Blanked(h)[..512] == Blanked(h);
    sum := 0;
    var i := 0;
    while i < 512
      invariant 0 <= i <= 512 && sum == Sum(h, i) && 0 <= sum <= 256 * i
    {
      sum := sum + Weight(h, i);
      i := i + 1;
    }
  }

  lemma {:induction false} SumRange(h: seq<char>, n: nat)
    requires IsHeader(h) && n <= 512
    ensures 0 <= Sum(h, n) <= 256 * n
  {
    if n > 0 {
      SumRange(h, n - 1);
    }
  }

  lemma {:induction false} SumSame(g: seq<char>, h: seq<char>, n: nat)
    requires |g| == |h| && n <= |h|
    requires forall i :: 0 <= i < n && !(148 <= i < 156) ==> g[i] == h[i]
    ensures Sum(g, n) == Sum(h, n)
  {
    if n > 0 {
      SumSame(g, h, n - 1);
    }
  }

  /** A change of one byte outside the checksum field changes the sum. */
  lemma {:induction false} SumChanges(g: seq<char>, h: seq<char>, k: nat, n: nat)
    requires |g| == |h| && k < n <= |h| && !(148 <= k < 156) && g[k] != h[k]
    requires forall i :: 0 <= i < |h| && i != k ==> g[i] == h[i]
    ensures Sum(g, n) != Sum(h, n)
  {
    if n == k + 1 {
      SumSame(g, h, k);
    } else {
      SumChanges(g, h, k, n - 1);
    }
  }

  // ------------------------------------------------------ octal fields

  predicate IsOctal(c: char) { '0' <= c <= '7' }

  /** The value of an octal field: digits ended by a space or null within the
      field, denoting a 32-bit number. */
  ghost function OctalField(s: seq<char>): Option<int> {
    var k := RunLength(s, IsOctal);
    if 0 < k < |s| && (s[k] == ' ' || s[k] == '\0') && Value(s[..k], 8) <= 0xffff_ffff then Some(Value(s[..k], 8))
    else None
  }

  lemma {:induction false} OctalPrefix(s: string, k: nat)
    requires k <= |s| && forall i :: 0 <= i < |s| ==> IsOctal(s[i])
    ensures 0 <= Value(s[..k], 8) <= Value(s, 8)
    decreases |s|
  {
    if k < |s| {
      OctalPrefix(s[..|s| - 1], k);
      assert s[..|s| - 1][..k] == s[..k];
    } else {
      assert s[..k] == s;
      if s != "" {
        OctalPrefix(s[..|s| - 1], |s| - 1);
        assert s[..|s| - 1][..|s| - 1] == s[..|s| - 1];
      }
    }
  }

  /** parse_octal_field, with a 32-bit unsigned long. */
  method ParseOctalField(s: seq<char>) returns (r: Option<int>)
    ensures r == OctalField(s)
  {
    ghost var n := RunLength(s, IsOctal);
    ghost var d := s[..n];
    var value := 0;
    var ofs := 0;
    assert d[..0] == "";
    while ofs < |s|
      invariant 0 <= ofs <= n && value == Value(d[..ofs], 8) && 0 <= value <= 0xffff_ffff
    {
      var c := s[ofs];
      if IsOctal(c) {
        assert ofs < n;
        assert d[..ofs + 1][..ofs] == d[..ofs];
        OctalPrefix(d, ofs + 1);
        if value > 0xffff_ffff / 8 {
          return None;
        }
        value := c as int - '0' as int + value * 8;
        ofs := ofs + 1;
      } else {
        assert d[..n] == d;
        return if (c == ' ' || c == '\0') && ofs > 0 then Some(value) else None;
      }
    }
    return None;
  }

  // ----------------------------------------------------------- parsing

  datatype Parsed = Eof | File(name: string, typeflag: char, size: int) | Failed(message: string)

  /** The string at the start of a field. */
  function CString(s: seq<char>): string {
    if s == [] || s[0] == '\0' then "" else [s[0]] + CString(s[1..])
  }

  ghost predicate AllZeros(h: seq<char>) {
    forall i :: 0 <= i < |h| ==> h[i] == '\0'
  }

  /** What is wrong with a header that is not all zeros, up to and including
      the checksum; "" for nothing. */
  ghost function HeadFault(h: seq<char>): string
    requires |h| == 512
  {
    if h[257..263] != "ustar\0" then "not a ustar archive"
    else if h[263] != '0' || h[264] != '0' then "invalid ustar version"
    else if OctalField(h[148..156]).None? then "corrupt chksum field"
    else if OctalField(h[148..156]).value != Sum(h, 512) then "checksum mismatch"
    else ""
  }

  /** What is wrong with the rest. */
  ghost function FileFault(h: seq<char>): string
    requires |h| == 512
  {
    if h[99] != '\0' || h[345] != '\0' then "file name too long"
    else if h[156] != '0' && h[156] != '5' then "unimplemented file type"
    else if h[156] == '0' && OctalField(h[124..136]).None? then "corrupt file size field"
    else if h[156] == '0' && OctalField(h[124..136]).value > 0x7fff_ffff then "file too large"
    else ""
  }

  ghost function ParseResult(h: seq<char>): Parsed
    requires |h| == 512
  {
    if AllZeros(h) then Eof
    else if HeadFault(h) != "" then Failed(HeadFault(h))
    else if FileFault(h) != "" then Failed(FileFault(h))
    else File(Strip(CString(h[0..100])), h[156], if h[156] == '0' then OctalField(h[124..136]).value else 0)
  }

  /** is_all_zeros */
  method IsAllZeros(h: seq<char>) returns (r: bool)
    ensures r <==> AllZeros(h)
  {
    var i := 0;
    while i < |h|
      invariant 0 <= i <= |h| && forall j :: 0 <= j < i ==> h[j] == '\0'
    {
      if h[i] != '\0' {
        return false;
      }
      i := i + 1;
    }
    r := true;
  }

  /** ustar_parse_header */
  method ParseHeader(h: seq<char>) returns (r: Parsed)
    requires IsHeader(h)
    ensures r == ParseResult(h)
  {
    hide OctalField, Sum, Strip, CString, IsHeader, AllZeros;
    assert |h| == 512 by { HeaderSize(h); }
    var zeros := IsAllZeros(h);
    if zeros {
      return Eof;
    }
    if h[257..263] != "ustar\0" {
      return Failed("not a ustar archive");
    } else if h[263] != '0' || h[264] != '0' {
      return Failed("invalid ustar version");
    }
    var chksum := ParseOctalField(h[148..156]);
    if chksum.None? {
      return Failed("corrupt chksum field");
    }
    var sum := CalculateChksum(h);
    if chksum.value != sum {
      return Failed("checksum mismatch");
    }
    r := ParseFile(h);
  }

  lemma HeaderSize(h: seq<char>)
    requires IsHeader(h)
    ensures |h| == 512
  {
  }

  /** The fields behind the checksum. */
  method ParseFile(h: seq<char>) returns (r: Parsed)
    requires |h| == 512
    ensures r == if FileFault(h) != "" then Failed(FileFault(h))
      else File(Strip(CString(h[0..100])), h[156], if h[156] == '0' then OctalField(h[124..136]).value else 0)
  {
    hide OctalField, Strip, CString;
    if h[99] != '\0' || h[345] != '\0' {
      return Failed("file name too long");
    } else if h[156] != '0' && h[156] != '5' {
      return Failed("unimplemented file type");
    }
    var size := 0;
    if h[156] == '0' {
      var field := ParseOctalField(h[124..136]);
      if field.None? {
        return Failed("corrupt file size field");
      } else if field.value > 0x7fff_ffff {
        return Failed("file too large");
      }
      size := field.value;
    }
    var name := StripPrefixes(CString(h[0..100]));
    r := File(name, h[156], size);
  }

  /** A valid header with one byte changed outside the checksum field is not
      valid any more. */
  lemma ChangeDetected(g: seq<char>, h: seq<char>, k: nat)
    requires |g| == 512 && |h| == 512 && ParseResult(g).File?
    requires k < 512 && !(148 <= k < 156) && h[k] != g[k]
    requires forall i :: 0 <= i < 512 && i != k ==> h[i] == g[i]
    ensures ParseResult(h).Failed?
  {
    hide OctalField, Sum, Strip, CString, FileFault;
    SumChanges(h, g, k, 512);
    assert h[148..156] == g[148..156];
    assert g[257..263][0] == 'u' && g[257..263][1] == 's';
    assert h[257] == 'u' || h[258] == 's';
    assert HeadFault(g) == "";
  }

  // ------------------------------------------------------------ making

  function FieldChar(text: string, k: nat): char {
    if k < |text| then text[k] else '\0'
  }

  /** An int passed to a `%o` conversion. */
  function Unsigned(size: int): nat
    requires -0x8000_0000 <= size < 0x8000_0000
  {
    if size < 0 then size + 0x1_0000_0000 else size
  }

  function Mode(typeflag: char): nat {
    if typeflag == '0' then 420 else 493
  }

  /** Character `i` of a header whose checksum is still to be filled in. */
  ghost function TemplateChar(name: string, typeflag: char, size: nat, i: nat): char {
    if i < 100 then FieldChar(name, i)
    else if i < 108 then FieldChar(Octal(Mode(typeflag), 7), i - 100)
    else if i < 116 then FieldChar("0000000", i - 108)
    else if i < 124 then FieldChar("0000000", i - 116)
    else if i < 136 then FieldChar(Octal(size, 11), i - 124)
    else if i < 148 then FieldChar(Octal(1136102400, 11), i - 136)
    else if i < 156 then '\0'
    else if i == 156 then typeflag
    else if i < 257 then '\0'
    else if i < 263 then FieldChar("ustar", i - 257)
    else if i < 265 then '0'
    else if i < 297 then FieldChar("root", i - 265)
    else if i < 329 then FieldChar("root", i - 297)
    else '\0'
  }

  ghost function Template(name: string, typeflag: char, size: nat): (t: seq<char>)
    ensures |t| == 512
    ensures forall i :: 0 <= i < 512 ==> t[i] == TemplateChar(name, typeflag, size, i)
  {
    seq(512, i requires 0 <= i < 512 => TemplateChar(name, typeflag, size, i))
  }

  /** A C string of byte-sized characters. */
  ghost predicate IsName(s: string) {
    forall i :: 0 <= i < |s| ==> s[i] != '\0' && s[i] as int < 256
  }

  /** `h` is the header for a file: the template with its checksum. */
  ghost predicate Made(h: seq<char>, name: string, typeflag: char, size: nat) {
    && |h| == 512
    && (forall i :: 0 <= i < 512 && !(148 <= i < 156) ==> h[i] == TemplateChar(name, typeflag, size, i))
    && h[148..156] == Octal(Sum(Template(name, typeflag, size), 512), 7) + "\0"
  }

  /** A field of digits ended by a null reads as their value. */
  lemma OctalRoundTrip(v: nat, width: nat)
    requires 0 < width && v < Pow8(width) && v <= 0xffff_ffff
    ensures OctalField(Octal(v, width) + "\0") == Some(v)
  {
    hide Octal, Value;
    OctalText(v, width);
    var d := Octal(v, width);
    var s := d + "\0";
    assert forall i :: 0 <= i < width ==> s[i] == d[i] && IsOctal(s[i]);
    RunLengthIs(s, IsOctal, width);
    assert s[..width] == d;
  }

  lemma {:induction false} CStringField(s: seq<char>, name: string)
    requires |name| < |s| && IsName(name)
    requires (forall i :: 0 <= i < |name| ==> s[i] == name[i]) && s[|name|] == '\0'
    ensures CString(s) == name
  {
    if name != "" {
      assert s[0] == name[0];
      CStringField(s[1..], name[1..]);
    }
  }

  lemma Pow8Bounds()
    ensures Pow8(7) == 0x20_0000 && Pow8(11) == 0x2_0000_0000
  {
    assert Pow8(4) == 4096;
    assert Pow8(8) == 4096 * 4096;
  }

  /** Parsing a made header gives back the stripped name, the type, and for a
      regular file the size; a negative size is found out. */
  lemma MakeThenParse(h: seq<char>, fileName: string, typeflag: char, size: int)
    requires IsName(fileName) && (typeflag == '0' || typeflag == '5') && -0x8000_0000 <= size < 0x8000_0000
    requires |Strip(fileName)| <= 99 && Made(h, Strip(fileName), typeflag, Unsigned(size))
    ensures ParseResult(h) ==
      if typeflag == '0' && size < 0 then Failed("file too large")
      else File(Strip(fileName), typeflag, if typeflag == '0' then size else 0)
  {
    hide Octal, OctalField, Strip, Sum, CString, Template, Antisocial;
    var name, n := Strip(fileName), Unsigned(size);
    var t := Template(name, typeflag, n);
    StripTwice(fileName);
    StripIsName(fileName);
    TemplateIsHeader(name, typeflag, n);
    Pow8Bounds();
    SumRange(t, 512);
    OctalRoundTrip(Sum(t, 512), 7);
    SumSame(h, t, 512);
    OctalRoundTrip(n, 11);
    SizeField(h, name, typeflag, n);
    CStringField(h[0..100], name);
    MagicField(h, name, typeflag, n);
  }

  lemma StripIsName(s: string)
    requires IsName(s)
    ensures IsName(Strip(s))
  {
    var t := Tail(s);
    assert t == s[|s| - |t|..];
  }

  lemma TemplateIsHeader(name: string, typeflag: char, size: nat)
    requires IsName(name) && (typeflag == '0' || typeflag == '5') && size < 0x2_0000_0000
    ensures IsHeader(Template(name, typeflag, size))
  {
    hide Octal;
    Pow8Bounds();
    OctalText(Mode(typeflag), 7);
    OctalText(size, 11);
    OctalText(1136102400, 11);
  }

  lemma SizeField(h: seq<char>, name: string, typeflag: char, size: nat)
    requires Made(h, name, typeflag, size) && size < 0x2_0000_0000
    ensures h[124..136] == Octal(size, 11) + "\0"
  {
    hide Octal, Sum, Template;
    Pow8Bounds();
    OctalText(size, 11);
    var s, d := h[124..136], Octal(size, 11) + "\0";
    forall i | 0 <= i < 12
      ensures s[i] == d[i]
    {
      assert s[i] == h[124 + i];
    }
  }

  /** What a reader finds in the numeric fields: permissions 644 for a file
      and 755 for a directory, owner and group 0, the size, and a time. */
  lemma NumberFields(h: seq<char>, name: string, typeflag: char, size: nat)
    requires Made(h, name, typeflag, size) && (typeflag == '0' || typeflag == '5') && size <= 0xffff_ffff
    ensures OctalField(h[100..108]) == Some(if typeflag == '0' then 6 * 64 + 4 * 8 + 4 else 7 * 64 + 5 * 8 + 5)
    ensures h[108..116] == "0000000\0" && h[116..124] == "0000000\0"
    ensures OctalField(h[124..136]) == Some(size) && OctalField(h[136..148]) == Some(1136102400)
  {
    hide Octal, Sum, Template, OctalField;
    Pow8Bounds();
    OctalField8(h, 100, 7, Mode(typeflag)) by {
      assert forall k :: 0 <= k < 8 ==> h[100 + k] == FieldChar(Octal(Mode(typeflag), 7), k);
    }
    OctalField8(h, 124, 11, size) by {
      assert forall k :: 0 <= k < 12 ==> h[124 + k] == FieldChar(Octal(size, 11), k);
    }
    OctalField8(h, 136, 11, 1136102400) by {
      assert forall k :: 0 <= k < 12 ==> h[136 + k] == FieldChar(Octal(1136102400, 11), k);
    }
    var zeros := "0000000\0";
    assert forall k :: 0 <= k < 8 ==> FieldChar("0000000", k) == zeros[k];
    assert forall k :: 0 <= k < 8 ==> h[108 + k] == zeros[k] && h[116 + k] == zeros[k];
  }

  lemma OctalField8(h: seq<char>, at: nat, width: nat, v: nat)
    requires 0 < width && at + width < |h| && v < Pow8(width) && v <= 0xffff_ffff
    requires forall k :: 0 <= k <= width ==> h[at + k] == FieldChar(Octal(v, width), k)
    ensures OctalField(h[at..at + width + 1]) == Some(v)
  {
    hide Octal, OctalField;
    OctalText(v, width);
    OctalRoundTrip(v, width);
    var f, d := h[at..at + width + 1], Octal(v, width) + "\0";
    forall k | 0 <= k <= width
      ensures f[k] == d[k]
    {
      assert f[k] == h[at + k] == FieldChar(Octal(v, width), k);
    }
    assert f == d;
  }

  lemma MagicField(h: seq<char>, name: string, typeflag: char, size: nat)
    requires Made(h, name, typeflag, size) && (typeflag == '0' || typeflag == '5') && |name| <= 99
    ensures h[257..263] == "ustar\0" && h[263] == '0' && h[264] == '0'
    ensures !AllZeros(h) && h[99] == '\0' && h[345] == '\0' && h[156] == typeflag
  {
    hide Octal, Sum, Template;
    assert h[257] == 'u' && h[258] == 's' && h[259] == 't' && h[260] == 'a' && h[261] == 'r' && h[262] == '\0';
  }

  // The header being filled in: the first `n` characters are done, and the
  // others are still zero.
  ghost predicate DoneUpTo(h: seq<char>, t: seq<char>, n: nat) {
    && |h| == 512 && |t| == 512 && n <= 512
    && (forall i :: 0 <= i < n ==> h[i] == t[i])
    && (forall i :: n <= i < 512 ==> h[i] == '\0')
  }

  ghost predicate FieldAt(t: seq<char>, at: nat, size: nat, text: string) {
    at + size <= |t| && forall k :: 0 <= k < size ==> t[at + k] == FieldChar(text, k)
  }

  /** strlcpy of `text` into the field of `size` characters at `at`. */
  method PutString(h: array<char>, at: nat, size: nat, text: string)
    requires at + size <= h.Length && |text| < size
    modifies h
    ensures forall k :: 0 <= k <= |text| ==> h[at + k] == FieldChar(text, k)
    ensures forall i :: 0 <= i < h.Length && !(at <= i <= at + |text|) ==> h[i] == old(h[i])
  {
    var k := 0;
    while k < |text|
      invariant 0 <= k <= |text|
      invariant forall j :: 0 <= j < k ==> h[at + j] == text[j]
      invariant forall i :: 0 <= i < h.Length && !(at <= i < at + k) ==> h[i] == old(h[i])
    {
      h[at + k] := text[k];
      k := k + 1;
    }
    h[at + |text|] := '\0';
  }

  method FillString(h: array<char>, at: nat, size: nat, text: string, ghost t: seq<char>)
    requires h.Length == 512 && at + size <= 512 && |text| < size && DoneUpTo(h[..], t, at)
    requires FieldAt(t, at, size, text)
    modifies h
    ensures DoneUpTo(h[..], t, at + size)
  {
    PutString(h, at, size, text);
    forall i | at <= i < at + size
      ensures h[i] == t[i]
    {
      assert t[at + (i - at)] == FieldChar(text, i - at);
      assert i <= at + |text| ==> h[at + (i - at)] == FieldChar(text, i - at);
    }
  }

  /** snprintf with `%0wo` into a field that the digits and a null just fill. */
  method FillOctal(h: array<char>, at: nat, size: nat, value: nat, ghost t: seq<char>)
    requires h.Length == 512 && at + size <= 512 && 1 < size <= 20 && value < Pow8(size - 1)
    requires DoneUpTo(h[..], t, at) && value < 0x1_0000_0000_0000_0000
    requires FieldAt(t, at, size, Octal(value, size - 1))
    modifies h
    ensures DoneUpTo(h[..], t, at + size)
  {
    hide Render;
    OctalText(value, size - 1);
    ghost var text := Octal(value, size - 1);
    var _ := Snprintf(h, at, size, value, false, false, BaseO(), ZeroConversion(size - 1));
    forall i | at <= i < at + size
      ensures h[i] == t[i]
    {
      assert t[at + (i - at)] == FieldChar(text, i - at);
      assert i < at + size - 1 ==> h[at + (i - at)] == text[i - at];
    }
  }

  lemma TemplateFields(name: string, typeflag: char, size: nat)
    ensures var t := Template(name, typeflag, size);
      && FieldAt(t, 0, 100, name)
      && FieldAt(t, 100, 8, Octal(Mode(typeflag), 7))
      && FieldAt(t, 108, 8, "0000000") && FieldAt(t, 116, 8, "0000000")
      && FieldAt(t, 124, 12, Octal(size, 11)) && FieldAt(t, 136, 12, Octal(1136102400, 11))
      && FieldAt(t, 148, 8, "") && t[156] == typeflag && FieldAt(t, 157, 100, "")
      && FieldAt(t, 257, 6, "ustar") && t[263] == '0' && t[264] == '0'
      && FieldAt(t, 265, 32, "root") && FieldAt(t, 297, 32, "root") && FieldAt(t, 329, 183, "")
  {
    hide Octal, Mode;
  }

  /** Fields that stay zero. */
  lemma SkipZeros(h: seq<char>, t: seq<char>, at: nat, size: nat)
    requires DoneUpTo(h, t, at) && FieldAt(t, at, size, "")
    ensures DoneUpTo(h, t, at + size)
  {
    forall i | at <= i < at + size
      ensures t[i] == '\0'
    {
      assert t[at + (i - at)] == FieldChar("", i - at);
    }
  }

  /** The group's and the user's name, in that order. */
  method FillNames(h: array<char>, ghost t: seq<char>)
    requires h.Length == 512 && DoneUpTo(h[..], t, 265)
    requires FieldAt(t, 265, 32, "root") && FieldAt(t, 297, 32, "root")
    modifies h
    ensures DoneUpTo(h[..], t, 329)
  {
    PutString(h, 297, 32, "root");
    PutString(h, 265, 32, "root");
    forall i | 265 <= i < 329
      ensures h[i] == t[i]
    {
      if i < 297 {
        assert t[265 + (i - 265)] == FieldChar("root", i - 265);
        assert i <= 269 ==> h[265 + (i - 265)] == FieldChar("root", i - 265);
      } else {
        assert t[297 + (i - 297)] == FieldChar("root", i - 297);
        assert i <= 301 ==> h[297 + (i - 297)] == FieldChar("root", i - 297);
      }
    }
  }

  /** The fields before the checksum. */
  method FillFront(h: array<char>, name: string, typeflag: char, size: nat, ghost t: seq<char>)
    requires h.Length == 512 && |name| <= 99 && size <= 0xffff_ffff && (typeflag == '0' || typeflag == '5')
    requires t == Template(name, typeflag, size) && DoneUpTo(h[..], t, 0)
    modifies h
    ensures DoneUpTo(h[..], t, 148)
  {
    hide Octal, DoneUpTo, FieldAt, Template;
    TemplateFields(name, typeflag, size);
    Pow8Bounds();
    FillString(h, 0, 100, name, t);
    FillOctal(h, 100, 8, Mode(typeflag), t);
    FillString(h, 108, 8, "0000000", t);
    FillString(h, 116, 8, "0000000", t);
    FillOctal(h, 124, 12, size, t);
    FillOctal(h, 136, 12, 1136102400, t);
  }

  /** The fields behind it. */
  method FillBack(h: array<char>, name: string, typeflag: char, size: nat, ghost t: seq<char>)
    requires h.Length == 512 && t == Template(name, typeflag, size) && DoneUpTo(h[..], t, 148)
    modifies h
    ensures DoneUpTo(h[..], t, 512)
  {
    hide Octal, FieldAt, Template;
    TemplateFields(name, typeflag, size);
    SkipZeros(h[..], t, 148, 8);
    h[156] := typeflag;
    assert DoneUpTo(h[..], t, 157);
    SkipZeros(h[..], t, 157, 100);
    FillString(h, 257, 6, "ustar", t);
    h[263], h[264] := '0', '0';
    assert DoneUpTo(h[..], t, 265);
    FillNames(h, t);
    SkipZeros(h[..], t, 329, 183);
  }

  /** ustar_make_header: the header is complete, or the stripped name is too
      long and nothing is written. */
  method MakeHeader(h: array<char>, fileName: string, typeflag: char, size: int) returns (ok: bool)
    requires h.Length == 512 && IsName(fileName) && (typeflag == '0' || typeflag == '5')
    requires -0x8000_0000 <= size < 0x8000_0000
    modifies h
    ensures ok <==> |Strip(fileName)| <= 99
    ensures !ok ==> h[..] == old(h[..])
    ensures ok ==> Made(h[..], Strip(fileName), typeflag, Unsigned(size))
  {
    hide Octal, DoneUpTo, Template, Strip, Sum;
    var name := StripPrefixes(fileName);
    if |name| > 99 {
      return false;
    }
    forall i | 0 <= i < 512 {
      h[i] := '\0';
    }
    ghost var t := Template(name, typeflag, Unsigned(size));
    assert DoneUpTo(h[..], t, 0) by { AllZeroStart(h[..], t); }
    FillFront(h, name, typeflag, Unsigned(size), t);
    FillBack(h, name, typeflag, Unsigned(size), t);
    DoneIsTemplate(h[..], t);
    StripIsName(fileName);
    TemplateIsHeader(name, typeflag, Unsigned(size));
    FillChksum(h, t);
    ok := true;
  }

  lemma AllZeroStart(h: seq<char>, t: seq<char>)
    requires |h| == 512 && |t| == 512 && AllZeros(h)
    ensures DoneUpTo(h, t, 0)
  {
  }

  lemma DoneIsTemplate(h: seq<char>, t: seq<char>)
    requires DoneUpTo(h, t, 512)
    ensures h == t
  {
  }

  /** The checksum of the finished header, into its field. */
  method FillChksum(h: array<char>, ghost t: seq<char>)
    requires h.Length == 512 && h[..] == t && IsHeader(t)
    modifies h
    ensures forall i :: 0 <= i < 512 && !(148 <= i < 156) ==> h[i] == t[i]
    ensures h[148..156] == Octal(Sum(t, 512), 7) + "\0"
  {
    hide Render, Sum;
    var sum := CalculateChksum(h[..]);
    Pow8Bounds();
    OctalText(sum, 7);
    ghost var text := Octal(sum, 7);
    var _ := Snprintf(h, 148, 8, sum, false, false, BaseO(), ZeroConversion(7));
    ghost var s, d := h[148..156], text + "\0";
    forall i | 0 <= i < 8
      ensures s[i] == d[i]
    {
      assert s[i] == h[148 + i];
      assert i < 7 ==> h[148 + i] == text[i];
    }
  }

  /** Making a header and parsing it, for every name that fits, every type and
      every size an int can hold. */
  method RoundTrip(fileName: string, typeflag: char, size: int) returns (r: Parsed)
    requires IsName(fileName) && (typeflag == '0' || typeflag == '5') && 0 <= size < 0x8000_0000
    requires |Strip(fileName)| <= 99
    ensures r == File(Strip(fileName), typeflag, if typeflag == '0' then size else 0)
  {
    hide Made, Strip, ParseResult, IsName;
    var h := new char[512](_ => '\0');
    var ok := MakeHeader(h, fileName, typeflag, size);
    MadeIsHeader(h[..], fileName, typeflag, size);
    MakeThenParse(h[..], fileName, typeflag, size);
    r := ParseHeader(h[..]);
  }

  lemma MadeIsHeader(h: seq<char>, fileName: string, typeflag: char, size: nat)
    requires Made(h, Strip(fileName), typeflag, size) && IsName(fileName) && size < 0x8000_0000
    requires typeflag == '0' || typeflag == '5'
    ensures IsHeader(h)
  {
    hide Octal, Strip, Sum, Template;
    var t := Template(Strip(fileName), typeflag, size);
    StripIsName(fileName);
    TemplateIsHeader(Strip(fileName), typeflag, size);
    SumRange(t, 512);
    Pow8Bounds();
    OctalText(Sum(t, 512), 7);
    forall i | 0 <= i < 512
      ensures h[i] as int < 256
    {
      if 148 <= i < 156 {
        assert h[i] == h[148..156][i - 148];
      } else {
        assert h[i] == t[i];
      }
    }
  }
}
