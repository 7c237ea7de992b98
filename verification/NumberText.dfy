/** Printing integers (format_integer and vsnprintf of src/lib/stdio.c) and
    reading them back (atoi of src/lib/stdlib.c). */
module NumberText {

  // ------------------------------------------------ numbers as digits

  /** struct integer_base; `x` is the null character for none. */
  datatype Base = Base(base: int, digits: string, x: char, group: int)

  function BaseD(): Base { Base(10, "0123456789", '\0', 3) }
  function BaseO(): Base { Base(8, "01234567", '\0', 3) }
  function BaseX(): Base { Base(16, "0123456789abcdef", 'x', 4) }
  function BaseUpperX(): Base { Base(16, "0123456789ABCDEF", 'X', 4) }

  predicate Known(b: Base) {
    b == BaseD() || b == BaseO() || b == BaseX() || b == BaseUpperX()
  }

  predicate IsDigit(c: char) { '0' <= c <= '9' }

  /** The value of a digit in any of the bases. */
  function DigitValue(c: char): int {
    if IsDigit(c) then c as int - '0' as int
    else if 'a' <= c <= 'f' then c as int - 'a' as int + 10
    else if 'A' <= c <= 'F' then c as int - 'A' as int + 10
    else 0
  }

  lemma DigitsRead(b: Base, d: int)
    requires Known(b) && 0 <= d < b.base
    ensures |b.digits| == b.base && 8 <= b.base <= 16 && 3 <= b.group <= 4
    ensures DigitValue(b.digits[d]) == d && b.digits[d] != ','
    ensures b.base <= 10 ==> IsDigit(b.digits[d]) && (d == 0 <==> b.digits[d] == '0')
  {
  }

  /** The characters format_integer stores for `value`, least digit first,
      when `cnt` digits came before. */
  function RevDigits(value: nat, b: Base, group: bool, cnt: nat): string
    requires Known(b)
  {
    if value == 0 then ""
    else (if group && cnt > 0 && cnt % b.group == 0 then "," else "")
         + [b.digits[value % b.base]] + RevDigits(value / b.base, b, group, cnt + 1)
  }

  /** The number that such characters stand for; commas do not count. */
  ghost function RevValue(s: string, base: int): int {
    if s == "" then 0
    else if s[0] == ',' then RevValue(s[1..], base)
    else DigitValue(s[0]) + base * RevValue(s[1..], base)
  }

  /** The number that digits stand for, greatest first. */
  ghost function Value(s: string, base: int): int {
    if s == "" then 0 else Value(s[..|s| - 1], base) * base + DigitValue(s[|s| - 1])
  }

  function Reverse(s: string): (r: string)
    ensures |r| == |s|
  {
    if s == "" then "" else Reverse(s[1..]) + [s[0]]
  }

  lemma RevCons(c: char, s: string, base: int)
    ensures c != ',' ==> RevValue([c] + s, base) == DigitValue(c) + base * RevValue(s, base)
    ensures RevValue("," + s, base) == RevValue(s, base)
  {
    assert ([c] + s)[1..] == s && ("," + s)[1..] == s;
  }

  lemma DivMod(v: nat, d: int)
    requires d == 8 || d == 10 || d == 16
    ensures v % d + d * (v / d) == v && 0 <= v % d < d
    ensures 0 <= v / d <= v / 8 && (v > 0 ==> v / d < v)
  {
    if d == 8 {
    } else if d == 10 {
    } else {
    }
  }

  lemma KnownBase(b: Base)
    requires Known(b)
    ensures |b.digits| == b.base && (b.base == 8 || b.base == 10 || b.base == 16) && 3 <= b.group <= 4
  {
  }

  lemma RevDigitsCons(value: nat, b: Base, group: bool, cnt: nat)
    requires Known(b) && value > 0
    ensures var s := [b.digits[value % b.base]] + RevDigits(value / b.base, b, group, cnt + 1);
      RevDigits(value, b, group, cnt) == s || RevDigits(value, b, group, cnt) == "," + s
  {
  }

  lemma {:induction false} RevValueOf(value: nat, b: Base, group: bool, cnt: nat)
    requires Known(b)
    ensures RevValue(RevDigits(value, b, group, cnt), b.base) == value
    decreases value
  {
    if value > 0 {
      hide RevValue, DigitValue, RevDigits, Known;
      KnownBase(b);
      DivMod(value, b.base);
      var d, q := value % b.base, value / b.base;
      DigitsRead(b, d);
      RevValueOf(q, b, group, cnt + 1);
      var rest := RevDigits(q, b, group, cnt + 1);
      RevDigitsCons(value, b, group, cnt);
      RevCons(b.digits[d], rest, b.base);
      RevCons(b.digits[d], [b.digits[d]] + rest, b.base);
    }
  }

  /** Zeros in front change nothing. */
  lemma {:induction false} ZerosInFront(s: string, k: nat, base: int)
    ensures RevValue(s + seq(k, _ => '0'), base) == RevValue(s, base)
  {
    var z := seq(k, _ => '0');
    if s == "" {
      assert s + z == z;
      ZerosAreZero(k, base);
    } else {
      assert (s + z)[1..] == s[1..] + z;
      ZerosInFront(s[1..], k, base);
    }
  }

  lemma {:induction false} ZerosAreZero(k: nat, base: int)
    ensures RevValue(seq(k, _ => '0'), base) == 0
  {
    if k > 0 {
      assert seq(k, _ => '0')[1..] == seq(k - 1, _ => '0');
      ZerosAreZero(k - 1, base);
    }
  }

  lemma {:induction false} ReverseValue(s: string, base: int)
    requires ',' !in s
    ensures Value(Reverse(s), base) == RevValue(s, base)
  {
    if s != "" {
      ReverseValue(s[1..], base);
      var r := Reverse(s);
      assert r[..|r| - 1] == Reverse(s[1..]) && r[|r| - 1] == s[0];
    }
  }

  // -------------------------------------------------- format_integer

  /** struct printf_conversion, its flags one by one. */
  datatype Conversion = Conversion(minus: bool, plus: bool, space: bool, pound: bool, zero: bool, group: bool,
                                   width: int, precision: int)

  function Copies(ch: char, k: int): (s: string)
    ensures |s| == (if k <= 0 then 0 else k) && forall i :: 0 <= i < |s| ==> s[i] == ch
  {
    if k <= 0 then "" else seq(k, _ => ch)
  }

  /** Digits and enough zeros for the precision, least digit first. */
  function Padded(value: nat, b: Base, c: Conversion): string
    requires Known(b)
  {
    var s := RevDigits(value, b, c.group, 0);
    var precision := if c.precision < 0 then 1 else c.precision;
    s + Copies('0', (if precision < 63 then precision else 63) - |s|)
  }

  /** What the buffer holds when the digits are complete. */
  function Stored(value: nat, b: Base, c: Conversion): string
    requires Known(b)
  {
    var t := Padded(value, b, c);
    if c.pound && b.base == 8 && (t == "" || t[|t| - 1] != '0') then t + "0" else t
  }

  /** Whatever the flags and precision, the buffer denotes the value. */
  lemma StoredValue(value: nat, b: Base, c: Conversion)
    requires Known(b)
    ensures RevValue(Stored(value, b, c), b.base) == value
  {
    hide RevDigits, RevValue, Known;
    var s := RevDigits(value, b, c.group, 0);
    RevValueOf(value, b, c.group, 0);
    var t := Padded(value, b, c);
    var k := |t| - |s|;
    assert t == s + seq(k, _ => '0');
    ZerosInFront(s, k, b.base);
    ZerosInFront(t, 1, b.base);
    assert seq(1, _ => '0') == "0";
  }

  ghost function Pow8(k: nat): nat {
    if k == 0 then 1 else 8 * Pow8(k - 1)
  }

  lemma Pow8Value()
    ensures Pow8(22) == 0x4_0000_0000_0000_0000
  {
    assert Pow8(4) == 4096;
    assert Pow8(8) == 4096 * 4096;
    assert Pow8(12) == 4096 * 4096 * 4096;
    assert Pow8(16) == 4096 * 4096 * 4096 * 4096;
    assert Pow8(20) == 4096 * 4096 * 4096 * 4096 * 4096;
  }

  /** The characters of one round of the digit loop. */
  function Piece(v: nat, b: Base, group: bool, cnt: nat): string
    requires Known(b)
  {
    (if group && cnt > 0 && cnt % b.group == 0 then "," else "") + [b.digits[v % b.base]]
  }

  lemma RevDigitsStep(v: nat, b: Base, group: bool, cnt: nat)
    requires Known(b)
    ensures v > 0 ==> RevDigits(v, b, group, cnt) == Piece(v, b, group, cnt) + RevDigits(v / b.base, b, group, cnt + 1)
    ensures RevDigits(0, b, group, cnt) == ""
  {
  }

  method StoreDigit(buf: array<char>, at: nat, v: nat, b: Base, group: bool, cnt: nat) returns (cp: nat)
    requires at + 2 <= buf.Length && Known(b)
    modifies buf
    ensures at < cp <= at + 2 && buf[..cp] == old(buf[..at]) + Piece(v, b, group, cnt)
  {
    cp := at;
    if group && cnt > 0 && cnt % b.group == 0 {
      buf[cp] := ',';
      cp := cp + 1;
    }
    buf[cp] := b.digits[v % b.base];
    cp := cp + 1;
  }

  /** The digit loop: it fills at most 44 of the 64 characters. */
  method StoreDigits(buf: array<char>, value: nat, b: Base, group: bool) returns (cp: nat)
    requires buf.Length == 64 && value < 0x1_0000_0000_0000_0000 && Known(b)
    modifies buf
    ensures cp <= 44 && buf[..cp] == RevDigits(value, b, group, 0)
  {
    hide Known, RevDigits, Piece;
    KnownBase(b);
    Pow8Value();
    cp := 0;
    var v, cnt := value, 0;
    ghost var whole := RevDigits(value, b, group, 0);
    while v > 0
      invariant 0 <= v && 0 <= cp <= 2 * cnt && 0 <= cnt <= 22 && v < Pow8(22 - cnt)
      invariant buf[..cp] + RevDigits(v, b, group, cnt) == whole
      decreases v
    {
      RevDigitsStep(v, b, group, cnt);
      DivMod(v, b.base);
      ghost var before, rest := buf[..cp], RevDigits(v / b.base, b, group, cnt + 1);
      cp := StoreDigit(buf, cp, v, b, group, cnt);
      Regroup(before, Piece(v, b, group, cnt), rest);
      v := v / b.base;
      cnt := cnt + 1;
    }
    RevDigitsStep(0, b, group, cnt);
    assert buf[..cp] + "" == buf[..cp];
  }

  lemma Regroup(a: string, b: string, c: string)
    ensures a + (b + c) == (a + b) + c
  {
  }

  /** The buffer part of format_integer. Every index it writes is within the
      64 characters, for every 64-bit value, all flags and any precision. */
  method StoreNumber(buf: array<char>, value: nat, b: Base, c: Conversion) returns (cp: nat)
    requires buf.Length == 64 && value < 0x1_0000_0000_0000_0000 && Known(b)
    modifies buf
    ensures cp <= 64 && buf[..cp] == Stored(value, b, c)
  {
    hide RevDigits, Known;
    cp := StoreDigits(buf, value, b, c.group);
    ghost var s := buf[..cp];
    var precision := if c.precision < 0 then 1 else c.precision;
    while cp < precision && cp < 63
      invariant |s| <= cp <= 63 && (cp > |s| ==> cp <= precision)
      invariant buf[..cp] == s + seq(cp - |s|, _ => '0')
    {
      buf[cp] := '0';
      cp := cp + 1;
      assert seq(cp - |s|, _ => '0') == seq(cp - 1 - |s|, _ => '0') + "0";
    }
    assert buf[..cp] == Padded(value, b, c);
    if c.pound && b.base == 8 && (cp == 0 || buf[cp - 1] != '0') {
      buf[cp] := '0';
      cp := cp + 1;
    }
  }

  /** The sign character, or null for none. */
  function Sign(isSigned: bool, negative: bool, c: Conversion): char {
    if !isSigned then '\0'
    else if c.plus then (if negative then '-' else '+')
    else if c.space then (if negative then '-' else ' ')
    else if negative then '-' else '\0'
  }

  function Padding(wanted: bool, ch: char, cnt: int): string {
    if wanted then Copies(ch, cnt) else ""
  }

  function Prefix(sign: char, x: char): string {
    (if sign != '\0' then [sign] else "") + (if x != '\0' then ['0', x] else "")
  }

  /** The characters of a conversion, in the order they are put out. */
  function Render(value: nat, isSigned: bool, negative: bool, b: Base, c: Conversion): string
    requires Known(b)
  {
    var body := Stored(value, b, c);
    var sign := Sign(isSigned, negative, c);
    var x := if c.pound && value != 0 then b.x else '\0';
    var pad := c.width - |body| - (if x != '\0' then 2 else 0) - (if sign != '\0' then 1 else 0);
    Padding(!c.minus && !c.zero, ' ', pad) + Prefix(sign, x) + Padding(c.zero, '0', pad)
    + Reverse(body) + Padding(c.minus, ' ', pad)
  }

  // --------------------------------------------- what a conversion reads like

  /** Where a comma belongs, counted from the right. */
  predicate CommaPlace(i: nat, g: int) {
    if g == 3 then i % 4 == 3 else i % 5 == 4
  }

  /** `o` characters, commas included, go before the digit after `cnt`. */
  ghost predicate Placed(cnt: nat, o: nat, g: int) {
    if cnt == 0 then o == 0
    else if g == 3 then o % 4 == (cnt - 1) % 3 + 1
    else o % 5 == (cnt - 1) % 4 + 1
  }

  lemma Placed3(cnt: nat, o: nat)
    requires Placed(cnt, o, 3)
    ensures cnt > 0 && cnt % 3 == 0 ==> o % 4 == 3 && (o + 1) % 4 == 0 && Placed(cnt + 1, o + 2, 3)
    ensures cnt == 0 || cnt % 3 != 0 ==> o % 4 != 3 && Placed(cnt + 1, o + 1, 3)
  {
    if cnt > 0 {
      Mod3(cnt);
    }
    Add4(o);
    Add4(o + 1);
  }

  lemma Mod3(n: nat)
    requires n > 0
    ensures if n % 3 == 0 then (n - 1) % 3 == 2 else n % 3 == (n - 1) % 3 + 1
  {
  }

  lemma Placed4(cnt: nat, o: nat)
    requires Placed(cnt, o, 4)
    ensures cnt > 0 && cnt % 4 == 0 ==> o % 5 == 4 && (o + 1) % 5 == 0 && Placed(cnt + 1, o + 2, 4)
    ensures cnt == 0 || cnt % 4 != 0 ==> o % 5 != 4 && Placed(cnt + 1, o + 1, 4)
  {
    if cnt > 0 {
      Mod4(cnt);
    }
    Add5(o);
    Add5(o + 1);
  }

  lemma Mod4(n: nat)
    requires n > 0
    ensures if n % 4 == 0 then (n - 1) % 4 == 3 else n % 4 == (n - 1) % 4 + 1
  {
  }

  lemma Add4(o: nat)
    ensures (o + 1) % 4 == if o % 4 == 3 then 0 else o % 4 + 1
  {
  }

  lemma Add5(o: nat)
    ensures (o + 1) % 5 == if o % 5 == 4 then 0 else o % 5 + 1
  {
  }

  lemma PlacedNext(cnt: nat, o: nat, g: int)
    requires (g == 3 || g == 4) && Placed(cnt, o, g)
    ensures var comma := cnt > 0 && cnt % g == 0;
      && (comma <==> CommaPlace(o, g))
      && (comma ==> Placed(cnt + 1, o + 2, g) && !CommaPlace(o + 1, g))
      && (!comma ==> Placed(cnt + 1, o + 1, g))
  {
    hide Placed;
    if g == 3 {
      Placed3(cnt, o);
    } else {
      Placed4(cnt, o);
    }
  }

  /** Counted from the right, every fourth character (every fifth in base 16)
      of a grouped number is a comma, no other is, and none comes first. */
  lemma {:induction false} CommasPartGroups(value: nat, b: Base, cnt: nat, o: nat)
    requires Known(b) && Placed(cnt, o, b.group)
    ensures var s := RevDigits(value, b, true, cnt);
      && (forall k :: 0 <= k < |s| ==> (s[k] == ',' <==> CommaPlace(o + k, b.group)))
      && (s != "" ==> s[|s| - 1] != ',')
    decreases value
  {
    hide Known, RevDigits, Placed, CommaPlace;
    KnownBase(b);
    RevDigitsStep(value, b, true, cnt);
    if value > 0 {
      var d, q := value % b.base, value / b.base;
      DivMod(value, b.base);
      DigitsRead(b, d);
      PlacedNext(cnt, o, b.group);
      var piece, rest := Piece(value, b, true, cnt), RevDigits(q, b, true, cnt + 1);
      CommasPartGroups(q, b, cnt + 1, o + |piece|);
      CommasOfPiece(piece, rest, o, b.group);
    }
  }

  lemma CommasOfPiece(piece: string, rest: string, o: nat, g: int)
    requires piece != "" && piece[|piece| - 1] != ','
    requires forall k :: 0 <= k < |piece| ==> (piece[k] == ',' <==> CommaPlace(o + k, g))
    requires forall k :: 0 <= k < |rest| ==> (rest[k] == ',' <==> CommaPlace(o + |piece| + k, g))
    requires rest != "" ==> rest[|rest| - 1] != ','
    ensures var s := piece + rest;
      && (forall k :: 0 <= k < |s| ==> (s[k] == ',' <==> CommaPlace(o + k, g)))
      && s[|s| - 1] != ','
  {
    hide CommaPlace;
    var s := piece + rest;
    forall k | |piece| <= k < |s|
      ensures s[k] == ',' <==> CommaPlace(o + k, g)
    {
      assert s[k] == rest[k - |piece|];
      assert o + |piece| + (k - |piece|) == o + k;
    }
  }

  function NoCommas(s: string): string {
    if s == "" then "" else (if s[0] == ',' then "" else [s[0]]) + NoCommas(s[1..])
  }

  /** Grouping adds the commas and nothing else. */
  lemma {:induction false} GroupingAddsCommas(value: nat, b: Base, cnt: nat)
    requires Known(b)
    ensures NoCommas(RevDigits(value, b, true, cnt)) == RevDigits(value, b, false, cnt)
    decreases value
  {
    if value > 0 {
      hide Known, NoCommas, RevDigits;
      KnownBase(b);
      var d, q := value % b.base, value / b.base;
      DivMod(value, b.base);
      DigitsRead(b, d);
      GroupingAddsCommas(q, b, cnt + 1);
      var rest := RevDigits(q, b, true, cnt + 1);
      RevDigitsCons(value, b, true, cnt);
      RevDigitsUngrouped(value, b, cnt);
      CommaFirst(b.digits[d], rest);
      CommaFirst(b.digits[d], [b.digits[d]] + rest);
    } else {
      assert RevDigits(0, b, true, cnt) == "" && RevDigits(0, b, false, cnt) == "";
    }
  }

  lemma RevDigitsUngrouped(value: nat, b: Base, cnt: nat)
    requires Known(b) && value > 0
    ensures RevDigits(value, b, false, cnt) ==
            [b.digits[value % b.base]] + RevDigits(value / b.base, b, false, cnt + 1)
  {
    assert "" + [b.digits[value % b.base]] == [b.digits[value % b.base]];
  }

  lemma CommaFirst(c: char, s: string)
    requires c != ','
    ensures NoCommas([c] + s) == [c] + NoCommas(s) && NoCommas("," + s) == NoCommas(s)
  {
    assert ([c] + s)[1..] == s && ("," + s)[1..] == s;
  }

  function SignText(isSigned: bool, negative: bool, c: Conversion): string {
    if !isSigned then "" else if negative then "-" else if c.plus then "+" else if c.space then " " else ""
  }

  /** The 0x or 0X of a nonzero hexadecimal number with the # flag. */
  function RadixText(value: nat, b: Base, c: Conversion): string {
    if !c.pound || value == 0 then "" else if b == BaseX() then "0x" else if b == BaseUpperX() then "0X" else ""
  }

  /** A conversion fills its width: with spaces in front, with zeros between
      the sign and the digits, or with spaces behind, as the flags say. */
  lemma RenderLaw(value: nat, isSigned: bool, negative: bool, b: Base, c: Conversion)
    requires Known(b)
    ensures var t, d := Render(value, isSigned, negative, b, c), Reverse(Stored(value, b, c));
      var s := SignText(isSigned, negative, c) + RadixText(value, b, c);
      var n := c.width - |s| - |d|;
      && t == (if c.minus && c.zero then s + Copies('0', n) + d + Copies(' ', n)
               else if c.minus then s + d + Copies(' ', n)
               else if c.zero then s + Copies('0', n) + d
               else Copies(' ', n) + s + d)
      && (!(c.minus && c.zero) ==> |t| == if c.width > |s| + |d| then c.width else |s| + |d|)
  {
    hide Stored, Reverse, Known, Copies, Padding, Sign, Prefix, SignText, RadixText;
    var sign, x := Sign(isSigned, negative, c), if c.pound && value != 0 then b.x else '\0';
    PrefixIs(value, isSigned, negative, b, c);
    PrefixLength(sign, x);
    var digits := Reverse(Stored(value, b, c));
    Layout(c, Prefix(sign, x), digits, c.width - |Prefix(sign, x)| - |digits|);
  }

  lemma Layout(c: Conversion, s: string, d: string, n: int)
    ensures var t := Padding(!c.minus && !c.zero, ' ', n) + s + Padding(c.zero, '0', n) + d + Padding(c.minus, ' ', n);
      && t == (if c.minus && c.zero then s + Copies('0', n) + d + Copies(' ', n)
               else if c.minus then s + d + Copies(' ', n)
               else if c.zero then s + Copies('0', n) + d
               else Copies(' ', n) + s + d)
      && (!(c.minus && c.zero) ==> |t| == |s| + |d| + if n > 0 then n else 0)
  {
    hide Copies;
    assert "" + s == s && s + "" == s;
    assert s + d + "" == s + d;
    assert Copies(' ', n) + s + "" == Copies(' ', n) + s;
    assert Copies(' ', n) + s + d + "" == Copies(' ', n) + s + d;
    assert s + Copies('0', n) + d + "" == s + Copies('0', n) + d;
  }

  lemma PrefixLength(sign: char, x: char)
    ensures |Prefix(sign, x)| == (if x != '\0' then 2 else 0) + (if sign != '\0' then 1 else 0)
  {
  }

  lemma PrefixIs(value: nat, isSigned: bool, negative: bool, b: Base, c: Conversion)
    requires Known(b)
    ensures Prefix(Sign(isSigned, negative, c), if c.pound && value != 0 then b.x else '\0') ==
            SignText(isSigned, negative, c) + RadixText(value, b, c)
  {
  }

  /** The digits are at least as many as the precision asks for, up to 63, and
      an octal number with the # flag begins with a zero. */
  lemma DigitsLaw(value: nat, b: Base, c: Conversion)
    requires Known(b)
    ensures var d := Reverse(Stored(value, b, c));
      && |d| >= (if c.precision < 0 then 1 else if c.precision < 63 then c.precision else 63)
      && (c.pound && b == BaseO() ==> d != "" && d[0] == '0')
      && (!c.group && c.precision < 0 && !c.pound && value > 0 ==> d == Reverse(RevDigits(value, b, false, 0)))
  {
    hide RevDigits, Reverse, Known;
    var s := Stored(value, b, c);
    if s != "" {
      ReverseLast(s);
    }
    RevDigitsStep(value, b, c.group, 0);
    assert value > 0 ==> Piece(value, b, c.group, 0) != "";
    assert RevDigits(value, b, c.group, 0) + "" == RevDigits(value, b, c.group, 0);
  }

  // ------------------------------------------------------------ output

  /** struct vsnprintf_aux, writing from index `at` of a buffer. */
  class Sink {
    const buffer: array<char>
    const at: nat
    const maxLength: nat
    var length: nat
    ghost var text: string

    constructor (buffer: array<char>, at: nat, maxLength: nat)
      requires at + maxLength <= buffer.Length
      ensures Valid() && text == "" && this.buffer == buffer && this.at == at && this.maxLength == maxLength
    {
      this.buffer, this.at, this.maxLength := buffer, at, maxLength;
      length := 0;
      text := "";
    }

    /** The buffer holds as much of the text as there is room for. */
    ghost predicate Valid()
      reads this, buffer
    {
      && at + maxLength <= buffer.Length && length == |text|
      && forall i :: 0 <= i < length && i < maxLength ==> buffer[at + i] == text[i]
    }

    /** Nothing outside the sink's own part of the buffer changes. */
    twostate predicate Framed()
      reads buffer
    {
      forall j :: 0 <= j < buffer.Length && !(at <= j < at + maxLength) ==> buffer[j] == old(buffer[j])
    }

    /** vsnprintf_helper */
    method Put(ch: char)
      requires Valid()
      modifies this, buffer
      ensures Valid() && text == old(text) + [ch] && Framed()
    {
      if length < maxLength {
        buffer[at + length] := ch;
      }
      length := length + 1;
      text := text + [ch];
    }

    /** output_dup */
    method PutCopies(ch: char, cnt: int)
      requires Valid()
      modifies this, buffer
      ensures Valid() && text == old(text) + Copies(ch, cnt) && Framed()
    {
      var i := 0;
      while i < cnt
        invariant 0 <= i && (cnt > 0 ==> i <= cnt) && (cnt <= 0 ==> i == 0)
        invariant Valid() && text == old(text) + Copies(ch, i) && Framed()
      {
        Put(ch);
        i := i + 1;
        assert Copies(ch, i) == Copies(ch, i - 1) + [ch];
      }
      assert Copies(ch, i) == Copies(ch, cnt);
    }

    /** The characters of `s`, last first. */
    method PutReversed(s: string)
      requires Valid()
      modifies this, buffer
      ensures Valid() && text == old(text) + Reverse(s) && Framed()
    {
      var k := |s|;
      assert s[..k] == s;
      while k > 0
        invariant 0 <= k <= |s|
        invariant Valid() && text + Reverse(s[..k]) == old(text) + Reverse(s) && Framed()
      {
        k := k - 1;
        ReverseLast(s[..k + 1]);
        assert s[..k + 1][..k] == s[..k];
        Put(s[k]);
      }
      assert s[..0] == "";
    }

    method PutPadding(wanted: bool, ch: char, cnt: int)
      requires Valid()
      modifies this, buffer
      ensures Valid() && text == old(text) + Padding(wanted, ch, cnt) && Framed()
    {
      if wanted {
        PutCopies(ch, cnt);
      }
    }

    /** The sign and the `0x`, if any. */
    method PutPrefix(sign: char, x: char)
      requires Valid()
      modifies this, buffer
      ensures Valid() && text == old(text) + Prefix(sign, x) && Framed()
    {
      if sign != '\0' {
        Put(sign);
      }
      if x != '\0' {
        Put('0');
        Put(x);
      }
    }

    /** format_integer */
    method FormatInteger(value: nat, isSigned: bool, negative: bool, b: Base, c: Conversion)
      requires Valid() && value < 0x1_0000_0000_0000_0000 && Known(b)
      modifies this, buffer
      ensures Valid() && text == old(text) + Render(value, isSigned, negative, b, c) && Framed()
    {
      hide Stored, Known, Valid, Padding, Prefix, Reverse;
      var sign := Sign(isSigned, negative, c);
      var x := if c.pound && value != 0 then b.x else '\0';
      var buf := new char[64](_ => '\0');
      var cp := StoreNumber(buf, value, b, c);
      var body := buf[..cp];
      var pad := c.width - cp - (if x != '\0' then 2 else 0) - (if sign != '\0' then 1 else 0);
      PutField(sign, x, body, pad, c);
    }

    /** The sign and the prefix, the digits, and the padding around them. */
    method PutField(sign: char, x: char, body: string, pad: int, c: Conversion)
      requires Valid()
      modifies this, buffer
      ensures Valid() && Framed()
      ensures text == old(text) + (Padding(!c.minus && !c.zero, ' ', pad) + Prefix(sign, x) + Padding(c.zero, '0', pad)
                                   + Reverse(body) + Padding(c.minus, ' ', pad))
    {
      hide Valid, Padding, Prefix, Reverse;
      ghost var t := text;
      PutPadding(!c.minus && !c.zero, ' ', pad);
      PutPrefix(sign, x);
      PutPadding(c.zero, '0', pad);
      PutReversed(body);
      PutPadding(c.minus, ' ', pad);
      Regroup5(t, Padding(!c.minus && !c.zero, ' ', pad), Prefix(sign, x), Padding(c.zero, '0', pad), Reverse(body),
               Padding(c.minus, ' ', pad));
    }
  }

  lemma Regroup5(t: string, a: string, b: string, c: string, d: string, e: string)
    ensures t + a + b + c + d + e == t + (a + b + c + d + e)
  {
  }

  lemma {:induction false} ReverseLast(s: string)
    requires s != ""
    ensures Reverse(s) == [s[|s| - 1]] + Reverse(s[..|s| - 1])
  {
    var n := |s| - 1;
    if n > 0 {
      ReverseLast(s[1..]);
      assert s[1..][..n - 1] == s[..n][1..];
      assert s[1..][n - 1] == s[n];
    }
  }

  // --------------------------------------------- plain decimal and octal

  /** The conversion of `%d`. */
  function PlainConversion(): Conversion {
    Conversion(false, false, false, false, false, false, 0, -1)
  }

  /** The conversion of `%07o` and the like. */
  function ZeroConversion(width: nat): Conversion {
    Conversion(false, false, false, false, true, false, width, -1)
  }

  ghost predicate AllDigits(s: string, base: int) {
    forall i :: 0 <= i < |s| ==> '0' <= s[i] && s[i] as int < '0' as int + base
  }

  lemma {:induction false} RevDigitsPlain(value: nat, b: Base, cnt: nat, k: nat)
    requires (b == BaseD() || b == BaseO()) && value < Pow8(k)
    ensures var s := RevDigits(value, b, false, cnt);
      AllDigits(s, b.base) && |s| <= k && (s == "" <==> value == 0)
    decreases value
  {
    if value > 0 {
      var d, q := value % b.base, value / b.base;
      DivMod(value, b.base);
      RevDigitsPlain(q, b, cnt + 1, k - 1);
      assert b.digits[d] as int == '0' as int + d;
    }
  }

  lemma {:induction false} ReverseAllDigits(s: string, base: int)
    requires AllDigits(s, base)
    ensures AllDigits(Reverse(s), base)
  {
    if s != "" {
      ReverseAllDigits(s[1..], base);
    }
  }

  lemma {:induction false} LeadingZeros(k: nat, s: string, base: int)
    ensures Value(seq(k, _ => '0') + s, base) == Value(s, base)
    decreases |s|
  {
    var z := seq(k, _ => '0');
    if s == "" {
      assert z + s == z;
      ZeroValue(k, base);
    } else {
      var n := |s| - 1;
      assert (z + s)[..|z + s| - 1] == z + s[..n];
      LeadingZeros(k, s[..n], base);
    }
  }

  lemma {:induction false} ZeroValue(k: nat, base: int)
    ensures Value(seq(k, _ => '0'), base) == 0
  {
    if k > 0 {
      assert seq(k, _ => '0')[..k - 1] == seq(k - 1, _ => '0');
      ZeroValue(k - 1, base);
    }
  }

  /** The text of `%d`. */
  function Decimal(v: int): string {
    Render(if v < 0 then -v else v, true, v < 0, BaseD(), PlainConversion())
  }

  /** The text of `%0wo`, where `w` is the width. */
  function Octal(v: nat, width: nat): string {
    Render(v, false, false, BaseO(), ZeroConversion(width))
  }

  /** Without flags the buffer holds the digits, at least one. */
  lemma StoredPlain(value: nat, b: Base, c: Conversion, k: nat)
    requires b == BaseD() || b == BaseO()
    requires !c.group && !c.pound && c.precision == -1 && value < Pow8(k) && k > 0
    ensures var s := Stored(value, b, c);
      AllDigits(s, b.base) && 0 < |s| <= k && Value(Reverse(s), b.base) == value
  {
    hide RevDigits, RevValue, Value, Reverse;
    var s := Stored(value, b, c);
    RevDigitsPlain(value, b, 0, k);
    assert AllDigits(s, b.base);
    StoredValue(value, b, c);
    assert ',' !in s;
    ReverseValue(s, b.base);
  }

  /** `s` is the digits `d` of the magnitude of `v`, behind its sign. */
  ghost predicate SignedDigits(s: string, d: string, v: int) {
    && s == (if v < 0 then "-" else "") + d
    && 0 < |d| <= 22 && AllDigits(d, 10) && Value(d, 10) == if v < 0 then -v else v
  }

  /** `%d` prints an optional minus and digits that denote the magnitude. */
  lemma DecimalText(v: int)
    requires -0x8000_0000 <= v < 0x8000_0000
    ensures exists d :: SignedDigits(Decimal(v), d, v)
  {
    hide Stored, RevDigits, Value;
    var n := if v < 0 then -v else v;
    Pow8Value();
    StoredPlain(n, BaseD(), PlainConversion(), 22);
    var body := Stored(n, BaseD(), PlainConversion());
    ReverseAllDigits(body, 10);
    var d := Reverse(body);
    assert Decimal(v) == (if v < 0 then "-" else "") + d;
    assert SignedDigits(Decimal(v), d, v);
  }

  /** Zero-padded octal: exactly the width, if the value fits in it. */
  lemma OctalText(v: nat, width: nat)
    requires 0 < width && v < Pow8(width)
    ensures |Octal(v, width)| == width && AllDigits(Octal(v, width), 8) && Value(Octal(v, width), 8) == v
  {
    hide Stored, RevDigits, Value;
    StoredPlain(v, BaseO(), ZeroConversion(width), width);
    var body := Stored(v, BaseO(), ZeroConversion(width));
    ReverseAllDigits(body, 8);
    var k := width - |body|;
    assert Octal(v, width) == seq(k, _ => '0') + Reverse(body);
    LeadingZeros(k, Reverse(body), 8);
  }

  /** The null terminator: after the text, or in the last place of the buffer. */
  method Terminate(buffer: array<char>, at: nat, size: nat, length: nat, ghost text: string)
    requires at + size <= buffer.Length && length == |text|
    requires forall i :: 0 <= i < |text| && i < size - 1 ==> buffer[at + i] == text[i]
    modifies buffer
    ensures size > 0 ==> buffer[at + (if length < size then length else size - 1)] == '\0'
    ensures forall j :: 0 <= j < buffer.Length && !(at <= j < at + size) ==> buffer[j] == old(buffer[j])
    ensures forall i :: 0 <= i < |text| && i < size - 1 ==> buffer[at + i] == text[i]
  {
    if size > 0 {
      buffer[at + (if length < size then length else size - 1)] := '\0';
    }
  }

  /** snprintf of one conversion into the `size` characters from `at` on. */
  method Snprintf(buffer: array<char>, at: nat, size: nat, value: nat, isSigned: bool, negative: bool,
                  b: Base, c: Conversion) returns (length: nat)
    requires at + size <= buffer.Length && value < 0x1_0000_0000_0000_0000 && Known(b)
    modifies buffer
    ensures var text := Render(value, isSigned, negative, b, c);
      && length == |text|
      && (forall i :: 0 <= i < |text| && i < size - 1 ==> buffer[at + i] == text[i])
      && (size > 0 ==> buffer[at + (if |text| < size then |text| else size - 1)] == '\0')
    ensures forall j :: 0 <= j < buffer.Length && !(at <= j < at + size) ==> buffer[j] == old(buffer[j])
  {
    hide Render, Known;
    var sink := new Sink(buffer, at, if size > 0 then size - 1 else 0);
    sink.FormatInteger(value, isSigned, negative, b, c);
    assert sink.text == Render(value, isSigned, negative, b, c);
    length := sink.length;
    Terminate(buffer, at, size, length, sink.text);
  }

  // --------------------------------------------------------------- atoi

  predicate IsSpace(c: char): (r: bool)
    ensures r <==> c as int == 32 || 9 <= c as int <= 13
  {
    c == ' ' || c as int == 12 || c == '\n' || c == '\r' || c == '\t' || c as int == 11
  }

  /** The character at `i` of a null-terminated string. */
  function CharAt(s: string, i: nat): char {
    if i < |s| then s[i] else '\0'
  }

  /** How many characters at the start of `s` satisfy `p`. */
  ghost function RunLength(s: string, p: char -> bool): (k: nat)
    ensures k <= |s| && (forall i :: 0 <= i < k ==> p(s[i])) && (k < |s| ==> !p(s[k]))
  {
    if s == "" || !p(s[0]) then 0 else 1 + RunLength(s[1..], p)
  }

  lemma RunLengthIs(s: string, p: char -> bool, k: nat)
    requires k <= |s| && (forall i :: 0 <= i < k ==> p(s[i])) && (k < |s| ==> !p(s[k]))
    ensures RunLength(s, p) == k
  {
  }

  ghost function SkipSpaces(s: string): string {
    s[RunLength(s, IsSpace)..]
  }

  ghost function SkipSign(s: string): string {
    if CharAt(s, 0) == '+' || CharAt(s, 0) == '-' then s[1..] else s
  }

  /** The digits that atoi reads. */
  ghost function AtoiDigits(s: string): string {
    var t := SkipSign(SkipSpaces(s));
    t[..RunLength(t, IsDigit)]
  }

  ghost predicate AtoiNegative(s: string) {
    CharAt(SkipSpaces(s), 0) == '-'
  }

  /** A 32-bit int after wrap-around. */
  function Wrap32(x: int): int {
    (x + 0x8000_0000) % 0x1_0000_0000 - 0x8000_0000
  }

  lemma {:induction false} ValuePrefix(s: string, k: nat)
    requires k <= |s| && AllDigits(s, 10)
    ensures 0 <= Value(s[..k], 10) <= Value(s, 10)
    decreases |s|
  {
    if k < |s| {
      ValuePrefix(s[..|s| - 1], k);
      assert s[..|s| - 1][..k] == s[..k];
    } else {
      assert s[..k] == s;
      if s != "" {
        ValuePrefix(s[..|s| - 1], |s| - 1);
        assert s[..|s| - 1][..|s| - 1] == s[..|s| - 1];
      }
    }
  }

  /** atoi: the value its digits denote, wherever an int can hold it. The
      value is built up as a negative number, which can hold INT_MIN. */
  method Atoi(s: string) returns (r: int)
    ensures AtoiNegative(s) && Value(AtoiDigits(s), 10) <= 0x8000_0000 ==> r == -Value(AtoiDigits(s), 10)
    ensures !AtoiNegative(s) && Value(AtoiDigits(s), 10) < 0x8000_0000 ==> r == Value(AtoiDigits(s), 10)
  {
    hide Value, RunLength, SkipSpaces;
    var t := SkipBlank(s);
    var negative := CharAt(t, 0) == '-';
    if CharAt(t, 0) == '+' || CharAt(t, 0) == '-' {
      t := t[1..];
    }
    r := ReadDigits(t);
    if !negative {
      r := Wrap32(-r);
    }
  }

  /** The white-space loop of atoi. */
  method SkipBlank(s: string) returns (t: string)
    ensures t == SkipSpaces(s)
  {
    var i := 0;
    while i < |s| && IsSpace(s[i])
      invariant 0 <= i <= |s| && forall j :: 0 <= j < i ==> IsSpace(s[j])
    {
      i := i + 1;
    }
    RunLengthIs(s, IsSpace, i);
    t := s[i..];
  }

  /** The digit loop of atoi. */
  method ReadDigits(s: string) returns (value: int)
    ensures var d := s[..RunLength(s, IsDigit)];
      0 <= Value(d, 10) && (Value(d, 10) <= 0x8000_0000 ==> value == -Value(d, 10))
  {
    value := 0;
    var k := 0;
    ghost var n := RunLength(s, IsDigit);
    ghost var d := s[..n];
    assert d[..0] == "";
    while k < |s| && IsDigit(s[k])
      invariant 0 <= k <= n
      invariant Value(d, 10) <= 0x8000_0000 ==> value == -Value(d[..k], 10)
      decreases |s| - k
    {
      assert k < n;
      ValuePrefix(d, k + 1);
      assert d[..k + 1][..k] == d[..k];
      value := Wrap32(value * 10 - (s[k] as int - '0' as int));
      k := k + 1;
    }
    assert d[..n] == d;
    ValuePrefix(d, 0);
  }

  /** What `%d` prints, atoi reads back: the digits and the sign of `v`. */
  lemma AtoiOfDecimal(v: int)
    requires -0x8000_0000 <= v < 0x8000_0000
    ensures AtoiNegative(Decimal(v)) <==> v < 0
    ensures Value(AtoiDigits(Decimal(v)), 10) == if v < 0 then -v else v
  {
    hide Decimal, Value, SignedDigits, AtoiNegative, AtoiDigits;
    DecimalText(v);
    var d :| SignedDigits(Decimal(v), d, v);
    AtoiOfSigned(Decimal(v), d, v);
  }

  lemma AtoiOfSigned(s: string, d: string, v: int)
    requires SignedDigits(s, d, v)
    ensures (AtoiNegative(s) <==> v < 0) && AtoiDigits(s) == d && Value(d, 10) == if v < 0 then -v else v
  {
    hide Value, RunLength;
    RunLengthIs(s, IsSpace, 0);
    assert SkipSpaces(s) == s;
    assert SkipSign(s) == d;
    RunLengthIs(d, IsDigit, |d|);
    assert d[..|d|] == d;
  }

  /** Printing with `%d` and reading with atoi gives back every 32-bit int,
      INT_MIN included. */
  method PrintThenRead(v: int) returns (r: int)
    requires -0x8000_0000 <= v < 0x8000_0000
    ensures r == v
  {
    hide Decimal, Value, AtoiDigits, AtoiNegative;
    var buffer := new char[24](_ => '\0');
    var n := Snprintf(buffer, 0, 24, if v < 0 then -v else v, true, v < 0, BaseD(), PlainConversion());
    DecimalLength(v);
    AtoiOfDecimal(v);
    assert buffer[..n] == Decimal(v);
    r := Atoi(buffer[..n]);
  }

  lemma DecimalLength(v: int)
    requires -0x8000_0000 <= v < 0x8000_0000
    ensures Decimal(v) == Render(if v < 0 then -v else v, true, v < 0, BaseD(), PlainConversion())
    ensures |Decimal(v)| <= 23
  {
    DecimalText(v);
  }
}
