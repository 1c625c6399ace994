/** Integer formatting and bounded output (lib/stdio.c), and atoi() (lib/stdlib.c). */
module Stdio {
  import opened Common

  const INT_MIN: int := -0x8000_0000
  const INT_MAX: int := 0x7fff_ffff
  const UINTMAX_LIMIT: nat := 0x1_0000_0000_0000_0000

  /** The bases: base_o, base_d, and base_x or base_X. */
  datatype Radix = Oct | Dec | Hex(upper: bool)

  datatype Flags = Flags(minus: bool, plus: bool, space: bool, pound: bool, zero: bool, group: bool)

  /** A conversion; precision is -1 if none was given. */
  datatype Conversion = Conversion(flags: Flags, width: nat, precision: int)

  // ----- digits -----

  function Last(v: nat, r: Radix): (d: nat)
    ensures d < 16
  {
    match r
    case Oct => v % 8
    case Dec => v % 10
    case Hex(_) => v % 16
  }

  function Rest(v: nat, r: Radix): (w: nat)
    ensures v > 0 ==> w < v
  {
    match r
    case Oct => v / 8
    case Dec => v / 10
    case Hex(_) => v / 16
  }

  function Scale(v: nat, r: Radix): nat {
    match r
    case Oct => 8 * v
    case Dec => 10 * v
    case Hex(_) => 16 * v
  }

  function GroupSize(r: Radix): (n: nat)
    ensures n > 0
  {
    if r.Hex? then 4 else 3
  }

  /** b->digits[d] */
  function DigitChar(d: nat, r: Radix): (c: char)
    requires d < 16
    ensures c != ',' && (d > 0 ==> c != '0')
    ensures DigitValue(c) == d
  {
    if d < 10 then '0' + d as char
    else if r == Hex(true) then 'A' + (d - 10) as char
    else 'a' + (d - 10) as char
  }

  function DigitValue(c: char): nat {
    if '0' <= c <= '9' then (c - '0') as nat
    else if 'A' <= c <= 'F' then (c - 'A') as nat + 10
    else if 'a' <= c <= 'f' then (c - 'a') as nat + 10
    else 0
  }

  /** The digits of v, last digit first, with commas when grouping; count digits come before. */
  function Digits(v: nat, r: Radix, group: bool, count: nat): seq<char>
    decreases v
  {
    if v == 0 then []
    else (if group && count > 0 && count % GroupSize(r) == 0 then [','] else [])
         + [DigitChar(Last(v, r), r)] + Digits(Rest(v, r), r, group, count + 1)
  }

  function Repeat(c: char, n: nat): (s: seq<char>)
    ensures |s| == n && forall i :: 0 <= i < n ==> s[i] == c
  {
    seq(n, _ => c)
  }

  function Max(a: int, b: int): int {
    if a > b then a else b
  }

  function Min(a: int, b: int): int {
    if a < b then a else b
  }

  /** The digits padded with zeros to the precision, as far as the buffer goes. */
  function Padded(v: nat, r: Radix, c: Conversion): seq<char> {
    var d := Digits(v, r, c.flags.group, 0);
    var precision := if c.precision < 0 then 1 else c.precision;
    d + Repeat('0', Max(Min(precision, 63) - |d|, 0))
  }

  /** The contents of the buffer: a # conversion in base 8 starts with a zero. */
  function Body(v: nat, r: Radix, c: Conversion): seq<char> {
    var p := Padded(v, r, c);
    if c.flags.pound && r.Oct? && (p == [] || p[|p| - 1] != '0') then p + ['0'] else p
  }

  /** What digits, last first, stand for, commas ignored. */
  function ValueOf(s: seq<char>, r: Radix): nat {
    if s == [] then 0
    else if s[0] == ',' then ValueOf(s[1..], r)
    else DigitValue(s[0]) + Scale(ValueOf(s[1..], r), r)
  }

  lemma {:induction false} ZerosAdded(s: seq<char>, n: nat, r: Radix)
    ensures ValueOf(s + Repeat('0', n), r) == ValueOf(s, r)
    decreases |s|, n
  {
    if s != [] {
      assert (s + Repeat('0', n))[1..] == s[1..] + Repeat('0', n);
      ZerosAdded(s[1..], n, r);
    } else if n > 0 {
      assert s + Repeat('0', n) == Repeat('0', n) && Repeat('0', n)[1..] == Repeat('0', n - 1) && s + Repeat('0', n - 1) == Repeat('0', n - 1);
      ZerosAdded(s, n - 1, r);
    }
  }

  lemma ValueOfDigit(d: char, tail: seq<char>, r: Radix)
    requires d != ','
    ensures ValueOf([d] + tail, r) == DigitValue(d) + Scale(ValueOf(tail, r), r)
    ensures ValueOf([','] + ([d] + tail), r) == ValueOf([d] + tail, r)
  {
    assert ([d] + tail)[1..] == tail && ([','] + ([d] + tail))[1..] == [d] + tail;
  }

  lemma Recombined(v: nat, r: Radix)
    ensures Last(v, r) + Scale(Rest(v, r), r) == v
  {
  }

  lemma {:induction false} DigitsValue(v: nat, r: Radix, group: bool, count: nat)
    ensures ValueOf(Digits(v, r, group, count), r) == v
    decreases v
  {
    if v > 0 {
      hide ValueOf, Scale, Last, DigitChar, DigitValue;
      var d, tail := DigitChar(Last(v, r), r), Digits(Rest(v, r), r, group, count + 1);
      DigitsValue(Rest(v, r), r, group, count + 1);
      ValueOfDigit(d, tail, r);
      Recombined(v, r);
      if group && count > 0 && count % GroupSize(r) == 0 {
        assert Digits(v, r, group, count) == [','] + ([d] + tail);
      } else {
        assert Digits(v, r, group, count) == [d] + tail;
      }
    }
  }

  /** Whatever the base, flags and precision: the digits in the buffer, commas removed, stand
      for the value. */
  lemma BodyValue(v: nat, r: Radix, c: Conversion)
    ensures ValueOf(Body(v, r, c), r) == v
  {
    hide ValueOf, Digits;
    var d := Digits(v, r, c.flags.group, 0);
    var precision := if c.precision < 0 then 1 else c.precision;
    DigitsValue(v, r, c.flags.group, 0);
    ZerosAdded(d, Max(Min(precision, 63) - |d|, 0), r);
    ZerosAdded(Padded(v, r, c), 1, r);
    assert Repeat('0', 1) == ['0'];
  }

  function Power(r: Radix, n: nat): nat {
    if n == 0 then 1 else Scale(Power(r, n - 1), r)
  }

  /** At most two characters for each digit. */
  lemma {:induction false} DigitsLength(v: nat, r: Radix, group: bool, count: nat, n: nat)
    requires v < Power(r, n)
    ensures |Digits(v, r, group, count)| <= 2 * n
    decreases n
  {
    if v > 0 {
      DigitsLength(Rest(v, r), r, group, count + 1, n - 1);
    }
  }

  lemma PowersLargeEnough(r: Radix)
    ensures Power(Oct, 22) > UINTMAX_LIMIT && Power(Dec, 20) > UINTMAX_LIMIT && (r.Hex? ==> Power(r, 16) == UINTMAX_LIMIT)
  {
    assert Power(Oct, 6) == 262144;
    assert Power(Oct, 12) == 68719476736;
    assert Power(Oct, 18) == 18014398509481984;
    assert Power(Dec, 6) == 1000000;
    assert Power(Dec, 12) == 1000000000000;
    assert Power(Dec, 18) == 1000000000000000000;
    assert Power(Hex(true), 6) == 16777216;
    assert Power(Hex(true), 12) == 281474976710656;
    assert Power(Hex(true), 16) == UINTMAX_LIMIT;
    assert Power(Hex(false), 6) == 16777216;
    assert Power(Hex(false), 12) == 281474976710656;
    assert Power(Hex(false), 16) == UINTMAX_LIMIT;
    assert r.Hex? ==> r == Hex(true) || r == Hex(false);
  }

  /** The digits of a 64-bit value take at most 44 characters. */
  lemma DigitsFit(v: nat, r: Radix, group: bool)
    requires v < UINTMAX_LIMIT
    ensures |Digits(v, r, group, 0)| <= 44
  {
    PowersLargeEnough(r);
    match r
    case Oct => DigitsLength(v, Oct, group, 0, 22);
    case Dec => DigitsLength(v, Dec, group, 0, 20);
    case Hex(_) => DigitsLength(v, r, group, 0, 16);
  }

  // ----- the precision -----

  /** Digits in the buffer, commas not counted. */
  function DigitCount(s: seq<char>): (n: nat)
    ensures n <= |s|
  {
    if s == [] then 0 else (if s[0] == ',' then 0 else 1) + DigitCount(s[1..])
  }

  lemma {:induction false} DigitCountJoined(s: seq<char>, t: seq<char>)
    ensures DigitCount(s + t) == DigitCount(s) + DigitCount(t)
  {
    if s == [] {
      assert s + t == t;
    } else {
      assert (s + t)[1..] == s[1..] + t;
      DigitCountJoined(s[1..], t);
    }
  }

  lemma {:induction false} DigitCountZeros(n: nat)
    ensures DigitCount(Repeat('0', n)) == n
  {
    if n > 0 {
      assert Repeat('0', n)[1..] == Repeat('0', n - 1);
      DigitCountZeros(n - 1);
    }
  }

  /** A precision is the least number of digits exactly if the value has that many anyway, or the
      precision is at most 63 and no comma is among the digits: commas are counted as digits. */
  lemma PrecisionKept(v: nat, r: Radix, c: Conversion)
    requires c.precision >= 0
    ensures var d := Digits(v, r, c.flags.group, 0);
            DigitCount(Padded(v, r, c)) >= c.precision <==>
              DigitCount(d) >= c.precision || (c.precision <= 63 && DigitCount(d) == |d|)
  {
    hide Digits, DigitCount;
    var d := Digits(v, r, c.flags.group, 0);
    var n := Max(Min(c.precision, 63) - |d|, 0);
    DigitCountJoined(d, Repeat('0', n));
    DigitCountZeros(n);
  }

  /** "%.64d" of 0 gives 63 digits. */
  lemma PrecisionCut()
    ensures DigitCount(Padded(0, Dec, Conversion(Flags(false, false, false, false, false, false), 0, 64))) == 63
  {
    assert Digits(0, Dec, false, 0) == [];
    assert [] + Repeat('0', 63) == Repeat('0', 63);
    DigitCountZeros(63);
  }

  /** "%'.5d" of 1234 gives four digits and a comma. */
  lemma CommaCounted()
    ensures Padded(1234, Dec, Conversion(Flags(false, false, false, false, false, true), 0, 5)) == "432,1"
    ensures DigitCount("432,1") == 4
  {
    GroupedDigits();
    assert "432,1" + Repeat('0', 0) == "432,1";
    hide Padded, Digits;
    DigitCountJoined("432,", "1");
    DigitCountJoined("43", "2,");
    assert "43" + "2," + "1" == "432,1";
    assert DigitCount("43") == 2 && DigitCount("2,") == 1 && DigitCount("1") == 1;
  }

  lemma GroupedDigits()
    ensures Digits(1234, Dec, true, 0) == "432,1"
  {
    assert Digits(1, Dec, true, 3) == [',', '1'];
    assert Digits(12, Dec, true, 2) == ['2', ',', '1'];
    assert Digits(123, Dec, true, 1) == ['3', '2', ',', '1'];
  }

  // ----- format_integer() -----

  function Reverse(s: seq<char>): (r: seq<char>)
    ensures |r| == |s|
  {
    if s == [] then [] else Reverse(s[1..]) + [s[0]]
  }

  function Sign(isSigned: bool, negative: bool, f: Flags): (s: seq<char>)
    ensures |s| <= 1
  {
    if !isSigned then []
    else if f.plus then [if negative then '-' else '+']
    else if f.space then [if negative then '-' else ' ']
    else if negative then ['-']
    else []
  }

  function Prefix(v: nat, r: Radix, f: Flags): (s: seq<char>)
    ensures |s| == 0 || |s| == 2
  {
    if f.pound && v > 0 && r.Hex? then ['0', if r.upper then 'X' else 'x'] else []
  }

  /** The whole output: padding, sign, prefix, digits. */
  function Formatted(v: nat, isSigned: bool, negative: bool, r: Radix, c: Conversion): seq<char> {
    var f := c.flags;
    var sign, prefix, body := Sign(isSigned, negative, f), Prefix(v, r, f), Reverse(Body(v, r, c));
    var pad := Max(c.width - |body| - |prefix| - |sign|, 0);
    (if !f.minus && !f.zero then Repeat(' ', pad) else [])
    + sign + prefix + (if f.zero then Repeat('0', pad) else []) + body + (if f.minus then Repeat(' ', pad) else [])
  }

  /** output_dup() */
  method OutputDup(out: seq<char>, ch: char, cnt: nat) returns (r: seq<char>)
    ensures r == out + Repeat(ch, cnt)
  {
    r := out;
    var i := 0;
    while i < cnt
      invariant 0 <= i <= cnt && r == out + Repeat(ch, i)
    {
      r := r + [ch];
      i := i + 1;
      assert Repeat(ch, i) == Repeat(ch, i - 1) + [ch];
    }
    assert i == cnt;
  }

  /** *cp++ = ch */
  method Push(buf: array<char>, cp: nat, ch: char) returns (next: nat)
    requires cp < buf.Length
    modifies buf
    ensures next == cp + 1 && buf[..next] == old(buf[..cp]) + [ch]
  {
    buf[cp] := ch;
    next := cp + 1;
  }

  /** The first loop of format_integer(): at most 44 of the buffer's 64 characters. */
  method FillDigits(value: nat, r: Radix, group: bool, buf: array<char>) returns (cp: nat)
    requires value < UINTMAX_LIMIT && buf.Length == 64
    modifies buf
    ensures cp <= 44 && buf[..cp] == Digits(value, r, group, 0)
  {
    hide Digits, DigitChar, Last, Rest, GroupSize;
    DigitsFit(value, r, group);
    var v, digitCnt := value, 0;
    cp := 0;
    while v > 0
      invariant 0 <= cp && cp + |Digits(v, r, group, digitCnt)| <= 44
      invariant buf[..cp] + Digits(v, r, group, digitCnt) == Digits(value, r, group, 0)
      decreases v
    {
      DigitsNext(v, r, group, digitCnt);
      ghost var before, rest := buf[..cp], Digits(Rest(v, r), r, group, digitCnt + 1);
      var separate := group && digitCnt > 0 && digitCnt % GroupSize(r) == 0;
      ghost var comma := if separate then [','] else [];
      if separate {
        cp := Push(buf, cp, ',');
      }
      assert buf[..cp] == before + comma;
      cp := Push(buf, cp, DigitChar(Last(v, r), r));
      Regrouped(before, comma, [DigitChar(Last(v, r), r)], rest);
      v := Rest(v, r);
      digitCnt := digitCnt + 1;
    }
    NoDigits(r, group, digitCnt);
  }

  lemma Regrouped(a: seq<char>, b: seq<char>, c: seq<char>, d: seq<char>)
    ensures a + (b + c + d) == a + b + c + d
  {
  }

  /** The part of format_integer() that fills the buffer, 64 characters long. */
  method FillBuffer(value: nat, r: Radix, c: Conversion, buf: array<char>) returns (cp: nat)
    requires value < UINTMAX_LIMIT && buf.Length == 64
    modifies buf
    ensures cp <= 64 && buf[..cp] == Body(value, r, c)
  {
    hide Padded;
    cp := FillDigits(value, r, c.flags.group, buf);
    cp := PadBuffer(value, r, c, buf, cp);
    if c.flags.pound && r.Oct? && (cp == 0 || buf[cp - 1] != '0') {
      cp := Push(buf, cp, '0');
    }
  }

  method PadBuffer(value: nat, r: Radix, c: Conversion, buf: array<char>, start: nat) returns (cp: nat)
    requires buf.Length == 64 && start <= 44 && buf[..start] == Digits(value, r, c.flags.group, 0)
    modifies buf
    ensures cp <= 63 && buf[..cp] == Padded(value, r, c)
  {
    hide Digits;
    var precision := if c.precision < 0 then 1 else c.precision;
    cp := start;
    while cp < precision && cp < 63
      invariant start <= cp <= 63 && (cp > start ==> cp <= precision)
      invariant buf[..cp] == Digits(value, r, c.flags.group, 0) + Repeat('0', cp - start)
    {
      ghost var before := buf[..cp];
      buf[cp] := '0';
      cp := cp + 1;
      assert buf[..cp] == before + ['0'];
      assert Repeat('0', cp - start) == Repeat('0', cp - start - 1) + ['0'];
    }
  }

  lemma DigitsNext(v: nat, r: Radix, group: bool, count: nat)
    requires v > 0
    ensures Digits(v, r, group, count) ==
              (if group && count > 0 && count % GroupSize(r) == 0 then [','] else [])
              + [DigitChar(Last(v, r), r)] + Digits(Rest(v, r), r, group, count + 1)
    ensures Rest(v, r) < v
  {
  }

  lemma NoDigits(r: Radix, group: bool, count: nat)
    ensures Digits(0, r, group, count) == []
  {
  }

  /** format_integer(): the characters it outputs. */
  method FormatInteger(value: nat, isSigned: bool, negative: bool, r: Radix, c: Conversion) returns (out: seq<char>)
    requires value < UINTMAX_LIMIT
    ensures out == Formatted(value, isSigned, negative, r, c)
  {
    hide Body, Reverse, Repeat, Sign, Prefix, Max;
    var sign, prefix := Sign(isSigned, negative, c.flags), Prefix(value, r, c.flags);
    var buf := new char[64];
    var cp := FillBuffer(value, r, c, buf);
    var padCnt := Max(c.width - cp - |prefix| - |sign|, 0);
    NotNegative(c.width - cp - |prefix| - |sign|);
    out := OutputIf([], !c.flags.minus && !c.flags.zero, ' ', padCnt);
    assert out == if !c.flags.minus && !c.flags.zero then Repeat(' ', padCnt) else [];
    out := out + sign + prefix;
    out := OutputIf(out, c.flags.zero, '0', padCnt);
    out := OutputReversed(out, buf, cp);
    out := OutputIf(out, c.flags.minus, ' ', padCnt);
  }

  lemma NotNegative(x: int)
    ensures Max(x, 0) >= 0
  {
  }

  /** output_dup() under a condition */
  method OutputIf(out: seq<char>, condition: bool, ch: char, cnt: nat) returns (r: seq<char>)
    ensures r == out + (if condition then Repeat(ch, cnt) else [])
  {
    r := out;
    if condition {
      r := OutputDup(out, ch, cnt);
    }
  }

  method OutputReversed(out: seq<char>, buf: array<char>, n: nat) returns (r: seq<char>)
    requires n <= buf.Length
    ensures r == out + Reverse(buf[..n])
  {
    r := out;
    var cp := n;
    while cp > 0
      invariant 0 <= cp <= n && r + Reverse(buf[..cp]) == out + Reverse(buf[..n])
    {
      cp := cp - 1;
      ReverseLast(buf[..cp], buf[cp]);
      assert buf[..cp + 1] == buf[..cp] + [buf[cp]];
      r := r + [buf[cp]];
    }
  }

  lemma {:induction false} ReverseLast(s: seq<char>, c: char)
    ensures Reverse(s + [c]) == [c] + Reverse(s)
  {
    if s != [] {
      ReverseLast(s[1..], c);
      assert (s + [c])[1..] == s[1..] + [c];
    }
  }

  /** What the field holds besides padding. */
  function ContentWidth(v: nat, isSigned: bool, negative: bool, r: Radix, c: Conversion): nat {
    |Body(v, r, c)| + |Prefix(v, r, c.flags)| + |Sign(isSigned, negative, c.flags)|
  }

  /** The output is as wide as the field, or as its content if that is wider, unless both
      paddings apply: then the field is padded twice. */
  lemma FieldWidth(v: nat, isSigned: bool, negative: bool, r: Radix, c: Conversion)
    ensures |Formatted(v, isSigned, negative, r, c)| == Max(c.width, ContentWidth(v, isSigned, negative, r, c)) <==>
              !(c.flags.minus && c.flags.zero) || c.width <= ContentWidth(v, isSigned, negative, r, c)
    ensures c.flags.minus && c.flags.zero ==>
              |Formatted(v, isSigned, negative, r, c)| ==
                ContentWidth(v, isSigned, negative, r, c) + 2 * Max(c.width - ContentWidth(v, isSigned, negative, r, c), 0)
  {
    hide Body, Reverse, Repeat, Sign, Prefix;
  }

  /** parse_conversion(), from the flag characters, the field width w and the precision p, -1 if
      there is none; a * width or precision may be negative. */
  function ParseConversion(f: Flags, w: int, p: int): Conversion {
    var f1 := f.(zero := f.zero && !f.minus, space := f.space && !f.plus);
    var f2 := if w < 0 then f1.(minus := true) else f1;
    Conversion(f2.(zero := f2.zero && p < 0), if w < 0 then -w else w, if p < 0 then -1 else p)
  }

  /** So printf() keeps to the field unless it is given the flag 0, a negative * width larger than
      the content, and neither the flag - nor a precision. */
  lemma PrintedWidth(v: nat, isSigned: bool, negative: bool, r: Radix, f: Flags, w: int, p: int)
    ensures var c := ParseConversion(f, w, p);
            var n := ContentWidth(v, isSigned, negative, r, c);
            |Formatted(v, isSigned, negative, r, c)| == Max(c.width, n) <==>
              !(f.zero && !f.minus && w < 0 && p < 0) || -w <= n
  {
    hide Formatted, Max, ContentWidth;
    FieldWidth(v, isSigned, negative, r, ParseConversion(f, w, p));
  }

  /** printf ("%0*d", -5, 42) outputs "00042" and three spaces. */
  lemma PaddedTwice()
    ensures var c := ParseConversion(Flags(false, false, false, false, true, false), -5, -1);
            c.width == 5 && Formatted(42, true, false, Dec, c) == "00042   "
  {
    var c := ParseConversion(Flags(false, false, false, false, true, false), -5, -1);
    assert Digits(42, Dec, false, 0) == ['2', '4'];
    assert Body(42, Dec, c) == ['2', '4'] + Repeat('0', 0) == ['2', '4'];
    assert Reverse(['2', '4']) == ['4', '2'];
    assert Repeat('0', 3) == "000" && Repeat(' ', 3) == "   ";
  }

  // ----- atoi() -----

  predicate IsDigit(c: char) {
    '0' <= c <= '9'
  }

  /** isspace() */
  predicate IsSpace(c: char) {
    c == ' ' || '\t' <= c <= '\r'
  }

  predicate IsInt(x: int) {
    INT_MIN <= x <= INT_MAX
  }

  /** The digit loop of atoi(), which counts down; None where an int overflows. */
  function ParseDigits(s: seq<char>, value: int): Option<int> {
    if s == [] || !IsDigit(s[0]) then Some(value)
    else
      var next := value * 10 - (s[0] - '0') as int;
      if IsInt(value * 10) && IsInt(next) then ParseDigits(s[1..], next) else None
  }

  function SkipSpace(s: seq<char>): seq<char> {
    if s != [] && IsSpace(s[0]) then SkipSpace(s[1..]) else s
  }

  /** The number that the digits at the start of s stand for, after digits that stand for n. */
  function DigitsNumber(s: seq<char>, n: int): (m: int)
    requires 0 <= n
    ensures n <= m
  {
    if s == [] || !IsDigit(s[0]) then n else DigitsNumber(s[1..], 10 * n + (s[0] - '0') as int)
  }

  /** The number at the start of s: white space, a sign or none, digits. */
  function Number(s: seq<char>): int {
    var t := SkipSpace(s);
    if t != [] && t[0] == '-' then -DigitsNumber(t[1..], 0)
    else if t != [] && t[0] == '+' then DigitsNumber(t[1..], 0)
    else DigitsNumber(t, 0)
  }

  function ParseSigned(s: seq<char>): Option<int> {
    var negative := s != [] && s[0] == '-';
    var digits := if s != [] && (s[0] == '+' || s[0] == '-') then s[1..] else s;
    var value := ParseDigits(digits, 0);
    if value.None? || negative then value
    else if IsInt(-value.value) then Some(-value.value)
    else None
  }

  /** The loop overflows exactly if the whole number, negated, is not an int. */
  lemma {:induction false} ParsedNumber(s: seq<char>, n: int)
    requires 0 <= n && IsInt(-n)
    ensures ParseDigits(s, -n) == if IsInt(-DigitsNumber(s, n)) then Some(-DigitsNumber(s, n)) else None
  {
    if s != [] && IsDigit(s[0]) {
      var m := 10 * n + (s[0] - '0') as int;
      if IsInt(-m) {
        ParsedNumber(s[1..], m);
      }
    }
  }

  /** atoi() gives the number in the text, whatever follows its digits, if that is an int. */
  lemma AtoiExact(s: seq<char>)
    ensures ParseSigned(SkipSpace(s)) == if IsInt(Number(s)) then Some(Number(s)) else None
  {
    var t := SkipSpace(s);
    ParsedNumber(if t != [] && (t[0] == '+' || t[0] == '-') then t[1..] else t, 0);
  }

  /** The digit loop of atoi(), from position p on. */
  method CountDown(s: seq<char>, start: nat) returns (value: int, overflow: bool)
    requires start <= |s|
    ensures ParseDigits(s[start..], 0) == if overflow then None else Some(value)
  {
    value := 0;
    var p := start;
    while p < |s| && IsDigit(s[p])
      invariant start <= p <= |s| && IsInt(value) && ParseDigits(s[p..], value) == ParseDigits(s[start..], 0)
    {
      assert s[p..][1..] == s[p + 1..];
      var next := value * 10 - (s[p] - '0') as int;
      if !(IsInt(value * 10) && IsInt(next)) {
        return 0, true;
      }
      value := next;
      p := p + 1;
    }
    return value, false;
  }

  /** One more digit at the end. */
  lemma {:induction false} NumberOneMore(a: seq<char>, c: char, n: int)
    requires 0 <= n && IsDigit(c) && forall i :: 0 <= i < |a| ==> IsDigit(a[i])
    ensures DigitsNumber(a + [c], n) == 10 * DigitsNumber(a, n) + (c - '0') as int
  {
    if a != [] {
      assert (a + [c])[1..] == a[1..] + [c];
      NumberOneMore(a[1..], c, 10 * n + (a[0] - '0') as int);
    } else {
      assert ([c])[1..] == [];
    }
  }

  /** atoi() of a string without its terminator; overflow tells of the undefined behaviour of
      an int that overflows. */
  method Atoi(s: seq<char>) returns (value: int, overflow: bool)
    ensures overflow <==> !IsInt(Number(s))
    ensures !overflow ==> value == Number(s)
  {
    hide Number, ParseDigits;
    AtoiExact(s);
    var p := 0;
    while p < |s| && IsSpace(s[p])
      invariant 0 <= p <= |s| && SkipSpace(s[p..]) == SkipSpace(s)
    {
      p := p + 1;
    }
    ghost var t := s[p..];
    assert SkipSpace(s) == t;
    var negative := false;
    if p < |s| && s[p] == '+' {
      p := p + 1;
    } else if p < |s| && s[p] == '-' {
      negative := true;
      p := p + 1;
    }
    assert s[p..] == if t != [] && (t[0] == '+' || t[0] == '-') then t[1..] else t;
    value, overflow := CountDown(s, p);
    if !overflow && !negative {
      overflow, value := !IsInt(-value), -value;
    }
  }

  /** "%d" */
  function PlainD(): Conversion {
    Conversion(Flags(false, false, false, false, false, false), 0, -1)
  }

  /** The text of an int that printf ("%d") outputs. */
  function Text(v: int): seq<char> {
    Formatted(if v < 0 then -v else v, true, v < 0, Dec, PlainD())
  }

  /** The decimal digits, first digit first. */
  function Decimal(v: nat): seq<char> {
    if v == 0 then [] else Decimal(v / 10) + [DigitChar(v % 10, Dec)]
  }

  lemma {:induction false} DecimalReversed(v: nat, count: nat)
    ensures Reverse(Digits(v, Dec, false, count)) == Decimal(v)
    decreases v
  {
    if v > 0 {
      var d, tail := DigitChar(v % 10, Dec), Digits(v / 10, Dec, false, count + 1);
      assert Digits(v, Dec, false, count) == [d] + tail && ([d] + tail)[1..] == tail;
      DecimalReversed(v / 10, count + 1);
    }
  }

  /** The digits of v stand for v. */
  lemma {:induction false} DecimalNumber(v: nat)
    ensures DigitsNumber(Decimal(v), 0) == v && forall i :: 0 <= i < |Decimal(v)| ==> IsDigit(Decimal(v)[i])
  {
    if v > 0 {
      DecimalNumber(v / 10);
      NumberOneMore(Decimal(v / 10), DigitChar(v % 10, Dec), 0);
    }
  }

  /** What "%d" prints: a sign if negative, and the digits, or "0". */
  lemma TextIs(v: int)
    ensures Text(v) == (if v < 0 then ['-'] else []) + (if v == 0 then ['0'] else Decimal(if v < 0 then -v else v))
  {
    hide Digits, Decimal, Reverse;
    var u := if v < 0 then -v else v;
    var d := Digits(u, Dec, false, 0);
    DecimalReversed(u, 0);
    AnyDigit(u);
    assert d + Repeat('0', 0) == d;
    if v == 0 {
      assert d + Repeat('0', 1) == ['0'];
      ReverseLast([], '0');
      assert [] + ['0'] == ['0'];
    }
    EmptyReversed();
  }

  lemma EmptyReversed()
    ensures Reverse([]) == []
  {
  }

  lemma AnyDigit(u: nat)
    ensures u > 0 <==> |Digits(u, Dec, false, 0)| > 0
  {
  }

  /** What "%d" and its like print of v stands for v, so atoi() reads back every int, INT_MIN
      included. */
  lemma AtoiInverse(v: int)
    ensures Number(Text(v)) == v
  {
    hide Decimal, Formatted;
    var u := if v < 0 then -v else v;
    TextIs(v);
    DecimalNumber(u);
    DecimalNotEmpty(u);
    var body := if v == 0 then ['0'] else Decimal(u);
    assert DigitsNumber(body, 0) == u && IsDigit(body[0]);
    assert v >= 0 ==> Text(v) == body;
    SignedNumber(body);
  }

  lemma SignedNumber(body: seq<char>)
    requires body != [] && IsDigit(body[0])
    ensures Number(body) == DigitsNumber(body, 0) && Number(['-'] + body) == -DigitsNumber(body, 0)
  {
    assert SkipSpace(body) == body;
    assert SkipSpace(['-'] + body) == ['-'] + body;
    assert (['-'] + body)[1..] == body;
  }

  /** What atoi() reads: white space is skipped, then one sign, and then the digits count, up to the
      first other character; without digits it is 0. */
  lemma NumberExact(blanks: seq<char>, sign: seq<char>, digits: seq<char>, rest: seq<char>)
    requires forall i :: 0 <= i < |blanks| ==> blanks[i] == ' ' || 9 <= blanks[i] as int <= 13
    requires sign == "" || sign == "+" || sign == "-"
    requires forall i :: 0 <= i < |digits| ==> '0' <= digits[i] <= '9'
    requires rest != "" ==> !('0' <= rest[0] <= '9')
    requires sign == "" && digits == "" && rest != "" ==>
               rest[0] != ' ' && !(9 <= rest[0] as int <= 13) && rest[0] != '+' && rest[0] != '-'
    ensures Number(blanks + sign + digits + rest) == if sign == "-" then -DigitsNumber(digits, 0) else DigitsNumber(digits, 0)
  {
    hide Number, SkipSpace, DigitsNumber;
    var u := digits + rest;
    var t := sign + u;
    assert blanks + sign + digits + rest == blanks + t;
    assert digits != "" ==> u[0] == digits[0];
    assert digits == "" ==> u == rest;
    assert t != "" ==> t[0] == if sign == "" then u[0] else sign[0];
    BlanksSkipped(blanks, t);
    DigitsEnd(digits, rest, 0);
    AfterSign(blanks + t, sign, u);
  }

  lemma AfterSign(s: seq<char>, sign: seq<char>, u: seq<char>)
    requires SkipSpace(s) == sign + u && (sign == "" || sign == "+" || sign == "-")
    requires sign == "" && u != "" ==> u[0] != '+' && u[0] != '-'
    ensures Number(s) == if sign == "-" then -DigitsNumber(u, 0) else DigitsNumber(u, 0)
  {
    hide SkipSpace, DigitsNumber;
    var t := sign + u;
    if sign == "" {
      assert t == u;
    } else {
      assert t[0] == sign[0] && t[1..] == u;
    }
  }

  lemma {:induction false} BlanksSkipped(blanks: seq<char>, t: seq<char>)
    requires forall i :: 0 <= i < |blanks| ==> blanks[i] == ' ' || 9 <= blanks[i] as int <= 13
    requires t != "" ==> t[0] != ' ' && !(9 <= t[0] as int <= 13)
    ensures SkipSpace(blanks + t) == t
    decreases |blanks|
  {
    if blanks == "" {
      assert blanks + t == t;
    } else {
      assert (blanks + t)[0] == blanks[0] && (blanks + t)[1..] == blanks[1..] + t;
      BlanksSkipped(blanks[1..], t);
    }
  }

  lemma {:induction false} DigitsEnd(digits: seq<char>, rest: seq<char>, n: nat)
    requires forall i :: 0 <= i < |digits| ==> '0' <= digits[i] <= '9'
    requires rest != "" ==> !('0' <= rest[0] <= '9')
    ensures DigitsNumber(digits + rest, n) == DigitsNumber(digits, n)
    decreases |digits|
  {
    if digits == "" {
      assert digits + rest == rest;
    } else {
      assert (digits + rest)[0] == digits[0] && (digits + rest)[1..] == digits[1..] + rest;
      DigitsEnd(digits[1..], rest, 10 * n + (digits[0] - '0') as int);
    }
  }

  /** The texts of 2^31 and of INT_MIN: atoi() overflows on the first only. */
  lemma AtoiOverflows()
    ensures !IsInt(Number(Text(0x8000_0000))) && IsInt(Number(Text(INT_MIN)))
  {
    AtoiInverse(0x8000_0000);
    AtoiInverse(INT_MIN);
  }

  lemma DecimalNotEmpty(u: nat)
    ensures u > 0 ==> |Decimal(u)| > 0
  {
  }

  // ----- vsnprintf() -----

  /** buf_size - 1 as an int, or 0. */
  function MaxLength(bufSize: nat): int
    requires bufSize < 0x1_0000_0000
  {
    if bufSize == 0 then 0 else if bufSize - 1 > INT_MAX then bufSize - 1 - 0x1_0000_0000 else bufSize - 1
  }

  /** vsnprintf(), given the characters that __vprintf() hands to vsnprintf_helper(): the buffer
      gets as many of them as fit, and a terminator. */
  method Vsnprintf(buffer: array<char>, bufSize: nat, output: seq<char>) returns (length: nat)
    requires bufSize < 0x1_0000_0000 && buffer.Length >= bufSize && |output| <= INT_MAX
    modifies buffer
    ensures length == |output|
    ensures bufSize > 0 ==>
              var n := Max(Min(|output|, MaxLength(bufSize)), 0);
              n < bufSize && buffer[..] == output[..n] + ['\0'] + old(buffer[n + 1..])
    ensures bufSize == 0 ==> buffer[..] == old(buffer[..])
  {
    var p, maxLength := 0, MaxLength(bufSize);
    length := 0;
    while length < |output|
      invariant 0 <= length <= |output| && p == Max(Min(length, maxLength), 0) && p <= buffer.Length
      invariant buffer[..p] == output[..p] && buffer[p..] == old(buffer[p..])
    {
      if length < maxLength {
        buffer[p] := output[length];
        p := p + 1;
      }
      length := length + 1;
    }
    if bufSize > 0 {
      ghost var tail := buffer[p + 1..];
      buffer[p] := '\0';
      assert buffer[..] == buffer[..p] + [buffer[p]] + buffer[p + 1..];
      assert buffer[..p] == output[..p] && buffer[p + 1..] == tail == old(buffer[p + 1..]);
    }
  }

  /** For buffers of up to 2^31 characters that is the first bufSize - 1 characters exactly; a
      larger size makes the limit negative, and nothing is stored. */
  lemma StoredExactly(bufSize: nat, length: nat)
    requires 0 < bufSize < 0x1_0000_0000 && length <= INT_MAX
    ensures Max(Min(length, MaxLength(bufSize)), 0) == Min(length, bufSize - 1) <==> bufSize <= INT_MAX + 1 || length == 0
  {
  }

  /** With 2^31 + 1 bytes of buffer, not one character is stored. */
  lemma NothingStored()
    ensures MaxLength(0x8000_0001) < 0 && Max(Min(1, MaxLength(0x8000_0001)), 0) == 0
    ensures Min(1, 0x8000_0001 - 1) == 1
  {
  }
}
