/** What printf() makes of an integer, character by character (lib/stdio.c): the layout of the
    output, stated by positions, for all flags, widths, precisions and bases. */
module StdioLayout {
  import opened NonLinear
  import opened Stdio

  function Base(r: Radix): nat {
    match r
    case Oct => 8
    case Dec => 10
    case Hex(_) => 16
  }

  function DigitsOf(r: Radix): string {
    match r
    case Oct => "01234567"
    case Dec => "0123456789"
    case Hex(upper) => if upper then "0123456789ABCDEF" else "0123456789abcdef"
  }

  /** Digits between two commas. */
  function Group(r: Radix): nat {
    match r
    case Oct => 3
    case Dec => 3
    case Hex(_) => 4
  }

  function Pow(b: nat, n: nat): (p: nat)
    ensures b > 0 ==> p > 0
  {
    if n == 0 then 1
    else
      var q := Pow(b, n - 1);
      assert b > 0 ==> b * q > 0 by { Positive(b, q); }
      b * q
  }

  lemma Positive(a: int, b: int)
    ensures a > 0 && b > 0 ==> a * b > 0
    ensures a >= 0 && b >= 0 ==> a * b >= 0
  {
  }

  lemma DigitIs(d: nat, r: Radix)
    requires d < Base(r)
    ensures |DigitsOf(r)| == Base(r) && DigitChar(d, r) == DigitsOf(r)[d]
  {
    if d < 5 {
      assert d == 0 || d == 1 || d == 2 || d == 3 || d == 4;
    } else if d < 10 {
      assert d == 5 || d == 6 || d == 7 || d == 8 || d == 9;
    } else {
      assert d == 10 || d == 11 || d == 12 || d == 13 || d == 14 || d == 15;
    }
  }

  /** Characters that n digits take. */
  function Length(n: nat, r: Radix, group: bool): nat {
    if group && n > 0 then n + (n - 1) / Group(r) else n
  }

  /** Whether a comma is at place k, counted from the right. */
  predicate CommaAt(k: nat, r: Radix, group: bool) {
    group && k % (Group(r) + 1) == Group(r)
  }

  /** Digits to the right of place k. */
  function DigitsBelow(k: nat, r: Radix, group: bool): (n: nat)
    ensures n <= k
  {
    if group then k - k / (Group(r) + 1) else k
  }

  /** Where the digit loop stands after count digits. */
  lemma NextPlace(count: nat, r: Radix, group: bool)
    ensures var k := Length(count, r, group);
            if group && count > 0 && count % Group(r) == 0
            then CommaAt(k, r, group) && !CommaAt(k + 1, r, group) && DigitsBelow(k + 1, r, group) == count && Length(count + 1, r, group) == k + 2
            else !CommaAt(k, r, group) && DigitsBelow(k, r, group) == count && Length(count + 1, r, group) == k + 1
  {
    if group && count > 0 {
      PlaceOf(count, Group(r));
    }
  }

  /** The arithmetic of the places, for groups of three or four. */
  lemma PlaceOf(count: nat, g: nat)
    requires count > 0 && (g == 3 || g == 4)
    ensures var k := count + (count - 1) / g;
            if count % g == 0 then k % (g + 1) == g && (k + 1) % (g + 1) != g && k + 1 - (k + 1) / (g + 1) == count && count + 1 + count / g == k + 2
            else k % (g + 1) != g && k - k / (g + 1) == count && count + 1 + count / g == k + 1
  {
    if g == 3 {
      PlaceOfThree(count / 3, count % 3);
    } else {
      PlaceOfFour(count / 4, count % 4);
    }
  }

  lemma PlaceOfThree(q: nat, m: nat)
    requires m < 3 && q + m > 0
    ensures if m == 0 then (3 * q - 1) / 3 == q - 1 && (4 * q - 1) % 4 == 3 && 4 * q % 4 == 0 && 4 * q / 4 == q
            else (3 * q + m - 1) / 3 == q && (4 * q + m) % 4 == m && (4 * q + m) / 4 == q
  {
  }

  lemma PlaceOfFour(q: nat, m: nat)
    requires m < 4 && q + m > 0
    ensures if m == 0 then (4 * q - 1) / 4 == q - 1 && (5 * q - 1) % 5 == 4 && 5 * q % 5 == 0 && 5 * q / 5 == q
            else (4 * q + m - 1) / 4 == q && (5 * q + m) % 5 == m && (5 * q + m) / 5 == q
  {
  }

  lemma RestIs(v: nat, r: Radix)
    ensures Rest(v, r) == v / Base(r) && Last(v, r) == v % Base(r)
  {
  }

  lemma PowStep(v: nat, b: nat, e: nat)
    requires b > 0 && e > 0
    ensures v / b / Pow(b, e - 1) == v / Pow(b, e)
  {
    DivDiv(v, b, Pow(b, e - 1));
  }

  /** What is at place k of the digits of v, counted from the right. */
  function PlaceChar(v: nat, r: Radix, group: bool, k: nat): char {
    if CommaAt(k, r, group) then ','
    else
      var d := v / Pow(Base(r), DigitsBelow(k, r, group)) % Base(r);
      DigitIs(d, r);
      DigitsOf(r)[d]
  }

  /** The digits that the loop gets from v, after count others. */
  lemma {:induction false} DigitsAt(v: nat, r: Radix, group: bool, count: nat, i: nat)
    requires i < |Digits(v, r, group, count)|
    ensures var k := Length(count, r, group) + i;
            if CommaAt(k, r, group) then Digits(v, r, group, count)[i] == ','
            else DigitsBelow(k, r, group) >= count
                 && Digits(v, r, group, count)[i] == DigitChar(v / Pow(Base(r), DigitsBelow(k, r, group) - count) % Base(r), r)
    decreases v
  {
    hide DigitChar, CommaAt, DigitsBelow, Length, Last, Rest, GroupSize;
    GroupIs(r);
    NextPlace(count, r, group);
    RestIs(v, r);
    DigitsNext(v, r, group, count);
    var comma := if group && count > 0 && count % GroupSize(r) == 0 then 1 else 0;
    if i == comma {
      FirstPower(v, Base(r));
    } else if i > comma {
      DigitsAt(Rest(v, r), r, group, count + 1, i - comma - 1);
      var n := DigitsBelow(Length(count, r, group) + i, r, group) - count;
      if n > 0 {
        PowStep(v, Base(r), n);
      }
    }
  }

  lemma GroupIs(r: Radix)
    ensures GroupSize(r) == Group(r)
  {
  }

  lemma FirstPower(v: nat, b: nat)
    ensures Pow(b, 0) == 1 && v / Pow(b, 0) == v
  {
  }

  /** The number of digits of v. */
  function NumDigits(v: nat, b: nat): (n: nat)
    requires b > 1
    ensures v == 0 ==> n == 0
    ensures v > 0 ==> n > 0 && Pow(b, n - 1) <= v < Pow(b, n)
  {
    if v == 0 then 0
    else
      Quotient(v, b);
      var n := NumDigits(v / b, b) + 1;
      PowBounds(v, b, n);
      n
  }

  lemma Quotient(v: nat, b: nat)
    requires v > 0 && b > 1
    ensures 0 <= v / b < v
  {
    QuotientAtLeast(v, b, 0);
    MulLe(2, b, v);
    QuotientBelow(v, b, v);
  }

  lemma PowBounds(v: nat, b: nat, n: nat)
    requires v > 0 && b > 1 && n > 0 && v / b >= 0
    requires if v / b == 0 then n == 1 else n > 1 && Pow(b, n - 2) <= v / b < Pow(b, n - 1)
    ensures Pow(b, n - 1) <= v < Pow(b, n)
  {
    DivBounds(v, b);
    if n == 1 {
      assert Pow(b, 0) == 1 && Pow(b, 1) == b * 1;
    } else {
      MulLe(Pow(b, n - 2), v / b, b);
      MulLe(v / b + 1, Pow(b, n - 1), b);
      MulDistrib(v / b, 1, b);
      MulComm(b, Pow(b, n - 2));
      MulComm(b, Pow(b, n - 1));
    }
  }

  lemma {:induction false} DigitsLong(v: nat, r: Radix, group: bool, count: nat)
    ensures Length(count, r, group) + |Digits(v, r, group, count)| == Length(count + NumDigits(v, Base(r)), r, group)
    decreases v
  {
    hide DigitChar, CommaAt, DigitsBelow, Length, Last, Rest, GroupSize;
    if v > 0 {
      GroupIs(r);
      NextPlace(count, r, group);
      RestIs(v, r);
      DigitsNext(v, r, group, count);
      DigitsLong(Rest(v, r), r, group, count + 1);
    } else {
      NoDigits(r, group, count);
    }
  }

  // ----- the buffer -----

  function Least(precision: int): nat {
    if precision < 0 then 1 else if precision > 63 then 63 else precision
  }

  /** Characters with the zeros that the precision asks for, at most 63. */
  function PaddedLength(v: nat, r: Radix, c: Conversion): (n: nat) {
    Larger(Length(NumDigits(v, Base(r)), r, c.flags.group), Least(c.precision))
  }

  function Larger(a: nat, b: nat): nat {
    if a > b then a else b
  }

  /** Characters of the digits in the output: for # in base 8 a zero is added if none is there. */
  function BodyLength(v: nat, r: Radix, c: Conversion): nat {
    var n := PaddedLength(v, r, c);
    if c.flags.pound && r.Oct? && n == Length(NumDigits(v, Base(r)), r, c.flags.group) then n + 1 else n
  }

  /** The character at place k of the digits, counted from the right: the digit for that power of
      the base, a comma, or a zero to the left of all digits. */
  function BodyChar(v: nat, r: Radix, c: Conversion, k: nat): char {
    if k >= Length(NumDigits(v, Base(r)), r, c.flags.group) then '0' else PlaceChar(v, r, c.flags.group, k)
  }

  /** The first digit of a number is not zero. */
  lemma {:induction false} LeadingDigit(v: nat, r: Radix, group: bool, count: nat)
    requires v > 0
    ensures |Digits(v, r, group, count)| > 0 && Digits(v, r, group, count)[|Digits(v, r, group, count)| - 1] != '0'
    decreases v
  {
    if Rest(v, r) > 0 {
      LeadingDigit(Rest(v, r), r, group, count + 1);
    }
  }

  lemma PaddedAt(v: nat, r: Radix, c: Conversion)
    ensures |Padded(v, r, c)| == PaddedLength(v, r, c)
    ensures forall k :: 0 <= k < |Padded(v, r, c)| ==> Padded(v, r, c)[k] == BodyChar(v, r, c, k)
  {
    hide Digits, Length, NumDigits, PlaceChar, Base;
    var d := Digits(v, r, c.flags.group, 0);
    NoLength(r, c.flags.group);
    DigitsLong(v, r, c.flags.group, 0);
    forall k | 0 <= k < |d|
      ensures d[k] == PlaceChar(v, r, c.flags.group, k)
    {
      PlaceIs(v, r, c.flags.group, k);
    }
  }

  /** The last character in the buffer, the first one to be output, is a zero exactly if it pads. */
  lemma PaddedEnd(v: nat, r: Radix, c: Conversion)
    ensures var p, n := Padded(v, r, c), Length(NumDigits(v, Base(r)), r, c.flags.group);
            |p| > 0 ==> (p[|p| - 1] == '0' <==> |p| > n)
  {
    hide Digits, Length, NumDigits, Base;
    NoLength(r, c.flags.group);
    DigitsLong(v, r, c.flags.group, 0);
    if v > 0 {
      LeadingDigit(v, r, c.flags.group, 0);
    } else {
      NoneAtAll(r, c.flags.group);
    }
  }

  lemma BodyAt(v: nat, r: Radix, c: Conversion)
    ensures |Body(v, r, c)| == BodyLength(v, r, c)
    ensures forall k :: 0 <= k < |Body(v, r, c)| ==> Body(v, r, c)[k] == BodyChar(v, r, c, k)
  {
    hide Padded, Length, NumDigits, PlaceChar, Base;
    PaddedAt(v, r, c);
    PaddedEnd(v, r, c);
  }

  lemma NoLength(r: Radix, group: bool)
    ensures Length(0, r, group) == 0
  {
  }

  lemma NoneAtAll(r: Radix, group: bool)
    ensures Digits(0, r, group, 0) == []
  {
  }

  lemma PlaceIs(v: nat, r: Radix, group: bool, k: nat)
    requires k < |Digits(v, r, group, 0)|
    ensures Digits(v, r, group, 0)[k] == PlaceChar(v, r, group, k)
  {
    hide Digits, DigitChar, CommaAt, DigitsBelow, DigitsOf;
    DigitsAt(v, r, group, 0, k);
    if !CommaAt(k, r, group) {
      DigitIs(v / Pow(Base(r), DigitsBelow(k, r, group)) % Base(r), r);
    }
  }

  lemma {:induction false} ReverseAt(s: seq<char>, i: nat)
    requires i < |s|
    ensures Reverse(s)[i] == s[|s| - 1 - i]
  {
    if i < |s| - 1 {
      ReverseAt(s[1..], i);
    }
  }

  // ----- the output -----

  /** The sign, if any: - for negative numbers alone, + and a space by their flags. */
  function SignWidth(isSigned: bool, negative: bool, f: Flags): nat {
    if isSigned && (negative || f.plus || f.space) then 1 else 0
  }

  function SignIs(negative: bool, f: Flags): char {
    if negative then '-' else if f.plus then '+' else ' '
  }

  /** The 0x of a # conversion, if any. */
  function PrefixWidth(v: nat, r: Radix, f: Flags): nat {
    if f.pound && r.Hex? && v > 0 then 2 else 0
  }

  /** All the characters of ch between two positions. */
  predicate Filled(out: seq<char>, from: nat, to: nat, ch: char) {
    to <= |out| && forall i :: from <= i < to ==> out[i] == ch
  }

  /** left blanks, a sign if s is 1, 0x or 0X if x is 2, zeros, the digits, and right blanks. */
  ghost predicate Sections(out: seq<char>, left: nat, s: nat, x: nat, zeros: nat, right: nat, v: nat, negative: bool, r: Radix, c: Conversion) {
    var n := BodyLength(v, r, c);
    && |out| == left + s + x + zeros + n + right
    && Filled(out, 0, left, ' ')
    && (s == 1 ==> out[left] == SignIs(negative, c.flags))
    && (x == 2 ==> out[left + s] == '0' && out[left + s + 1] == if r == Hex(true) then 'X' else 'x')
    && Filled(out, left + s + x, left + s + x + zeros, '0')
    && (forall k :: 0 <= k < n ==> out[left + s + x + zeros + n - 1 - k] == BodyChar(v, r, c, k))
    && Filled(out, left + s + x + zeros + n, |out|, ' ')
  }

  /** The padding fills the field: blanks in front without the flags - and 0, zeros for 0, and
      blanks behind for -. */
  ghost predicate LaidOut(out: seq<char>, v: nat, isSigned: bool, negative: bool, r: Radix, c: Conversion) {
    var s, x := SignWidth(isSigned, negative, c.flags), PrefixWidth(v, r, c.flags);
    var content := s + x + BodyLength(v, r, c);
    var pad := if c.width > content then c.width - content else 0;
    Sections(out, if !c.flags.minus && !c.flags.zero then pad else 0, s, x, if c.flags.zero then pad else 0, if c.flags.minus then pad else 0,
             v, negative, r, c)
  }

  lemma SixParts(a: seq<char>, b: seq<char>, c: seq<char>, d: seq<char>, e: seq<char>, f: seq<char>)
    ensures var out := a + b + c + d + e + f;
            var l1 := |a|;
            var l2 := l1 + |b|;
            var l3 := l2 + |c|;
            var l4 := l3 + |d|;
            var l5 := l4 + |e|;
            && |out| == l5 + |f| && out[..l1] == a && out[l1..l2] == b && out[l2..l3] == c && out[l3..l4] == d && out[l4..l5] == e && out[l5..] == f
  {
  }

  lemma FilledPart(out: seq<char>, from: nat, to: nat, ch: char, cnt: nat)
    requires from <= to <= |out| && out[from..to] == Repeat(ch, cnt)
    ensures Filled(out, from, to, ch)
  {
    forall i | from <= i < to
      ensures out[i] == ch
    {
      assert out[i] == out[from..to][i - from];
    }
  }

  lemma BodyPart(out: seq<char>, from: nat, v: nat, r: Radix, c: Conversion)
    requires from + BodyLength(v, r, c) <= |out| && out[from..from + BodyLength(v, r, c)] == Reverse(Body(v, r, c))
    ensures forall k :: 0 <= k < BodyLength(v, r, c) ==> out[from + BodyLength(v, r, c) - 1 - k] == BodyChar(v, r, c, k)
  {
    hide Body, Reverse, BodyLength, BodyChar;
    BodyAt(v, r, c);
    var n := BodyLength(v, r, c);
    forall k | 0 <= k < n
      ensures out[from + n - 1 - k] == BodyChar(v, r, c, k)
    {
      ReverseAt(Body(v, r, c), n - 1 - k);
      assert out[from + n - 1 - k] == out[from..from + n][n - 1 - k];
    }
  }

  lemma SignPart(v: nat, isSigned: bool, negative: bool, r: Radix, f: Flags)
    ensures |Sign(isSigned, negative, f)| == SignWidth(isSigned, negative, f)
    ensures SignWidth(isSigned, negative, f) == 1 ==> Sign(isSigned, negative, f) == [SignIs(negative, f)]
    ensures |Prefix(v, r, f)| == PrefixWidth(v, r, f)
    ensures PrefixWidth(v, r, f) == 2 ==> Prefix(v, r, f) == ['0', if r == Hex(true) then 'X' else 'x']
  {
  }

  lemma SectionsIf(out: seq<char>, left: nat, sign: seq<char>, prefix: seq<char>, zeros: nat, right: nat,
                   v: nat, negative: bool, r: Radix, c: Conversion)
    requires |sign| == 1 ==> sign == [SignIs(negative, c.flags)]
    requires |prefix| == 2 ==> prefix == ['0', if r == Hex(true) then 'X' else 'x']
    requires var l1, l2, l3 := left + |sign|, left + |sign| + |prefix|, left + |sign| + |prefix| + zeros;
             && |out| == l3 + BodyLength(v, r, c) + right
             && out[..left] == Repeat(' ', left) && out[left..l1] == sign && out[l1..l2] == prefix && out[l2..l3] == Repeat('0', zeros)
             && out[l3..l3 + BodyLength(v, r, c)] == Reverse(Body(v, r, c)) && out[l3 + BodyLength(v, r, c)..] == Repeat(' ', right)
    ensures Sections(out, left, |sign|, |prefix|, zeros, right, v, negative, r, c)
  {
    hide Body, Reverse, BodyLength, BodyChar, Filled, SignIs, Repeat;
    var l1 := left + |sign|;
    var l2 := l1 + |prefix|;
    var l3 := l2 + zeros;
    FilledPart(out, 0, left, ' ', left);
    FilledPart(out, l2, l3, '0', zeros);
    FilledPart(out, l3 + BodyLength(v, r, c), |out|, ' ', right);
    BodyPart(out, l3, v, r, c);
    assert |sign| == 1 ==> out[left] == out[left..l1][0];
    assert |prefix| == 2 ==> out[l1] == out[l1..l2][0] && out[l1 + 1] == out[l1..l2][1];
  }

  lemma SectionsOf(left: nat, sign: seq<char>, prefix: seq<char>, zeros: nat, right: nat, v: nat, negative: bool, r: Radix, c: Conversion)
    requires |sign| == 1 ==> sign == [SignIs(negative, c.flags)]
    requires |prefix| == 2 ==> prefix == ['0', if r == Hex(true) then 'X' else 'x']
    ensures Sections(Repeat(' ', left) + sign + prefix + Repeat('0', zeros) + Reverse(Body(v, r, c)) + Repeat(' ', right),
                     left, |sign|, |prefix|, zeros, right, v, negative, r, c)
  {
    hide Body, Reverse, BodyLength, BodyChar, Sections, SignIs;
    BodyAt(v, r, c);
    SixParts(Repeat(' ', left), sign, prefix, Repeat('0', zeros), Reverse(Body(v, r, c)), Repeat(' ', right));
    SectionsIf(Repeat(' ', left) + sign + prefix + Repeat('0', zeros) + Reverse(Body(v, r, c)) + Repeat(' ', right),
               left, sign, prefix, zeros, right, v, negative, r, c);
  }

  /** What format_integer() outputs is laid out like that, for every input. */
  lemma Layout(v: nat, isSigned: bool, negative: bool, r: Radix, c: Conversion)
    ensures LaidOut(Formatted(v, isSigned, negative, r, c), v, isSigned, negative, r, c)
  {
    hide Body, Reverse, BodyLength, Sign, Prefix, SignWidth, PrefixWidth, SignIs, Repeat, Sections;
    BodyAt(v, r, c);
    SignPart(v, isSigned, negative, r, c.flags);
    var f := c.flags;
    var sign, prefix := Sign(isSigned, negative, f), Prefix(v, r, f);
    var pad := Max(c.width - |Body(v, r, c)| - |prefix| - |sign|, 0);
    NoRepeat(' ');
    NoRepeat('0');
    SectionsOf(if !f.minus && !f.zero then pad else 0, sign, prefix, if f.zero then pad else 0, if f.minus then pad else 0, v, negative, r, c);
  }

  lemma NoRepeat(ch: char)
    ensures Repeat(ch, 0) == []
  {
  }

  /** For printf(), in terms of the flags, width w and precision p of the conversion as it is
      written: - overrides 0, a negative * width stands for -, and a precision disables 0. */
  lemma PrintedLayout(v: nat, isSigned: bool, negative: bool, r: Radix, f: Flags, w: int, p: int)
    ensures LaidOut(Formatted(v, isSigned, negative, r, ParseConversion(f, w, p)), v, isSigned, negative, r,
                    Conversion(Flags(f.minus || w < 0, f.plus, f.space, f.pound, f.zero && !f.minus && p < 0, f.group),
                               if w < 0 then -w else w, p))
  {
    hide Formatted, LaidOut, BodyLength, BodyChar, ParseConversion;
    Layout(v, isSigned, negative, r, ParseConversion(f, w, p));
    SamePadded(v, r, f, w, p);
    SameFlags(v, isSigned, negative, r, f, w, p);
    SameLayout(Formatted(v, isSigned, negative, r, ParseConversion(f, w, p)), v, isSigned, negative, r, ParseConversion(f, w, p),
               Conversion(Flags(f.minus || w < 0, f.plus, f.space, f.pound, f.zero && !f.minus && p < 0, f.group), if w < 0 then -w else w, p));
  }

  lemma SameFlags(v: nat, isSigned: bool, negative: bool, r: Radix, f: Flags, w: int, p: int)
    ensures var c, c1 := ParseConversion(f, w, p),
              Conversion(Flags(f.minus || w < 0, f.plus, f.space, f.pound, f.zero && !f.minus && p < 0, f.group), if w < 0 then -w else w, p);
            && c.width == c1.width && c.flags.minus == c1.flags.minus && c.flags.zero == c1.flags.zero
            && SignWidth(isSigned, negative, c.flags) == SignWidth(isSigned, negative, c1.flags)
            && (SignWidth(isSigned, negative, c.flags) == 1 ==> SignIs(negative, c.flags) == SignIs(negative, c1.flags))
            && PrefixWidth(v, r, c.flags) == PrefixWidth(v, r, c1.flags)
  {
  }

  lemma SameLayout(out: seq<char>, v: nat, isSigned: bool, negative: bool, r: Radix, c: Conversion, c1: Conversion)
    requires LaidOut(out, v, isSigned, negative, r, c)
    requires c.width == c1.width && c.flags.minus == c1.flags.minus && c.flags.zero == c1.flags.zero
    requires SignWidth(isSigned, negative, c.flags) == SignWidth(isSigned, negative, c1.flags)
    requires SignWidth(isSigned, negative, c.flags) == 1 ==> SignIs(negative, c.flags) == SignIs(negative, c1.flags)
    requires PrefixWidth(v, r, c.flags) == PrefixWidth(v, r, c1.flags) && BodyLength(v, r, c) == BodyLength(v, r, c1)
    requires forall k: nat :: BodyChar(v, r, c, k) == BodyChar(v, r, c1, k)
    ensures LaidOut(out, v, isSigned, negative, r, c1)
  {
    hide SignWidth, PrefixWidth, SignIs, Sections, BodyLength, BodyChar;
    var pad := c.width - (SignWidth(isSigned, negative, c.flags) + PrefixWidth(v, r, c.flags) + BodyLength(v, r, c));
    var n := if pad > 0 then pad else 0;
    SameSections(out, if !c.flags.minus && !c.flags.zero then n else 0,
                 SignWidth(isSigned, negative, c.flags), PrefixWidth(v, r, c.flags), if c.flags.zero then n else 0,
                 if c.flags.minus then n else 0, v, negative, r, c, c1);
  }

  lemma SameSections(out: seq<char>, left: nat, s: nat, x: nat, zeros: nat, right: nat, v: nat, negative: bool, r: Radix,
                     c: Conversion, c1: Conversion)
    requires Sections(out, left, s, x, zeros, right, v, negative, r, c) && BodyLength(v, r, c) == BodyLength(v, r, c1)
    requires (s == 1 ==> SignIs(negative, c.flags) == SignIs(negative, c1.flags)) && forall k: nat :: BodyChar(v, r, c, k) == BodyChar(v, r, c1, k)
    ensures Sections(out, left, s, x, zeros, right, v, negative, r, c1)
  {
    hide BodyLength, BodyChar, SignIs, Filled;
  }

  lemma SamePadded(v: nat, r: Radix, f: Flags, w: int, p: int)
    ensures var c, c1 := ParseConversion(f, w, p),
              Conversion(Flags(f.minus || w < 0, f.plus, f.space, f.pound, f.zero && !f.minus && p < 0, f.group), if w < 0 then -w else w, p);
            && BodyLength(v, r, c) == BodyLength(v, r, c1)
            && forall k: nat :: BodyChar(v, r, c, k) == BodyChar(v, r, c1, k)
  {
  }
}
