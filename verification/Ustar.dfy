/** Headers of ustar archives (lib/ustar.c), in the format that the pax utility of IEEE Std
    1003.1-2001 defines under "ustar Interchange Format". */
module Ustar {
  import opened Common
  import opened Bytes

  const HEADER_SIZE: int := 512
  const INT_MAX: int := 0x7fff_ffff
  const ULONG_MAX: int := 0xffff_ffff

  datatype FileType = Regular | Directory

  /** The characters that the format uses. */
  const SLASH: Byte := 47
  const DOT: Byte := 46
  const SPACE: Byte := 32
  const DIGIT: Byte := 48

  function TypeFlag(t: FileType): Byte {
    match t
    case Regular => DIGIT
    case Directory => DIGIT + 5
  }

  // ----- strip_antisocial_prefixes() -----

  /** Where the first slash is, if there is one. */
  function Slash(name: seq<Byte>): (k: nat)
    ensures k <= |name| && (k < |name| ==> name[k] == SLASH)
    ensures forall j :: 0 <= j < k ==> name[j] != SLASH
  {
    if name == [] || name[0] == SLASH then 0 else Slash(name[1..]) + 1
  }

  /** It starts with "/", "./" or "../". */
  predicate Antisocial(name: seq<Byte>) {
    || (|name| > 0 && name[0] == SLASH)
    || (|name| > 1 && name[0] == DOT && name[1] == SLASH)
    || (|name| > 2 && name[0] == DOT && name[1] == DOT && name[2] == SLASH)
  }

  function Tail(name: Name, k: nat): (t: Name)
    requires k <= |name|
  {
    assert forall x :: x in name[k..] ==> x in name;
    name[k..]
  }

  function Strip(name: Name): (r: Name)
    ensures !Antisocial(r) && r != [] && r != [DOT, DOT]
    ensures r == [DOT] || |r| <= |name|
    decreases |name|
  {
    if Antisocial(name) then Strip(Tail(name, Slash(name) + 1))
    else if name == [] || name == [DOT, DOT] then [DOT]
    else name
  }

  /** One prefix "/", "./" or "../" is dropped, and what is left is stripped in turn; a name that
      is empty then, or "..", becomes ".". Together with StripKeeps that determines the result. */
  lemma StripDrops(name: Name)
    ensures Strip([47] + name) == Strip(name) && Strip([46, 47] + name) == Strip(name) && Strip([46, 46, 47] + name) == Strip(name)
    ensures Strip([]) == [46] && Strip([46, 46]) == [46]
  {
    var a: Name, b: Name, c: Name := [47] + name, [46, 47] + name, [46, 46, 47] + name;
    assert Slash(a) == 0;
    assert b[1..][0] == 47 && Slash(b[1..]) == 0 && Slash(b) == 1;
    assert c[1..] == b && Slash(c) == 2;
    assert Tail(a, 1) == name && Tail(b, 2) == name && Tail(c, 3) == name;
  }

  /** A name without such a prefix, and not empty or "..", is kept. */
  lemma StripKeeps(name: Name)
    requires name != [] && name[0] != 47 && name != [46, 46] && !([46, 47] <= name) && !([46, 46, 47] <= name)
    ensures Strip(name) == name
  {
  }

  /** Stripping twice is stripping once. */
  lemma StripIdempotent(name: Name)
    ensures Strip(Strip(name)) == Strip(name)
  {
    StripKeeps(Strip(name));
  }

  lemma HasSlash(name: Name)
    ensures Antisocial(name) ==> Slash(name) < |name|
  {
    assert Slash(name) == |name| ==> forall j :: 0 <= j < |name| ==> name[j] != SLASH;
  }

  /** What is left is "." or a suffix of the name. */
  lemma {:induction false} StripSuffix(name: Name) returns (k: nat)
    ensures Strip(name) == [DOT] || (k <= |name| && Strip(name) == name[k..])
    decreases |name|
  {
    hide Antisocial;
    HasSlash(name);
    k := 0;
    if Antisocial(name) {
      var j := Slash(name) + 1;
      k := StripSuffix(Tail(name, j));
      assert k <= |name| - j ==> Tail(name, j)[k..] == name[k + j..];
      k := k + j;
    } else {
      assert name == name[0..];
    }
  }

  method StripAntisocialPrefixes(name: Name) returns (r: Name)
    ensures r == Strip(name)
  {
    r := name;
    while Antisocial(r)
      invariant Strip(r) == Strip(name)
      decreases |r|
    {
      r := Tail(r, Slash(r) + 1);
    }
    if r == [] || r == [DOT, DOT] {
      r := [DOT];
    }
  }

  // ----- octal fields -----

  /** printf ("%0<width>o"), for values of at most width digits. */
  function Octal(v: nat, width: nat): (s: seq<Byte>)
    ensures |s| == width && forall k :: 0 <= k < width ==> DIGIT <= s[k] < DIGIT + 8
  {
    if width == 0 then [] else Octal(v / 8, width - 1) + [(DIGIT as int) + v % 8]
  }

  /** With the terminator. */
  function OctalField(v: nat, width: nat): (s: seq<Byte>)
    ensures |s| == width + 1 && s[width] == 0
  {
    Octal(v, width) + [0]
  }

  /** parse_octal_field() from character ofs on, having read value. */
  function ParseFrom(s: seq<Byte>, ofs: nat, value: nat): Option<nat>
    decreases |s| - ofs
  {
    if ofs >= |s| then None
    else
      var c := s[ofs];
      if DIGIT <= c < DIGIT + 8 then
        if value > ULONG_MAX / 8 then None else ParseFrom(s, ofs + 1, (c - DIGIT) as int + value * 8)
      else if (c == SPACE || c == 0) && ofs > 0 then Some(value)
      else None
  }

  method ParseOctalField(s: seq<Byte>) returns (ok: bool, value: nat)
    ensures ParseFrom(s, 0, 0) == if ok then Some(value) else None
    ensures value <= ULONG_MAX
  {
    value := 0;
    var ofs := 0;
    while ofs < |s|
      invariant 0 <= ofs <= |s| && value <= ULONG_MAX
      invariant ParseFrom(s, 0, 0) == ParseFrom(s, ofs, value)
    {
      var c := s[ofs];
      if DIGIT <= c < DIGIT + 8 {
        if value > ULONG_MAX / 8 {
          return false, value;
        }
        value := (c - DIGIT) as int + value * 8;
      } else if c == SPACE || c == 0 {
        return ofs > 0, value;
      } else {
        return false, value;
      }
      ofs := ofs + 1;
    }
    return false, value;
  }

  /** v without its last n octal digits. */
  function Shifted(v: nat, n: nat): nat {
    if n == 0 then v else Shifted(v / 8, n - 1)
  }

  lemma {:induction false} ShiftedNext(v: nat, n: nat)
    ensures Shifted(v, n + 1) == Shifted(v, n) / 8 && Shifted(v, n) <= v
  {
    if n > 0 {
      ShiftedNext(v / 8, n - 1);
    }
  }

  /** Digit k of an octal number. */
  lemma {:induction false} OctalDigit(v: nat, width: nat, k: nat)
    requires k < width
    ensures Octal(v, width)[k] == DIGIT + Shifted(v, width - 1 - k) % 8
  {
    if k < width - 1 {
      OctalDigit(v / 8, width - 1, k);
    }
  }

  lemma {:induction false} ParseRest(v: nat, width: nat, k: nat)
    requires 0 < width && k <= width && v <= ULONG_MAX
    ensures ParseFrom(OctalField(v, width), k, Shifted(v, width - k)) == Some(v)
    decreases width - k
  {
    if k < width {
      ParseRest(v, width, k + 1);
      OctalDigit(v, width, k);
      ShiftedNext(v, width - k - 1);
    }
  }

  /** Reading back an octal field that is wide enough. */
  lemma OctalRoundTrip(v: nat, width: nat)
    requires 0 < width && v <= ULONG_MAX && Shifted(v, width) == 0
    ensures ParseFrom(OctalField(v, width), 0, 0) == Some(v)
  {
    ParseRest(v, width, 0);
  }

  /** The number that octal digits stand for, most significant digit first. */
  function OctalValue(s: seq<Byte>): nat
    requires forall k :: 0 <= k < |s| ==> 48 <= s[k] <= 55
  {
    if s == [] then 0 else 8 * OctalValue(s[..|s| - 1]) + (s[|s| - 1] as int - 48)
  }

  /** Field s, read up to position k: the digits so far. */
  lemma {:induction false} ParsePrefix(s: seq<Byte>, k: nat)
    requires k <= |s| && forall i :: 0 <= i < k ==> 48 <= s[i] <= 55
    ensures ParseFrom(s, 0, 0) == if OctalValue(s[..k]) <= 0xffff_ffff then ParseFrom(s, k, OctalValue(s[..k])) else None
    decreases k
  {
    hide ParseFrom;
    if k > 0 {
      ParsePrefix(s, k - 1);
      assert s[..k][..k - 1] == s[..k - 1];
      ParseDigit(s, k - 1, OctalValue(s[..k - 1]));
    } else {
      assert s[..0] == [];
    }
  }

  lemma ParseDigit(s: seq<Byte>, k: nat, value: nat)
    requires k < |s| && 48 <= s[k] <= 55
    ensures value <= 0xffff_ffff ==>
              ParseFrom(s, k, value) ==
                if 8 * value + (s[k] as int - 48) <= 0xffff_ffff then ParseFrom(s, k + 1, 8 * value + (s[k] as int - 48)) else None
  {
  }

  /** Which octal fields are accepted: one digit or more, of a number that fits in 32 bits, and
      then a space or a null; what follows does not matter. */
  lemma OctalExact(s: seq<Byte>, k: nat)
    requires k <= |s| && (forall i :: 0 <= i < k ==> 48 <= s[i] <= 55) && (k < |s| ==> !(48 <= s[k] <= 55))
    ensures ParseFrom(s, 0, 0) ==
              if 0 < k < |s| && (s[k] == 32 || s[k] == 0) && OctalValue(s[..k]) <= 0xffff_ffff then Some(OctalValue(s[..k])) else None
  {
    ParsePrefix(s, k);
  }

  // ----- the header -----

  function Magic(): seq<Byte> {
    [117, 115, 116, 97, 114, 0]
  }

  function Root(): seq<Byte> {
    [114, 111, 111, 116, 0]
  }

  /** Modification time of every file: January 1, 2006. */
  const MTIME: nat := 1136102400

  /** An int as printf() takes it for %o. */
  function Unsigned(x: int): nat
    requires -0x8000_0000 <= x <= INT_MAX
  {
    if x < 0 then x + 0x1_0000_0000 else x
  }

  /** The data that is stored at some offset, and zeros elsewhere. */
  function Stored(data: seq<Byte>, ofs: nat, i: nat, otherwise: Byte): Byte {
    if ofs <= i < ofs + |data| then data[i - ofs] else otherwise
  }

  /** Byte i of the header, except for the checksum field. */
  function Unsummed(name: Name, t: FileType, size: int, i: nat): Byte
    requires |name| <= 99 && -0x8000_0000 <= size <= INT_MAX
  {
    if i < 100 then Stored(name, 0, i, 0)
    else if i < 108 then Stored(OctalField(if t.Regular? then 420 else 493, 7), 100, i, 0)
    else if i < 116 then Stored(OctalField(0, 7), 108, i, 0)
    else if i < 124 then Stored(OctalField(0, 7), 116, i, 0)
    else if i < 136 then Stored(OctalField(Unsigned(size), 11), 124, i, 0)
    else if i < 148 then Stored(OctalField(MTIME, 11), 136, i, 0)
    else if i < 156 then 0
    else if i == 156 then TypeFlag(t)
    else if 257 <= i < 263 then Stored(Magic(), 257, i, 0)
    else if 263 <= i < 265 then DIGIT
    else if 265 <= i < 297 then Stored(Root(), 265, i, 0)
    else if 297 <= i < 329 then Stored(Root(), 297, i, 0)
    else 0
  }

  function UnsummedHeader(name: Name, t: FileType, size: int): (h: seq<Byte>)
    requires |name| <= 99 && -0x8000_0000 <= size <= INT_MAX
    ensures |h| == HEADER_SIZE
  {
    seq(HEADER_SIZE, i requires 0 <= i < HEADER_SIZE => Unsummed(name, t, size, i))
  }

  // ----- the checksum -----

  predicate InChksum(i: int) {
    148 <= i < 156
  }

  function ChksumByte(h: seq<Byte>, i: nat): Byte
    requires i < |h|
  {
    if InChksum(i) then SPACE else h[i]
  }

  /** The sum over the first n bytes, the checksum field taken as spaces. */
  function Sum(h: seq<Byte>, n: nat): nat
    requires n <= |h|
  {
    if n == 0 then 0 else Sum(h, n - 1) + ChksumByte(h, n - 1)
  }

  method CalculateChksum(h: array<Byte>) returns (chksum: nat)
    requires h.Length == HEADER_SIZE
    ensures chksum == Sum(h[..], HEADER_SIZE)
  {
    chksum := 0;
    var i := 0;
    while i < HEADER_SIZE
      invariant 0 <= i <= HEADER_SIZE && chksum == Sum(h[..], i)
    {
      var inChksumField := 148 <= i < 156;
      chksum := chksum + (if inChksumField then SPACE else h[i]) as int;
      i := i + 1;
    }
  }

  lemma {:induction false} SumBound(h: seq<Byte>, n: nat)
    requires n <= |h|
    ensures Sum(h, n) <= 255 * n
  {
    if n > 0 {
      SumBound(h, n - 1);
    }
  }

  /** The sum does not depend on the checksum field, and does on every other byte. */
  lemma {:induction false} SumChanged(h: seq<Byte>, h1: seq<Byte>, n: nat, k: nat)
    requires n <= |h| == |h1| && forall i :: 0 <= i < |h| && i != k && !InChksum(i) ==> h1[i] == h[i]
    ensures !InChksum(k) && k < n ==> Sum(h1, n) - Sum(h, n) == (h1[k] as int) - (h[k] as int)
    ensures InChksum(k) || k >= n ==> Sum(h1, n) == Sum(h, n)
  {
    if n > 0 {
      SumChanged(h, h1, n - 1, k);
    }
  }

  /** The sum of a header of zeros: eight spaces. With SumChanged that determines every sum. */
  lemma SumOfZeros()
    ensures Sum(Zeros(HEADER_SIZE), HEADER_SIZE) == 8 * 32
  {
    ZerosSum(HEADER_SIZE);
  }

  lemma {:induction false} ZerosSum(n: nat)
    requires n <= HEADER_SIZE
    ensures Sum(Zeros(HEADER_SIZE), n) == if n < 148 then 0 else if n < 156 then 32 * (n - 148) else 8 * 32
  {
    if n > 0 {
      ZerosSum(n - 1);
    }
  }

  // ----- making a header -----

  function Header(name: Name, t: FileType, size: int): (h: seq<Byte>)
    requires |name| <= 99 && -0x8000_0000 <= size <= INT_MAX
    ensures |h| == HEADER_SIZE
  {
    var h := UnsummedHeader(name, t, size);
    Splice(h, 148, OctalField(Sum(h, HEADER_SIZE), 7))
  }

  /** memset(), strlcpy(), snprintf() or assignment of a field. */
  method Store(h: array<Byte>, ofs: nat, data: seq<Byte>)
    requires ofs + |data| <= h.Length
    modifies h
    ensures forall i :: 0 <= i < h.Length ==> h[i] == Stored(data, ofs, i, old(h[i]))
  {
    forall i | 0 <= i < |data| {
      h[ofs + i] := data[i];
    }
  }

  /** ustar_make_header() */
  method MakeHeader(fileName: Name, t: FileType, size: int, h: array<Byte>) returns (ok: bool)
    requires h.Length == HEADER_SIZE && -0x8000_0000 <= size <= INT_MAX
    modifies h
    ensures ok <==> |Strip(fileName)| <= 99
    ensures ok ==> h[..] == Header(Strip(fileName), t, size)
    ensures !ok ==> h[..] == old(h[..])
  {
    hide OctalField, Octal, Sum, Magic, Root, Splice;
    var name := StripAntisocialPrefixes(fileName);
    if |name| > 99 {
      return false;
    }
    FillFields(name, t, size, h);
    var chksum := CalculateChksum(h);
    ghost var before := h[..];
    Store(h, 148, OctalField(chksum, 7));
    forall i | 0 <= i < HEADER_SIZE
      ensures h[i] == Splice(before, 148, OctalField(chksum, 7))[i]
    {
      SpliceIndex(before, 148, OctalField(chksum, 7), i);
    }
    assert h[..] == Splice(before, 148, OctalField(chksum, 7));
    return true;
  }

  /** All but the checksum. */
  method FillFields(name: Name, t: FileType, size: int, h: array<Byte>)
    requires h.Length == HEADER_SIZE && |name| <= 99 && -0x8000_0000 <= size <= INT_MAX
    modifies h
    ensures h[..] == UnsummedHeader(name, t, size)
  {
    hide OctalField, Octal, Magic, Root;
    assert |Magic()| == 6 && |Root()| == 5 by { FieldSizes(); }
    Store(h, 0, Zeros(HEADER_SIZE));
    Store(h, 0, name);
    Store(h, 100, OctalField(if t.Regular? then 420 else 493, 7));
    Store(h, 108, OctalField(0, 7));
    Store(h, 116, OctalField(0, 7));
    Store(h, 124, OctalField(Unsigned(size), 11));
    Store(h, 136, OctalField(MTIME, 11));
    Store(h, 156, [TypeFlag(t)]);
    Store(h, 257, Magic());
    Store(h, 263, [DIGIT, DIGIT]);
    Store(h, 297, Root());
    Store(h, 265, Root());
  }

  lemma FieldSizes()
    ensures |Magic()| == 6 && |Root()| == 5
  {
  }

  // ----- parsing a header -----

  datatype Error = NotUstar | BadVersion | CorruptChksum | ChksumMismatch | NameTooLong | UnknownType | CorruptSize | TooLarge

  datatype Parsed = Eof | Entry(name: Name, fileType: FileType, size: nat) | Failed(error: Error)

  /** is_all_zeros() */
  ghost predicate AllZeros(h: seq<Byte>) {
    forall i :: 0 <= i < |h| ==> h[i] == 0
  }

  /** What ustar_parse_header() makes of a header, its checks in order. */
  ghost function Parse(h: seq<Byte>): Parsed
    requires |h| == HEADER_SIZE
  {
    if AllZeros(h) then Eof
    else if h[257..263] != Magic() then Failed(NotUstar)
    else if h[263] != DIGIT || h[264] != DIGIT then Failed(BadVersion)
    else if ParseFrom(h[148..156], 0, 0).None? then Failed(CorruptChksum)
    else if ParseFrom(h[148..156], 0, 0).value != Sum(h, HEADER_SIZE) then Failed(ChksumMismatch)
    else if h[99] != 0 || h[345] != 0 then Failed(NameTooLong)
    else if h[156] != TypeFlag(Regular) && h[156] != TypeFlag(Directory) then Failed(UnknownType)
    else if h[156] == TypeFlag(Regular) then
      if ParseFrom(h[124..136], 0, 0).None? then Failed(CorruptSize)
      else if ParseFrom(h[124..136], 0, 0).value > INT_MAX then Failed(TooLarge)
      else Entry(Strip(CString(h[0..100])), Regular, ParseFrom(h[124..136], 0, 0).value)
    else Entry(Strip(CString(h[0..100])), Directory, 0)
  }

  method IsAllZeros(h: array<Byte>) returns (r: bool)
    ensures r <==> AllZeros(h[..])
  {
    var i := 0;
    while i < h.Length
      invariant 0 <= i <= h.Length && forall j :: 0 <= j < i ==> h[j] == 0
    {
      if h[i] != 0 {
        return false;
      }
      i := i + 1;
    }
    return true;
  }

  /** ustar_parse_header() */
  method ParseHeader(h: array<Byte>) returns (r: Parsed)
    requires h.Length == HEADER_SIZE
    ensures r == Parse(h[..])
  {
    hide ParseFrom, Sum, Strip, CString, Magic;
    var zeros := IsAllZeros(h);
    if zeros {
      return Eof;
    }
    assert h[..][148..156] == h[148..156] && h[..][124..136] == h[124..136] && h[..][257..263] == h[257..263] && h[..][0..100] == h[0..100];
    if h[257..263] != Magic() {
      return Failed(NotUstar);
    } else if h[263] != DIGIT || h[264] != DIGIT {
      return Failed(BadVersion);
    }
    var ok, chksum := ParseOctalField(h[148..156]);
    if !ok {
      return Failed(CorruptChksum);
    }
    var sum := CalculateChksum(h);
    if chksum != sum {
      return Failed(ChksumMismatch);
    } else if h[99] != 0 || h[345] != 0 {
      return Failed(NameTooLong);
    } else if h[156] != TypeFlag(Regular) && h[156] != TypeFlag(Directory) {
      return Failed(UnknownType);
    }
    var size := 0;
    if h[156] == TypeFlag(Regular) {
      ok, size := ParseOctalField(h[124..136]);
      if !ok {
        return Failed(CorruptSize);
      } else if size > INT_MAX {
        return Failed(TooLarge);
      }
    }
    var name := StripAntisocialPrefixes(CString(h[0..100]));
    return Entry(name, if h[156] == TypeFlag(Regular) then Regular else Directory, size);
  }

  // ----- the main results -----

  /** The fields of a header that parsing looks at. */
  lemma HeaderFields(name: Name, t: FileType, size: int)
    requires |name| <= 99 && -0x8000_0000 <= size <= INT_MAX
    ensures var h := Header(name, t, size);
            && h[257..263] == Magic() && h[263] == DIGIT && h[264] == DIGIT && h[99] == 0 && h[345] == 0 && h[156] == TypeFlag(t)
            && h[148..156] == OctalField(Sum(h, HEADER_SIZE), 7) && h[124..136] == OctalField(Unsigned(size), 11)
            && h[0..100] == name + [0] + Zeros(99 - |name|)
  {
    hide OctalField, Octal, Sum, Magic, Root;
    FieldSizes();
    var u, h := UnsummedHeader(name, t, size), Header(name, t, size);
    var field := OctalField(Sum(u, HEADER_SIZE), 7);
    forall i | 0 <= i < HEADER_SIZE
      ensures h[i] == if 148 <= i < 156 then field[i - 148] else Unsummed(name, t, size, i)
    {
      SpliceIndex(u, 148, field, i);
    }
    SameSum(u, h);
  }

  /** All the fields of a header, as numbers and characters: the mode is 0644 or 0755, user and
      group are 0 and "root", and the time is the first of January 2006. */
  lemma MadeFields(name: Name, t: FileType, size: int)
    requires |name| <= 99 && -0x8000_0000 <= size <= INT_MAX
    ensures var h := Header(name, t, size);
            && h[..|name|] == name && (forall i :: |name| <= i < 100 ==> h[i] == 0)
            && ParseFrom(h[100..108], 0, 0) == Some(if t == Regular then 6 * 64 + 4 * 8 + 4 else 7 * 64 + 5 * 8 + 5)
            && ParseFrom(h[108..116], 0, 0) == Some(0) && ParseFrom(h[116..124], 0, 0) == Some(0)
            && ParseFrom(h[124..136], 0, 0) == Some(if size < 0 then size + 0x1_0000_0000 else size)
            && ParseFrom(h[136..148], 0, 0) == Some(1136102400)
            && ParseFrom(h[148..156], 0, 0) == Some(Sum(h, HEADER_SIZE))
            && h[156] == (if t == Regular then 48 else 53) && (forall i :: 157 <= i < 257 ==> h[i] == 0)
            && h[257..265] == [117, 115, 116, 97, 114, 0, 48, 48]
            && h[265..270] == [114, 111, 111, 116, 0] && (forall i :: 270 <= i < 297 ==> h[i] == 0)
            && h[297..302] == [114, 111, 111, 116, 0] && (forall i :: 302 <= i < 512 ==> h[i] == 0)
  {
    hide Octal, OctalField, Sum, Header, Unsummed, ParseFrom, Shifted, Pow8;
    var h := Header(name, t, size);
    HeaderFields(name, t, size);
    HeaderBytes(name, t, size);
    SumBound(h, HEADER_SIZE);
    WideEnough(Sum(h, HEADER_SIZE), Unsigned(size));
    OctalRoundTrip(Sum(h, HEADER_SIZE), 7);
    OctalRoundTrip(Unsigned(size), 11);
    OtherFields(name, t, size);
    OtherBytes(name, t, size);
  }

  lemma OtherBytes(name: Name, t: FileType, size: int)
    requires |name| <= 99 && -0x8000_0000 <= size <= INT_MAX
    ensures var h := Header(name, t, size);
            && h[..|name|] == name && (forall i :: |name| <= i < 100 ==> h[i] == 0)
            && h[156] == (if t == Regular then 48 else 53) && (forall i :: 157 <= i < 257 ==> h[i] == 0)
            && h[257..265] == [117, 115, 116, 97, 114, 0, 48, 48]
            && h[265..270] == [114, 111, 111, 116, 0] && (forall i :: 270 <= i < 297 ==> h[i] == 0)
            && h[297..302] == [114, 111, 111, 116, 0] && (forall i :: 302 <= i < 512 ==> h[i] == 0)
  {
    hide Octal, OctalField, Sum, Header;
    var h := Header(name, t, size);
    HeaderBytes(name, t, size);
    FieldAt(h, 0, name);
    FieldAt(h, 257, [117, 115, 116, 97, 114, 0, 48, 48]);
    FieldAt(h, 265, [114, 111, 111, 116, 0]);
    FieldAt(h, 297, [114, 111, 111, 116, 0]);
  }

  lemma SmallNumber(v: nat)
    requires v <= 493
    ensures ParseFrom(OctalField(v, 7), 0, 0) == Some(v)
  {
    hide OctalField, ParseFrom, Shifted;
    WideEnough(v, 0);
    OctalRoundTrip(v, 7);
  }

  /** Bytes from .. to of a header are those of an octal field. */
  lemma FieldAt(h: seq<Byte>, from: nat, field: seq<Byte>)
    requires from + |field| <= |h| && forall i :: 0 <= i < |field| ==> h[from + i] == field[i]
    ensures h[from..from + |field|] == field
  {
  }

  lemma ModeField(name: Name, t: FileType, size: int)
    requires |name| <= 99 && -0x8000_0000 <= size <= INT_MAX
    ensures Header(name, t, size)[100..108] == OctalField(if t == Regular then 420 else 493, 7)
  {
    hide Octal, OctalField, Sum, Header;
    HeaderBytes(name, t, size);
    FieldAt(Header(name, t, size), 100, OctalField(if t == Regular then 420 else 493, 7));
  }

  lemma OwnerFields(name: Name, t: FileType, size: int)
    requires |name| <= 99 && -0x8000_0000 <= size <= INT_MAX
    ensures Header(name, t, size)[108..116] == OctalField(0, 7) && Header(name, t, size)[116..124] == OctalField(0, 7)
  {
    hide Octal, OctalField, Sum, Header;
    HeaderBytes(name, t, size);
    FieldAt(Header(name, t, size), 108, OctalField(0, 7));
    FieldAt(Header(name, t, size), 116, OctalField(0, 7));
  }

  lemma TimeField(name: Name, t: FileType, size: int)
    requires |name| <= 99 && -0x8000_0000 <= size <= INT_MAX
    ensures Header(name, t, size)[136..148] == OctalField(MTIME, 11)
  {
    hide Octal, OctalField, Sum, Header;
    HeaderBytes(name, t, size);
    FieldAt(Header(name, t, size), 136, OctalField(MTIME, 11));
  }

  lemma OtherFields(name: Name, t: FileType, size: int)
    requires |name| <= 99 && -0x8000_0000 <= size <= INT_MAX
    ensures var h := Header(name, t, size);
            && ParseFrom(h[100..108], 0, 0) == Some(if t == Regular then 420 else 493)
            && ParseFrom(h[108..116], 0, 0) == Some(0) && ParseFrom(h[116..124], 0, 0) == Some(0)
            && ParseFrom(h[136..148], 0, 0) == Some(1136102400)
  {
    hide OctalField, Header, ParseFrom, Shifted;
    ModeField(name, t, size);
    OwnerFields(name, t, size);
    TimeField(name, t, size);
    SmallNumber(420);
    SmallNumber(493);
    SmallNumber(0);
    WideEnough(0, MTIME);
    OctalRoundTrip(MTIME, 11);
  }

  lemma HeaderBytes(name: Name, t: FileType, size: int)
    requires |name| <= 99 && -0x8000_0000 <= size <= INT_MAX
    ensures forall i :: 0 <= i < HEADER_SIZE && !InChksum(i) ==> Header(name, t, size)[i] == Unsummed(name, t, size, i)
  {
    hide OctalField, Octal, Sum, Unsummed;
    var u := UnsummedHeader(name, t, size);
    var field := OctalField(Sum(u, HEADER_SIZE), 7);
    forall i | 0 <= i < HEADER_SIZE && !InChksum(i)
      ensures Header(name, t, size)[i] == Unsummed(name, t, size, i)
    {
      SpliceIndex(u, 148, field, i);
    }
  }

  lemma SameSum(h: seq<Byte>, h1: seq<Byte>)
    requires |h| == |h1| == HEADER_SIZE && forall i :: 0 <= i < |h| && !InChksum(i) ==> h1[i] == h[i]
    ensures Sum(h1, HEADER_SIZE) == Sum(h, HEADER_SIZE)
  {
    SumChanged(h, h1, HEADER_SIZE, 148);
  }

  /** Parsing the header made for a file gives back its stripped name, its type and its size;
      for a directory, size 0. Only a file of negative size is not taken back. */
  lemma RoundTrip(fileName: Name, t: FileType, size: int)
    requires |Strip(fileName)| <= 99 && -0x8000_0000 <= size <= INT_MAX
    ensures Parse(Header(Strip(fileName), t, size)) ==
              if t.Directory? then Entry(Strip(fileName), Directory, 0)
              else if size >= 0 then Entry(Strip(fileName), Regular, size)
              else Failed(TooLarge)
  {
    StripIdempotent(fileName);
    hide OctalField, Octal, Sum, Header, Strip, CString, ParseFrom, Shifted;
    var name := Strip(fileName);
    var h := Header(name, t, size);
    HeaderFields(name, t, size);
    SumBound(h, HEADER_SIZE);
    WideEnough(Sum(h, HEADER_SIZE), Unsigned(size));
    OctalRoundTrip(Sum(h, HEADER_SIZE), 7);
    OctalRoundTrip(Unsigned(size), 11);
    CStringOf(name, Zeros(99 - |name|));
    assert h[263] != 0;
  }

  /** A regular file of size -1. */
  lemma NegativeSizeRefused()
    ensures Strip([97]) == [97] && Parse(Header([97], Regular, -1)) == Failed(TooLarge)
  {
    RoundTrip([97], Regular, -1);
  }

  function Pow8(n: nat): nat {
    if n == 0 then 1 else 8 * Pow8(n - 1)
  }

  lemma {:induction false} ShiftedOut(v: nat, n: nat)
    requires v < Pow8(n)
    ensures Shifted(v, n) == 0
  {
    if n > 0 {
      ShiftedOut(v / 8, n - 1);
    }
  }

  lemma WideEnough(v: nat, w: nat)
    requires v <= 255 * HEADER_SIZE && w <= ULONG_MAX
    ensures Shifted(v, 7) == 0 && Shifted(w, 11) == 0
  {
    assert Pow8(7) == 2097152 && Pow8(11) == 8589934592;
    ShiftedOut(v, 7);
    ShiftedOut(w, 11);
  }

  /** The headers that are accepted: not all zeros; "ustar", a null and "00"; the right checksum;
      a name with its terminator in the first 100 bytes and no prefix; the type 0 of a regular
      file, with a size up to INT_MAX, or the type 5 of a directory. */
  ghost predicate Acceptable(h: seq<Byte>)
    requires |h| == 512
  {
    && h[257] == 117 && h[258] == 115 && h[259] == 116 && h[260] == 97 && h[261] == 114 && h[262] == 0 && h[263] == 48 && h[264] == 48
    && ParseFrom(h[148..156], 0, 0) == Some(Sum(h, 512))
    && h[99] == 0 && h[345] == 0
    && (h[156] == 53 || (h[156] == 48 && ParseFrom(h[124..136], 0, 0).Some? && ParseFrom(h[124..136], 0, 0).value <= 0x7fff_ffff))
  }

  lemma ParseExact(h: seq<Byte>)
    requires |h| == 512
    ensures Parse(h).Entry? <==> Acceptable(h)
    ensures Parse(h).Eof? <==> forall i :: 0 <= i < 512 ==> h[i] == 0
    ensures Parse(h).Entry? && h[156] == 53 ==> Parse(h) == Entry(Strip(CString(h[..100])), Directory, 0)
    ensures Parse(h).Entry? && h[156] == 48 ==>
              Parse(h).name == Strip(CString(h[..100])) && Parse(h).fileType == Regular && Some(Parse(h).size) == ParseFrom(h[124..136], 0, 0)
  {
    hide ParseFrom, Sum, Strip, CString;
    assert h[0..100] == h[..100];
    MagicAt(h);
    assert h[257] == 117 ==> h[257] != 0;
  }

  /** What is wrong with a header, for each error. */
  ghost predicate Flawed(h: seq<Byte>, e: Error)
    requires |h| == 512
  {
    match e
    case NotUstar => !(h[257] == 117 && h[258] == 115 && h[259] == 116 && h[260] == 97 && h[261] == 114 && h[262] == 0)
    case BadVersion => h[263] != 48 || h[264] != 48
    case CorruptChksum => ParseFrom(h[148..156], 0, 0) == None
    case ChksumMismatch => ParseFrom(h[148..156], 0, 0) != Some(Sum(h, 512))
    case NameTooLong => h[99] != 0 || h[345] != 0
    case UnknownType => h[156] != 48 && h[156] != 53
    case CorruptSize => h[156] == 48 && ParseFrom(h[124..136], 0, 0) == None
    case TooLarge => h[156] == 48 && ParseFrom(h[124..136], 0, 0).Some? && ParseFrom(h[124..136], 0, 0).value > 0x7fff_ffff
  }

  function Order(e: Error): nat {
    match e
    case NotUstar => 0
    case BadVersion => 1
    case CorruptChksum => 2
    case ChksumMismatch => 3
    case NameTooLong => 4
    case UnknownType => 5
    case CorruptSize => 6
    case TooLarge => 7
  }

  /** A header fails with the first of its flaws. */
  lemma ErrorExact(h: seq<Byte>, e: Error)
    requires |h| == 512
    ensures Parse(h) == Failed(e) <==>
              (exists i :: 0 <= i < 512 && h[i] != 0) && Flawed(h, e) && forall e1 :: Order(e1) < Order(e) ==> !Flawed(h, e1)
  {
    hide ParseFrom, Sum, Strip, CString;
    MagicAt(h);
    assert Flawed(h, NotUstar) || h[257] != 0;
    if Flawed(h, e) && forall e1 :: Order(e1) < Order(e) ==> !Flawed(h, e1) {
      assert Order(e) > 0 ==> !Flawed(h, NotUstar);
      assert Order(e) > 1 ==> !Flawed(h, BadVersion);
      assert Order(e) > 2 ==> !Flawed(h, CorruptChksum);
      assert Order(e) > 3 ==> !Flawed(h, ChksumMismatch);
      assert Order(e) > 4 ==> !Flawed(h, NameTooLong);
      assert Order(e) > 5 ==> !Flawed(h, UnknownType);
      assert Order(e) > 6 ==> !Flawed(h, CorruptSize);
    }
  }

  lemma MagicAt(h: seq<Byte>)
    requires |h| == 512
    ensures h[257..263] == Magic() <==> h[257] == 117 && h[258] == 115 && h[259] == 116 && h[260] == 97 && h[261] == 114 && h[262] == 0
  {
    var m := h[257..263];
    assert m[0] == h[257] && m[1] == h[258] && m[2] == h[259] && m[3] == h[260] && m[4] == h[261] && m[5] == h[262];
    assert m == [m[0], m[1], m[2], m[3], m[4], m[5]];
  }

  /** Changing one byte outside the checksum field of any header that parses makes parsing
      fail. */
  lemma TamperingDetected(h: seq<Byte>, k: nat, b: Byte)
    requires |h| == HEADER_SIZE && Parse(h).Entry? && k < HEADER_SIZE && !InChksum(k) && b != h[k]
    ensures Parse(h[k := b]).Failed?
  {
    hide ParseFrom, Sum, Strip, CString;
    var h1: seq<Byte> := h[k := b];
    SumChanged(h, h1, HEADER_SIZE, k);
    assert h1[148..156] == h[148..156];
    assert h[257..263][0] == 117 && h[257..263][1] == 115;
    assert h[257] == 117 && h[258] == 115;
    assert h1[257] != 0 || h1[258] != 0;
  }
}
