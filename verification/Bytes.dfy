/** Bytes, byte ranges and little-endian words, shared by the file-system modules. */
module Bytes {

  type Byte = x: int | 0 <= x < 256 witness 0

  const WORD_LIMIT: int := 0x1_0000_0000

  /** s with the bytes from position ofs on replaced by data. */
  function Splice<T>(s: seq<T>, ofs: nat, data: seq<T>): (r: seq<T>)
    requires ofs + |data| <= |s|
    ensures |r| == |s|
  {
    s[..ofs] + data + s[ofs + |data|..]
  }

  lemma SpliceIndex<T>(s: seq<T>, ofs: nat, data: seq<T>, p: nat)
    requires ofs + |data| <= |s| && p < |s|
    ensures Splice(s, ofs, data)[p] == if ofs <= p < ofs + |data| then data[p - ofs] else s[p]
  {
  }

  /** Two adjacent splices are one. */
  lemma SpliceAppend<T>(s: seq<T>, ofs: nat, a: seq<T>, b: seq<T>)
    requires ofs + |a| + |b| <= |s|
    ensures Splice(Splice(s, ofs, a), ofs + |a|, b) == Splice(s, ofs, a + b)
  {
    var l, r := Splice(Splice(s, ofs, a), ofs + |a|, b), Splice(s, ofs, a + b);
    forall p | 0 <= p < |s|
      ensures l[p] == r[p]
    {
      SpliceIndex(Splice(s, ofs, a), ofs + |a|, b, p);
      SpliceIndex(s, ofs, a, p);
      SpliceIndex(s, ofs, a + b, p);
    }
  }

  /** What was spliced in can be sliced out, and slices beside it are not affected. */
  lemma SpliceSlice<T>(s: seq<T>, ofs: nat, data: seq<T>, lo: nat, hi: nat)
    requires ofs + |data| <= |s| && lo <= hi <= |s|
    ensures lo == ofs && hi == ofs + |data| ==> Splice(s, ofs, data)[lo..hi] == data
    ensures hi <= ofs || ofs + |data| <= lo ==> Splice(s, ofs, data)[lo..hi] == s[lo..hi]
  {
  }

  lemma SplicePrefix<T>(s: seq<T>, ofs: nat, data: seq<T>, n: nat)
    requires ofs + |data| <= n <= |s|
    ensures Splice(s, ofs, data)[..n] == Splice(s[..n], ofs, data)
  {
  }

  lemma SpliceWhole<T>(s: seq<T>, data: seq<T>)
    requires |data| == |s|
    ensures Splice(s, 0, data) == data
  {
  }

  /** n bytes of s from ofs on; ofs may lie beyond the end when n is zero. */
  function Window<T>(s: seq<T>, ofs: nat, n: nat): (w: seq<T>)
    requires n > 0 ==> ofs + n <= |s|
    ensures |w| == n
  {
    if n == 0 then [] else s[ofs..ofs + n]
  }

  /** Splice with the same proviso. */
  function Put<T>(s: seq<T>, ofs: nat, data: seq<T>): (r: seq<T>)
    requires |data| > 0 ==> ofs + |data| <= |s|
    ensures |r| == |s|
  {
    if |data| == 0 then s else Splice(s, ofs, data)
  }

  lemma WindowAppend<T>(s: seq<T>, ofs: nat, m: nat, n: nat)
    requires m + n > 0 ==> ofs + m + n <= |s|
    ensures Window(s, ofs, m) + Window(s, ofs + m, n) == Window(s, ofs, m + n)
  {
  }

  lemma PutAppend<T>(s: seq<T>, ofs: nat, a: seq<T>, b: seq<T>)
    requires |a| + |b| > 0 ==> ofs + |a| + |b| <= |s|
    ensures Put(Put(s, ofs, a), ofs + |a|, b) == Put(s, ofs, a + b)
  {
    if |a| == 0 {
      assert a + b == b;
    } else if |b| == 0 {
      assert a + b == a;
    } else {
      SpliceAppend(s, ofs, a, b);
    }
  }

  function Zeros(n: nat): (z: seq<Byte>)
    ensures |z| == n && forall k :: 0 <= k < n ==> z[k] == 0
  {
    seq(n, _ => 0)
  }

  // ----- C strings -----

  /** A C string without its terminator. */
  type Name = s: seq<Byte> | 0 !in s witness []

  /** The C string that starts a field. */
  function CString(b: seq<Byte>): (s: Name)
    ensures |s| <= |b| && s == b[..|s|]
    ensures |s| < |b| ==> b[|s|] == 0
  {
    if b == [] || b[0] == 0 then [] else [b[0]] + CString(b[1..])
  }

  lemma {:induction false} CStringOf(s: Name, rest: seq<Byte>)
    ensures CString(s + [0] + rest) == s
  {
    var b := s + [0] + rest;
    if s == [] {
    } else {
      assert b[0] == s[0] && b[0] in s;
      assert b[1..] == s[1..] + [0] + rest;
      CStringOf(s[1..], rest);
    }
  }

  // ----- little-endian 32-bit words -----

  function Le32(x: int): (b: seq<Byte>)
    requires 0 <= x < WORD_LIMIT
    ensures |b| == 4
  {
    [x % 256, x / 256 % 256, x / 65536 % 256, x / 16777216]
  }

  function Word(b: seq<Byte>): (x: int)
    requires |b| == 4
    ensures 0 <= x < WORD_LIMIT
  {
    (b[0] as int) + 256 * (b[1] as int) + 65536 * (b[2] as int) + 16777216 * (b[3] as int)
  }

  lemma WordOfLe32(x: int)
    requires 0 <= x < WORD_LIMIT
    ensures Word(Le32(x)) == x
  {
    var a := x / 256;
    var b := a / 256;
    assert x / 65536 == b && x / 16777216 == b / 256;
    assert x == 256 * a + x % 256 && a == 256 * b + a % 256 && b == 256 * (b / 256) + b % 256;
  }

  /** memcpy() */
  method CopyBytes(dst: array<Byte>, dstOfs: nat, src: array<Byte>, srcOfs: nat, n: nat)
    requires dst != src && dstOfs + n <= dst.Length && srcOfs + n <= src.Length
    modifies dst
    ensures dst[..] == Splice(old(dst[..]), dstOfs, src[srcOfs..srcOfs + n])
  {
    forall i | 0 <= i < n {
      dst[dstOfs + i] := src[srcOfs + i];
    }
  }
}
