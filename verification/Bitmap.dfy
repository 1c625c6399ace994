/** Bitmaps (lib/kernel/bitmap.c), as far as the free-sector map and the page pools use
    them: a fixed number of bits, searched first-fit. */
module Bitmaps {

  /** All cnt bits from start on equal value. */
  ghost predicate AllAre(b: seq<bool>, start: nat, cnt: nat, value: bool) {
    start + cnt <= |b| && forall k :: start <= k < start + cnt ==> b[k] == value
  }

  /** Where a first-fit search from k on finds cnt bits equal to value, or -1. */
  ghost function FirstGroup(b: seq<bool>, k: nat, cnt: nat, value: bool): (r: int)
    ensures -1 <= r
    ensures r >= 0 ==> k <= r && AllAre(b, r, cnt, value)
    decreases |b| - k
  {
    if k + cnt > |b| then -1
    else if AllAre(b, k, cnt, value) then k
    else if k == |b| then -1
    else FirstGroup(b, k + 1, cnt, value)
  }

  /** It finds the lowest such group, and fails only if there is none. */
  lemma {:induction false} FirstGroupIsLowest(b: seq<bool>, k: nat, cnt: nat, value: bool, j: nat)
    requires k <= j && AllAre(b, j, cnt, value)
    ensures 0 <= FirstGroup(b, k, cnt, value) <= j
    decreases |b| - k
  {
    if !AllAre(b, k, cnt, value) {
      FirstGroupIsLowest(b, k + 1, cnt, value, j);
    }
  }

  function SetRange(b: seq<bool>, start: nat, cnt: nat, value: bool): (r: seq<bool>)
    requires start + cnt <= |b|
    ensures |r| == |b|
    ensures forall k :: 0 <= k < |b| ==> r[k] == if start <= k < start + cnt then value else b[k]
  {
    b[..start] + seq(cnt, _ => value) + b[start + cnt..]
  }

  /** Clearing a range that was just set restores the bitmap. */
  lemma SetRangeUndo(b: seq<bool>, start: nat, cnt: nat, value: bool)
    requires AllAre(b, start, cnt, value)
    ensures SetRange(SetRange(b, start, cnt, !value), start, cnt, value) == b
  {
  }

  class Bitmap {
    const bits: array<bool>

    constructor (n: nat)
      ensures fresh(bits) && bits.Length == n && AllAre(bits[..], 0, n, false)
    {
      bits := new bool[n](_ => false);
    }

    /** bitmap_contains() */
    method Contains(start: nat, cnt: nat, value: bool) returns (r: bool)
      requires start + cnt <= bits.Length
      ensures r <==> !AllAre(bits[..], start, cnt, !value)
    {
      var i := 0;
      while i < cnt
        invariant 0 <= i <= cnt
        invariant forall k :: start <= k < start + i ==> bits[k] == !value
      {
        if bits[start + i] == value {
          return true;
        }
        i := i + 1;
      }
      return false;
    }

    /** bitmap_set_multiple() */
    method SetMultiple(start: nat, cnt: nat, value: bool)
      requires start + cnt <= bits.Length
      modifies bits
      ensures bits[..] == SetRange(old(bits[..]), start, cnt, value)
    {
      var i := 0;
      while i < cnt
        invariant 0 <= i <= cnt
        invariant forall k :: 0 <= k < bits.Length ==>
                    bits[k] == if start <= k < start + i then value else old(bits[k])
      {
        bits[start + i] := value;
        i := i + 1;
      }
    }

    /** bitmap_scan() from index 0: the first group of cnt bits equal to value, or -1. */
    method Scan(cnt: nat, value: bool) returns (r: int)
      ensures r == FirstGroup(bits[..], 0, cnt, value)
    {
      if cnt <= bits.Length {
        var last := bits.Length - cnt;
        var i := 0;
        while i <= last
          invariant 0 <= i <= last + 1
          invariant FirstGroup(bits[..], 0, cnt, value) == FirstGroup(bits[..], i, cnt, value)
        {
          var c := Contains(i, cnt, !value);
          if !c {
            return i;
          }
          i := i + 1;
        }
      }
      return -1;
    }

    /** bitmap_scan_and_flip() */
    method ScanAndFlip(cnt: nat, value: bool) returns (r: int)
      modifies bits
      ensures r == FirstGroup(old(bits[..]), 0, cnt, value)
      ensures r >= 0 ==> r + cnt <= bits.Length && bits[..] == SetRange(old(bits[..]), r, cnt, !value)
      ensures r == -1 ==> bits[..] == old(bits[..])
    {
      r := Scan(cnt, value);
      if r >= 0 {
        SetMultiple(r, cnt, !value);
      }
    }
  }
}
