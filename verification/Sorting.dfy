/** Heapsort and binary search of lib/stdlib.c.
    The first half is about sequences of elements with 1-based heap indices; the second half
    runs the same algorithm on an array of bytes, in place, element by element. */
module Sorting {
  import opened NonLinear
  import opened Bytes

  // ----- comparison functions -----

  /** What sort() and binary_search() demand of the caller's strcmp()-like function. */
  ghost predicate TotalPreorder<E(!new)>(cmp: (E, E) -> int) {
    && (forall x, y :: cmp(x, y) > 0 <==> cmp(y, x) < 0)
    && (forall x, y, z :: cmp(x, y) <= 0 && cmp(y, z) <= 0 ==> cmp(x, z) <= 0)
  }

  lemma Transitive<E(!new)>(cmp: (E, E) -> int, x: E, y: E, z: E)
    requires TotalPreorder(cmp) && cmp(x, y) <= 0 && cmp(y, z) <= 0
    ensures cmp(x, z) <= 0
  {
  }

  ghost predicate SortedBy<E>(s: seq<E>, cmp: (E, E) -> int) {
    forall i, j :: 0 <= i < j < |s| ==> cmp(s[i], s[j]) <= 0
  }

  // ----- heaps on sequences, with 1-based indices -----

  function Swap<E>(s: seq<E>, i: nat, j: nat): (r: seq<E>)
    requires 1 <= i <= |s| && 1 <= j <= |s|
    ensures |r| == |s|
  {
    s[i - 1 := s[j - 1]][j - 1 := s[i - 1]]
  }

  lemma SwapPermutes<E>(s: seq<E>, i: nat, j: nat)
    requires 1 <= i <= |s| && 1 <= j <= |s|
    ensures multiset(Swap(s, i, j)) == multiset(s)
  {
  }

  /** The index of the largest element among i and its children within 1..cnt. */
  function LargestOfFamily<E>(s: seq<E>, i: nat, cnt: nat, cmp: (E, E) -> int): (m: nat)
    requires 1 <= i <= cnt <= |s|
    ensures m <= cnt && (m == i || m == 2 * i || m == 2 * i + 1)
  {
    var m := if 2 * i <= cnt && cmp(s[2 * i - 1], s[i - 1]) > 0 then 2 * i else i;
    if 2 * i + 1 <= cnt && cmp(s[2 * i], s[m - 1]) > 0 then 2 * i + 1 else m
  }

  lemma LargestDominates<E(!new)>(s: seq<E>, i: nat, cnt: nat, cmp: (E, E) -> int)
    requires TotalPreorder(cmp) && 1 <= i <= cnt <= |s|
    ensures DominatesFamily(s, i, cnt, LargestOfFamily(s, i, cnt, cmp), cmp)
  {
    assert cmp(s[i - 1], s[i - 1]) <= 0;
  }

  /** m is the index of a largest element among i and its children. */
  ghost predicate DominatesFamily<E>(s: seq<E>, i: nat, cnt: nat, m: nat, cmp: (E, E) -> int)
    requires 1 <= i <= cnt <= |s|
  {
    && 1 <= m <= cnt
    && cmp(s[i - 1], s[m - 1]) <= 0
    && (2 * i <= cnt ==> cmp(s[2 * i - 1], s[m - 1]) <= 0)
    && (2 * i + 1 <= cnt ==> cmp(s[2 * i], s[m - 1]) <= 0)
  }

  /** What heapify() computes: the element at i floats down to where it dominates. */
  function SiftDown<E>(s: seq<E>, i: nat, cnt: nat, cmp: (E, E) -> int): (r: seq<E>)
    requires 1 <= i && cnt <= |s|
    ensures |r| == |s|
    decreases cnt - i
  {
    if i > cnt then s
    else
      var m := LargestOfFamily(s, i, cnt, cmp);
      if m == i then s else SiftDown(Swap(s, i, m), m, cnt, cmp)
  }

  lemma {:induction false} SiftDownPermutes<E>(s: seq<E>, i: nat, cnt: nat, cmp: (E, E) -> int)
    requires 1 <= i && cnt <= |s|
    ensures multiset(SiftDown(s, i, cnt, cmp)) == multiset(s)
    ensures SiftDown(s, i, cnt, cmp)[cnt..] == s[cnt..]
    decreases cnt - i
  {
    if i <= cnt {
      var m := LargestOfFamily(s, i, cnt, cmp);
      if m != i {
        SwapPermutes(s, i, m);
        SiftDownPermutes(Swap(s, i, m), m, cnt, cmp);
      }
    }
  }

  /** Every element of the first cnt is below x. */
  ghost predicate Below<E>(s: seq<E>, cnt: nat, x: E, cmp: (E, E) -> int) {
    forall k :: 0 <= k < cnt <= |s| ==> cmp(s[k], x) <= 0
  }

  lemma {:induction false} SiftDownBelow<E>(s: seq<E>, i: nat, cnt: nat, x: E, cmp: (E, E) -> int)
    requires 1 <= i && cnt <= |s| && Below(s, cnt, x, cmp)
    ensures Below(SiftDown(s, i, cnt, cmp), cnt, x, cmp)
    decreases cnt - i
  {
    if i <= cnt {
      var m := LargestOfFamily(s, i, cnt, cmp);
      if m != i {
        SiftDownBelow(Swap(s, i, m), m, cnt, x, cmp);
      }
    }
  }

  /** Node c does not exceed its parent. */
  ghost predicate BelowParent<E>(s: seq<E>, c: nat, cmp: (E, E) -> int)
    requires 2 <= c <= |s|
  {
    cmp(s[c - 1], s[c / 2 - 1]) <= 0
  }

  /** The nodes lo..cnt satisfy the heap property. */
  ghost predicate HeapFrom<E>(s: seq<E>, lo: nat, cnt: nat, cmp: (E, E) -> int)
    requires 1 <= lo && cnt <= |s|
  {
    forall c :: 2 <= c <= cnt && lo <= c / 2 ==> BelowParent(s, c, cmp)
  }

  /** The same with a possible defect between i and its children, which may be compared with
      the parent of i instead. */
  ghost predicate HeapExcept<E>(s: seq<E>, lo: nat, cnt: nat, i: nat, cmp: (E, E) -> int)
    requires 1 <= lo && cnt <= |s|
  {
    && (forall c :: 2 <= c <= cnt && lo <= c / 2 && c / 2 != i ==> BelowParent(s, c, cmp))
    && (forall c :: 2 <= c <= cnt && lo <= c / 2 / 2 && c / 2 == i ==> BelowGrandparent(s, c, cmp))
  }

  ghost predicate BelowGrandparent<E>(s: seq<E>, c: nat, cmp: (E, E) -> int)
    requires 4 <= c <= |s|
  {
    cmp(s[c - 1], s[c / 2 / 2 - 1]) <= 0
  }

  /** One step down moves the only defect of the heap from i to its larger child m. */
  lemma SiftStep<E>(s: seq<E>, lo: nat, cnt: nat, i: nat, m: nat, cmp: (E, E) -> int)
    requires 1 <= lo <= i <= cnt <= |s| && HeapExcept(s, lo, cnt, i, cmp)
    requires m / 2 == i && DominatesFamily(s, i, cnt, m, cmp)
    ensures HeapExcept(Swap(s, i, m), lo, cnt, m, cmp)
  {
    var t := Swap(s, i, m);
    forall c | 2 <= c <= cnt && lo <= c / 2 && c / 2 != m
      ensures BelowParent(t, c, cmp)
    {
      if c == i {
        assert BelowGrandparent(s, m, cmp);
      } else if c / 2 == i {
        assert c == 2 * i || c == 2 * i + 1;
      } else {
        assert BelowParent(s, c, cmp);
      }
    }
    forall c | 2 <= c <= cnt && lo <= c / 2 / 2 && c / 2 == m
      ensures BelowGrandparent(t, c, cmp)
    {
      assert BelowParent(s, c, cmp);
    }
  }

  /** heapify() restores the heap property for the whole range, whatever was at i. */
  lemma {:induction false} SiftDownRestoresHeap<E(!new)>(s: seq<E>, lo: nat, cnt: nat, i: nat, cmp: (E, E) -> int)
    requires TotalPreorder(cmp) && 1 <= lo <= i && cnt <= |s| && HeapExcept(s, lo, cnt, i, cmp)
    ensures HeapFrom(SiftDown(s, i, cnt, cmp), lo, cnt, cmp)
    decreases cnt - i
  {
    if i <= cnt {
      var m := LargestOfFamily(s, i, cnt, cmp);
      LargestDominates(s, i, cnt, cmp);
      if m == i {
        SettledHeap(s, lo, cnt, i, cmp);
      } else {
        SiftStep(s, lo, cnt, i, m, cmp);
        SiftDownRestoresHeap(Swap(s, i, m), lo, cnt, m, cmp);
      }
    }
  }

  lemma SettledHeap<E>(s: seq<E>, lo: nat, cnt: nat, i: nat, cmp: (E, E) -> int)
    requires 1 <= lo <= i <= cnt <= |s| && HeapExcept(s, lo, cnt, i, cmp)
    requires DominatesFamily(s, i, cnt, i, cmp)
    ensures HeapFrom(s, lo, cnt, cmp)
  {
    forall c | 2 <= c <= cnt && lo <= c / 2
      ensures BelowParent(s, c, cmp)
    {
      assert c / 2 == i ==> c == 2 * i || c == 2 * i + 1;
    }
  }

  /** The root of a heap is its maximum. */
  lemma {:induction false} RootIsMaximum<E(!new)>(s: seq<E>, cnt: nat, k: nat, cmp: (E, E) -> int)
    requires TotalPreorder(cmp) && 1 <= k <= cnt <= |s| && HeapFrom(s, 1, cnt, cmp)
    ensures cmp(s[k - 1], s[0]) <= 0
    decreases k
  {
    if k == 1 {
      assert cmp(s[0], s[0]) <= 0;
    } else {
      assert BelowParent(s, k, cmp);
      RootIsMaximum(s, cnt, k / 2, cmp);
      Transitive(cmp, s[k - 1], s[k / 2 - 1], s[0]);
    }
  }

  /** The state of sort() after the elements above i are in their final places. */
  ghost predicate PartlySorted<E>(s: seq<E>, i: nat, cmp: (E, E) -> int) {
    && i <= |s|
    && HeapFrom(s, 1, i, cmp)
    && (forall j :: i <= j < |s| ==> Below(s, i, s[j], cmp))
    && SortedBy(s[i..], cmp)
  }

  /** One round of the second loop of sort(): move the maximum behind the heap and repair. */
  lemma ExtractMaximum<E(!new)>(s: seq<E>, i: nat, cmp: (E, E) -> int)
    requires TotalPreorder(cmp) && 2 <= i && PartlySorted(s, i, cmp)
    ensures PartlySorted(SiftDown(Swap(s, 1, i), 1, i - 1, cmp), i - 1, cmp)
  {
    var t := Swap(s, 1, i);
    var u := SiftDown(t, 1, i - 1, cmp);
    SwappedHeap(s, i, cmp);
    SiftDownRestoresHeap(t, 1, i - 1, 1, cmp);
    SwappedBelow(s, i, cmp);
    forall j | i - 1 <= j < |s|
      ensures u[j] == t[j] && Below(u, i - 1, u[j], cmp)
    {
      SiftDownSuffix(t, i - 1, j, cmp);
      SiftDownBelow(t, 1, i - 1, t[j], cmp);
    }
    SortedExtends(s, u, i, cmp);
  }

  lemma SiftDownSuffix<E>(t: seq<E>, cnt: nat, j: nat, cmp: (E, E) -> int)
    requires cnt <= j < |t|
    ensures SiftDown(t, 1, cnt, cmp)[j] == t[j]
  {
    SiftDownPermutes(t, 1, cnt, cmp);
    var u := SiftDown(t, 1, cnt, cmp);
    assert u[j] == u[cnt..][j - cnt];
    assert t[j] == t[cnt..][j - cnt];
  }

  lemma SwappedHeap<E>(s: seq<E>, i: nat, cmp: (E, E) -> int)
    requires 2 <= i <= |s| && HeapFrom(s, 1, i, cmp)
    ensures HeapExcept(Swap(s, 1, i), 1, i - 1, 1, cmp)
  {
    var t := Swap(s, 1, i);
    forall c | 2 <= c <= i - 1 && 1 <= c / 2 && c / 2 != 1
      ensures BelowParent(t, c, cmp)
    {
      assert BelowParent(s, c, cmp);
    }
  }

  lemma SwappedBelow<E(!new)>(s: seq<E>, i: nat, cmp: (E, E) -> int)
    requires TotalPreorder(cmp) && 2 <= i && PartlySorted(s, i, cmp)
    ensures forall j :: i - 1 <= j < |s| ==> Below(Swap(s, 1, i), i - 1, Swap(s, 1, i)[j], cmp)
  {
    var t := Swap(s, 1, i);
    forall j, k | i - 1 <= j < |s| && 0 <= k < i - 1
      ensures cmp(t[k], t[j]) <= 0
    {
      var from := if k == 0 then i else k + 1;
      assert t[k] == s[from - 1];
      if j == i - 1 {
        RootIsMaximum(s, i, from, cmp);
      } else {
        assert Below(s, i, s[j], cmp);
      }
    }
  }

  lemma SortedExtends<E>(s: seq<E>, u: seq<E>, i: nat, cmp: (E, E) -> int)
    requires 2 <= i <= |s| == |u| && SortedBy(s[i..], cmp)
    requires forall j :: i <= j < |s| ==> u[j] == s[j] && Below(s, i, s[j], cmp)
    requires u[i - 1] == s[0]
    ensures SortedBy(u[i - 1..], cmp)
  {
    var v := u[i - 1..];
    forall p, q | 0 <= p < q < |v|
      ensures cmp(v[p], v[q]) <= 0
    {
      var j := q + i - 1;
      assert v[q] == s[j] == s[i..][q - 1];
      if p == 0 {
        assert Below(s, i, s[j], cmp);
      } else {
        assert v[p] == s[p + i - 1] == s[i..][p - 1];
      }
    }
  }

  // ----- elements inside a byte array -----

  type Element = seq<Byte>

  /** The byte offset of element k (0-based): k * size, as a sum. */
  function Offset(k: nat, size: nat): nat {
    if k == 0 then 0 else Offset(k - 1, size) + size
  }

  lemma {:induction false} OffsetIsProduct(k: nat, size: nat)
    ensures Offset(k, size) == k * size
  {
    if k == 0 {
    } else {
      OffsetIsProduct(k - 1, size);
      MulDistrib(k, 1, size);
    }
  }

  lemma OffsetOrder(j: nat, k: nat, size: nat)
    ensures j < k ==> Offset(j, size) + size <= Offset(k, size)
    ensures j <= k ==> Offset(j, size) <= Offset(k, size)
  {
    OffsetIsProduct(j, size);
    OffsetIsProduct(k, size);
    MulLe(j + 1, k, size);
    MulLe(j, k, size);
    MulDistrib(j, 1, size);
  }

  function ElementAt(b: seq<Byte>, k: nat, size: nat): (e: Element)
    requires Offset(k, size) + size <= |b|
    ensures |e| == size
  {
    b[Offset(k, size)..Offset(k, size) + size]
  }

  /** The first n elements of b. */
  function Elements(b: seq<Byte>, n: nat, size: nat): (s: seq<Element>)
    requires Offset(n, size) <= |b|
    ensures |s| == n
  {
    if n == 0 then [] else Elements(b, n - 1, size) + [ElementAt(b, n - 1, size)]
  }

  lemma {:induction false} ElementsIndex(b: seq<Byte>, n: nat, size: nat, k: nat)
    requires k < n && Offset(n, size) <= |b|
    ensures Offset(k, size) + size <= |b| && Elements(b, n, size)[k] == ElementAt(b, k, size)
    decreases n
  {
    if k < n - 1 {
      ElementsIndex(b, n - 1, size, k);
    }
  }

  predicate OutsideElement(p: nat, k: nat, size: nat) {
    p < Offset(k, size) || Offset(k, size) + size <= p
  }

  lemma SwapByIndex<E>(s: seq<E>, t: seq<E>, x: nat, y: nat)
    requires 1 <= x <= |s| && 1 <= y <= |s| && |t| == |s|
    requires t[x - 1] == s[y - 1] && t[y - 1] == s[x - 1]
    requires forall k :: 0 <= k < |s| && k != x - 1 && k != y - 1 ==> t[k] == s[k]
    ensures t == Swap(s, x, y)
  {
  }

  /** Exchanging the bytes of two element slots exchanges the elements and nothing else. */
  lemma SwapBytesSwapsElements(b: seq<Byte>, c: seq<Byte>, n: nat, size: nat, x: nat, y: nat)
    requires 1 <= x <= n && 1 <= y <= n && |b| == |c| && Offset(n, size) <= |b|
    requires Offset(x - 1, size) + size <= |b| && Offset(y - 1, size) + size <= |b|
    requires ElementAt(c, x - 1, size) == ElementAt(b, y - 1, size)
    requires ElementAt(c, y - 1, size) == ElementAt(b, x - 1, size)
    requires forall p | 0 <= p < |b| :: OutsideElement(p, x - 1, size) && OutsideElement(p, y - 1, size) ==> c[p] == b[p]
    ensures Elements(c, n, size) == Swap(Elements(b, n, size), x, y)
  {
    var s, t := Elements(b, n, size), Elements(c, n, size);
    forall k | 0 <= k < n
      ensures k != x - 1 && k != y - 1 ==> t[k] == s[k]
      ensures k == x - 1 ==> t[k] == s[y - 1]
      ensures k == y - 1 ==> t[k] == s[x - 1]
    {
      ElementsIndex(b, n, size, k);
      ElementsIndex(c, n, size, k);
      ElementsIndex(b, n, size, x - 1);
      ElementsIndex(b, n, size, y - 1);
      if k != x - 1 && k != y - 1 {
        UntouchedElement(b, c, k, size, x - 1, y - 1);
      }
    }
    SwapByIndex(s, t, x, y);
  }

  lemma SwapKeepsTail(b: seq<Byte>, c: seq<Byte>, n: nat, size: nat, x: nat, y: nat)
    requires x < n && y < n && |b| == |c| && Offset(n, size) <= |b|
    requires forall p | 0 <= p < |b| :: OutsideElement(p, x, size) && OutsideElement(p, y, size) ==> c[p] == b[p]
    ensures c[Offset(n, size)..] == b[Offset(n, size)..]
  {
    OffsetOrder(x, n, size);
    OffsetOrder(y, n, size);
    forall p | Offset(n, size) <= p < |b|
      ensures c[p] == b[p]
    {
      assert OutsideElement(p, x, size) && OutsideElement(p, y, size);
    }
  }

  lemma UntouchedElement(b: seq<Byte>, c: seq<Byte>, k: nat, size: nat, x: nat, y: nat)
    requires k != x && k != y && |b| == |c| && Offset(k, size) + size <= |b|
    requires forall p | 0 <= p < |b| :: OutsideElement(p, x, size) && OutsideElement(p, y, size) ==> c[p] == b[p]
    ensures ElementAt(c, k, size) == ElementAt(b, k, size)
  {
    OffsetOrder(k, x, size);
    OffsetOrder(x, k, size);
    OffsetOrder(k, y, size);
    OffsetOrder(y, k, size);
    forall p | Offset(k, size) <= p < Offset(k, size) + size
      ensures c[p] == b[p]
    {
      assert OutsideElement(p, x, size) && OutsideElement(p, y, size);
    }
  }

  ghost predicate Moved(b: seq<Byte>, c: seq<Byte>, to: nat, from: nat, len: nat) {
    && to + len <= |c| && from + len <= |b|
    && forall p {:trigger c[p]} :: to <= p < to + len ==> c[p] == b[p - to + from]
  }

  ghost predicate RestUnchanged(b: seq<Byte>, c: seq<Byte>, x: nat, y: nat, len: nat) {
    && |b| == |c|
    && forall p {:trigger c[p]} :: 0 <= p < |b| && !(x <= p < x + len) && !(y <= p < y + len) ==> c[p] == b[p]
  }

  /** do_swap(): exchanges elements aIdx and bIdx (1-based) byte by byte. */
  method DoSwap(array_: array<Byte>, aIdx: nat, bIdx: nat, size: nat, ghost n: nat)
    requires 1 <= aIdx <= n && 1 <= bIdx <= n && Offset(n, size) <= array_.Length
    modifies array_
    ensures Elements(array_[..], n, size) == Swap(old(Elements(array_[..], n, size)), aIdx, bIdx)
    ensures array_[Offset(n, size)..] == old(array_[Offset(n, size)..])
  {
    hide Elements, Offset, Swap;
    ghost var before := array_[..];
    SlotOffsets(aIdx - 1, bIdx - 1, n, size);
    var a := (aIdx - 1) * size;
    var b := (bIdx - 1) * size;
    var i := 0;
    while i < size
      invariant 0 <= i <= size
      invariant forall p :: a <= p < a + i ==> array_[p] == before[p - a + b]
      invariant forall p :: b <= p < b + i ==> array_[p] == before[p - b + a]
      invariant forall p :: 0 <= p < array_.Length && !(a <= p < a + i) && !(b <= p < b + i) ==> array_[p] == before[p]
    {
      var t := array_[a + i];
      array_[a + i] := array_[b + i];
      array_[b + i] := t;
      i := i + 1;
    }
    ghost var after := array_[..];
    SwapLoopResult(before, after, n, size, aIdx, bIdx);
    assert array_[Offset(n, size)..] == after[Offset(n, size)..];
    assert old(array_[Offset(n, size)..]) == before[Offset(n, size)..];
  }

  /** What the byte loop leaves behind, in terms of elements. */
  lemma SwapLoopResult(before: seq<Byte>, after: seq<Byte>, n: nat, size: nat, x: nat, y: nat)
    requires 1 <= x <= n && 1 <= y <= n && |after| == |before| && Offset(n, size) <= |before|
    requires Offset(x - 1, size) + size <= |before| && Offset(y - 1, size) + size <= |before|
    requires Moved(before, after, Offset(x - 1, size), Offset(y - 1, size), size)
    requires Moved(before, after, Offset(y - 1, size), Offset(x - 1, size), size)
    requires RestUnchanged(before, after, Offset(x - 1, size), Offset(y - 1, size), size)
    ensures Elements(after, n, size) == Swap(Elements(before, n, size), x, y)
    ensures after[Offset(n, size)..] == before[Offset(n, size)..]
  {
    hide *;
    SlotMoved(before, after, x - 1, y - 1, size);
    SlotMoved(before, after, y - 1, x - 1, size);
    OutsideUnchanged(before, after, size, x - 1, y - 1);
    SwapBytesSwapsElements(before, after, n, size, x, y);
    SwapKeepsTail(before, after, n, size, x - 1, y - 1);
  }

  lemma OutsideUnchanged(b: seq<Byte>, c: seq<Byte>, size: nat, x: nat, y: nat)
    requires |b| == |c|
    requires RestUnchanged(b, c, Offset(x, size), Offset(y, size), size)
    ensures forall p | 0 <= p < |b| :: OutsideElement(p, x, size) && OutsideElement(p, y, size) ==> c[p] == b[p]
  {
  }

  lemma SlotMoved(before: seq<Byte>, after: seq<Byte>, x: nat, y: nat, size: nat)
    requires Offset(x, size) + size <= |after| && Offset(y, size) + size <= |before|
    requires Moved(before, after, Offset(x, size), Offset(y, size), size)
    ensures ElementAt(after, x, size) == ElementAt(before, y, size)
  {
    hide Offset;
    SliceMoved(before, after, Offset(x, size), Offset(y, size), size);
  }

  lemma SliceMoved(before: seq<Byte>, after: seq<Byte>, to: nat, from: nat, size: nat)
    requires to + size <= |after| && from + size <= |before|
    requires Moved(before, after, to, from, size)
    ensures after[to..to + size] == before[from..from + size]
  {
    var u, v := after[to..to + size], before[from..from + size];
    forall i | 0 <= i < size
      ensures u[i] == v[i]
    {
      assert after[to + i] == before[to + i - to + from];
    }
  }

  /** Where two slots lie: inside the first n elements, and either the same or disjoint. */
  lemma SlotOffsets(x: nat, y: nat, n: nat, size: nat)
    requires x < n && y < n
    ensures x * size == Offset(x, size) && y * size == Offset(y, size)
    ensures Offset(x, size) + size <= Offset(n, size) && Offset(y, size) + size <= Offset(n, size)
    ensures var a, b := Offset(x, size), Offset(y, size);
            a == b || a + size <= b || b + size <= a
  {
    OffsetIsProduct(x, size);
    OffsetIsProduct(y, size);
    OffsetOrder(x, n, size);
    OffsetOrder(y, n, size);
    OffsetOrder(x, y, size);
    OffsetOrder(y, x, size);
  }

  /** do_compare() */
  method DoCompare(array_: array<Byte>, aIdx: nat, bIdx: nat, size: nat,
                   cmp: (Element, Element) -> int, ghost n: nat)
    returns (r: int)
    requires 1 <= aIdx <= n && 1 <= bIdx <= n && Offset(n, size) <= array_.Length
    ensures r == cmp(Elements(array_[..], n, size)[aIdx - 1], Elements(array_[..], n, size)[bIdx - 1])
  {
    hide Elements, Offset;
    ElementsIndex(array_[..], n, size, aIdx - 1);
    ElementsIndex(array_[..], n, size, bIdx - 1);
    OffsetIsProduct(aIdx - 1, size);
    OffsetIsProduct(bIdx - 1, size);
    var a := (aIdx - 1) * size;
    var b := (bIdx - 1) * size;
    var x, y := array_[a..a + size], array_[b..b + size];
    assert x == ElementAt(array_[..], aIdx - 1, size);
    assert y == ElementAt(array_[..], bIdx - 1, size);
    r := cmp(x, y);
  }

  /** heapify(): floats element i down within the first cnt elements. */
  method Heapify(array_: array<Byte>, i0: nat, cnt: nat, size: nat,
                 cmp: (Element, Element) -> int, ghost n: nat)
    requires 1 <= i0 && cnt <= n && Offset(n, size) <= array_.Length
    modifies array_
    ensures Elements(array_[..], n, size) == SiftDown(old(Elements(array_[..], n, size)), i0, cnt, cmp)
    ensures array_[Offset(n, size)..] == old(array_[Offset(n, size)..])
  {
    hide Elements, Offset, Swap, SiftDown;
    var i := i0;
    while true
      invariant 1 <= i
      invariant SiftDown(Elements(array_[..], n, size), i, cnt, cmp) == SiftDown(old(Elements(array_[..], n, size)), i0, cnt, cmp)
      invariant array_[Offset(n, size)..] == old(array_[Offset(n, size)..])
      decreases cnt - i
    {
      ghost var s := Elements(array_[..], n, size);
      var left := 2 * i;
      var right := 2 * i + 1;
      var max := i;
      if left <= cnt {
        var c := DoCompare(array_, left, max, size, cmp, n);
        if c > 0 {
          max := left;
        }
      }
      if right <= cnt {
        var c := DoCompare(array_, right, max, size, cmp, n);
        if c > 0 {
          max := right;
        }
      }
      SiftDownUnfold(s, i, cnt, max, cmp);
      if max == i {
        break;
      }
      DoSwap(array_, i, max, size, n);
      i := max;
    }
  }

  lemma SiftDownUnfold<E>(s: seq<E>, i: nat, cnt: nat, m: nat, cmp: (E, E) -> int)
    requires 1 <= i && cnt <= |s|
    requires m == if i <= cnt then LargestOfFamily(s, i, cnt, cmp) else i
    ensures m == i ==> SiftDown(s, i, cnt, cmp) == s
    ensures m != i ==> m <= cnt && SiftDown(s, i, cnt, cmp) == SiftDown(Swap(s, i, m), m, cnt, cmp)
  {
  }

  /** sort(): heapsort of cnt elements of size bytes each. */
  method Sort(array_: array<Byte>, cnt: nat, size: nat, cmp: (Element, Element) -> int)
    requires size > 0 && Offset(cnt, size) <= array_.Length
    requires TotalPreorder(cmp)
    modifies array_
    ensures SortedBy(Elements(array_[..], cnt, size), cmp)
    ensures multiset(Elements(array_[..], cnt, size)) == multiset(old(Elements(array_[..], cnt, size)))
    ensures array_[Offset(cnt, size)..] == old(array_[Offset(cnt, size)..])
  {
    hide Elements, Offset, Swap, SiftDown, TotalPreorder, Below;
    ghost var before := Elements(array_[..], cnt, size);
    var i := cnt / 2;
    while i > 0
      invariant 0 <= i <= cnt / 2
      invariant multiset(Elements(array_[..], cnt, size)) == multiset(before)
      invariant HeapFrom(Elements(array_[..], cnt, size), i + 1, cnt, cmp)
      invariant array_[Offset(cnt, size)..] == old(array_[Offset(cnt, size)..])
    {
      ghost var s := Elements(array_[..], cnt, size);
      Heapify(array_, i, cnt, size, cmp, cnt);
      SiftDownPermutes(s, i, cnt, cmp);
      SiftDownRestoresHeap(s, i, cnt, i, cmp);
      i := i - 1;
    }
    i := cnt;
    while i > 1
      invariant 0 <= i <= cnt
      invariant multiset(Elements(array_[..], cnt, size)) == multiset(before)
      invariant PartlySorted(Elements(array_[..], cnt, size), i, cmp)
      invariant array_[Offset(cnt, size)..] == old(array_[Offset(cnt, size)..])
    {
      ghost var s := Elements(array_[..], cnt, size);
      DoSwap(array_, 1, i, size, cnt);
      Heapify(array_, 1, i - 1, size, cmp, cnt);
      ExtractMaximum(s, i, cmp);
      SwapPermutes(s, 1, i);
      SiftDownPermutes(Swap(s, 1, i), 1, i - 1, cmp);
      i := i - 1;
    }
    FullySorted(Elements(array_[..], cnt, size), i, cmp);
  }

  lemma FullySorted<E>(s: seq<E>, i: nat, cmp: (E, E) -> int)
    requires i <= 1 && PartlySorted(s, i, cmp)
    ensures SortedBy(s, cmp)
  {
    forall p, q | 0 <= p < q < |s|
      ensures cmp(s[p], s[q]) <= 0
    {
      assert s[i..][q - i] == s[q];
      if p < i {
        assert Below(s, i, s[q], cmp);
      } else {
        assert s[i..][p - i] == s[p];
      }
    }
  }

  // ----- binary search -----

  /** binary_search() on a sorted array; the result is the byte offset of a match (element k), or
      -1 for the null pointer. */
  method BinarySearch(key: Element, array_: array<Byte>, cnt: nat, size: nat, cmp: (Element, Element) -> int)
    returns (r: int, ghost k: nat)
    requires size > 0 && Offset(cnt, size) <= array_.Length
    requires TotalPreorder(cmp) && SortedBy(Elements(array_[..], cnt, size), cmp)
    ensures r == -1 ==> forall j :: 0 <= j < cnt ==> cmp(key, Elements(array_[..], cnt, size)[j]) != 0
    ensures r != -1 ==> k < cnt && r == Offset(k, size) && cmp(key, Elements(array_[..], cnt, size)[k]) == 0
  {
    hide Elements, Offset, TotalPreorder, SortedBy;
    ghost var s := Elements(array_[..], cnt, size);
    var first := 0;
    var last := size * cnt;
    ghost var lo, hi := 0, cnt;
    OffsetIsProduct(0, size);
    OffsetIsProduct(cnt, size);
    MulComm(size, cnt);
    while first < last
      invariant 0 <= lo <= hi <= cnt && first == Offset(lo, size) && last == Offset(hi, size)
      invariant forall k :: 0 <= k < lo ==> cmp(key, s[k]) > 0
      invariant forall k :: hi <= k < cnt ==> cmp(key, s[k]) < 0
      decreases hi - lo
    {
      MiddleElement(lo, hi, cnt, size);
      ghost var mid := lo + (hi - lo) / 2;
      var range := (last - first) / size;
      var middle := first + (range / 2) * size;
      ElementsIndex(array_[..], cnt, size, mid);
      var element := array_[middle..middle + size];
      assert element == ElementAt(array_[..], mid, size);
      var c := cmp(key, element);
      if c < 0 {
        NoMatchAbove(s, key, mid, cmp);
        last := middle;
        hi := mid;
      } else if c > 0 {
        NoMatchBelow(s, key, mid, cmp);
        first := middle + size;
        lo := mid + 1;
      } else {
        return middle, mid;
      }
    }
    OffsetOrder(lo, hi, size);
    return -1, 0;
  }

  /** The pointer arithmetic of one round, in element indices. */
  lemma MiddleElement(lo: nat, hi: nat, cnt: nat, size: nat)
    requires lo <= hi <= cnt && size > 0 && Offset(lo, size) < Offset(hi, size)
    ensures lo < hi && (Offset(hi, size) - Offset(lo, size)) / size == hi - lo
    ensures var mid := lo + (hi - lo) / 2;
            && lo <= mid < hi
            && Offset(lo, size) + (hi - lo) / 2 * size == Offset(mid, size)
            && Offset(mid, size) + size == Offset(mid + 1, size) <= Offset(cnt, size)
  {
    OffsetOrder(hi, lo, size);
    RangeInElements(lo, hi, size);
    var mid := lo + (hi - lo) / 2;
    OffsetIsProduct(lo, size);
    OffsetIsProduct(mid, size);
    MulDistrib(lo, (hi - lo) / 2, size);
    OffsetOrder(mid, cnt, size);
  }

  lemma RangeInElements(lo: nat, hi: nat, size: nat)
    requires lo <= hi && size > 0
    ensures (Offset(hi, size) - Offset(lo, size)) / size == hi - lo
  {
    OffsetIsProduct(lo, size);
    OffsetIsProduct(hi, size);
    MulDistrib(hi, lo, size);
    QuotientUnique(Offset(hi, size) - Offset(lo, size), size, hi - lo);
  }

  lemma TransitiveStrict<E(!new)>(cmp: (E, E) -> int, x: E, y: E, z: E)
    requires TotalPreorder(cmp)
    ensures cmp(x, y) < 0 && cmp(y, z) <= 0 ==> cmp(x, z) < 0
    ensures cmp(x, y) > 0 && cmp(z, y) <= 0 ==> cmp(x, z) > 0
  {
    assert cmp(z, x) <= 0 <==> cmp(x, z) >= 0;
    assert cmp(x, z) <= 0 && cmp(z, y) <= 0 ==> cmp(x, y) <= 0;
  }

  lemma NoMatchAbove<E(!new)>(s: seq<E>, key: E, mid: nat, cmp: (E, E) -> int)
    requires TotalPreorder(cmp) && SortedBy(s, cmp) && mid < |s| && cmp(key, s[mid]) < 0
    ensures forall k :: mid <= k < |s| ==> cmp(key, s[k]) < 0
  {
    forall k | mid < k < |s|
      ensures cmp(key, s[k]) < 0
    {
      TransitiveStrict(cmp, key, s[mid], s[k]);
    }
  }

  lemma NoMatchBelow<E(!new)>(s: seq<E>, key: E, mid: nat, cmp: (E, E) -> int)
    requires TotalPreorder(cmp) && SortedBy(s, cmp) && mid < |s| && cmp(key, s[mid]) > 0
    ensures forall k :: 0 <= k <= mid ==> cmp(key, s[k]) > 0
  {
    forall k | 0 <= k < mid
      ensures cmp(key, s[k]) > 0
    {
      TransitiveStrict(cmp, key, s[mid], s[k]);
    }
  }
}
