/** In-place heapsort over a 1-based heap, and binary search. */
module HeapSort {
  import opened Prelude

  /** `compare` is a strcmp-type comparison: a total preorder. */
  ghost predicate Comparison<T(!new)>(compare: (T, T) -> int) {
    && (forall a, b :: compare(a, b) > 0 <==> compare(b, a) < 0)
    && (forall a, b, c :: compare(a, b) <= 0 && compare(b, c) <= 0 ==> compare(a, c) <= 0)
  }

  predicate Le<T>(compare: (T, T) -> int, a: T, b: T) { compare(a, b) <= 0 }

  /** Element `k`, counting from 1. */
  function At<T>(s: seq<T>, k: int): T
    requires 1 <= k <= |s|
  {
    s[k - 1]
  }

  /** Element `k` is no less than its child `c`, if `c` is one and is in the heap. */
  predicate Above<T>(compare: (T, T) -> int, s: seq<T>, cnt: nat, k: int, c: int)
    requires cnt <= |s|
  {
    1 <= k && (c == 2 * k || c == 2 * k + 1) && c <= cnt ==> Le(compare, At(s, c), At(s, k))
  }

  /** Elements `lo` to `cnt` are no less than their children, but for element `hole`. */
  ghost predicate HeapBut<T>(compare: (T, T) -> int, s: seq<T>, lo: int, cnt: nat, hole: int)
    requires cnt <= |s|
  {
    forall k, c :: lo <= k && k != hole ==> Above(compare, s, cnt, k, c)
  }

  /** What the hole's parent dominates: the hole's children too. */
  ghost predicate ParentCovers<T>(compare: (T, T) -> int, s: seq<T>, lo: int, cnt: nat, hole: int)
    requires cnt <= |s| && 1 <= lo && 1 <= hole
  {
    lo <= hole / 2 ==> forall c :: (c == 2 * hole || c == 2 * hole + 1) && c <= cnt ==>
      Le(compare, At(s, c), At(s, hole / 2))
  }

  ghost predicate IsHeap<T>(compare: (T, T) -> int, s: seq<T>, lo: int, cnt: nat)
    requires cnt <= |s|
  {
    HeapBut(compare, s, lo, cnt, 0)
  }

  /** Same elements, and nothing past `cnt` moved. */
  ghost predicate Shuffled<T>(s: seq<T>, s': seq<T>, cnt: nat) {
    |s'| == |s| && cnt <= |s| && s'[cnt..] == s[cnt..] && multiset(s') == multiset(s)
  }

  lemma ShuffledTwice<T>(s: seq<T>, s': seq<T>, s'': seq<T>, cnt: nat)
    requires Shuffled(s, s', cnt) && Shuffled(s', s'', cnt)
    ensures Shuffled(s, s'', cnt)
  {
  }

  /** An element of the shuffled part was there before. */
  lemma WasThere<T>(s: seq<T>, s': seq<T>, cnt: nat, k: nat) returns (j: nat)
    requires Shuffled(s, s', cnt) && k < cnt
    ensures j < cnt && s[j] == s'[k]
  {
    var a, b, a' := s[..cnt], s[cnt..], s'[..cnt];
    var e := s'[k];
    assert a + b == s && a' + b == s';
    assert multiset(a + b)[e] == multiset(a)[e] + multiset(b)[e];
    assert multiset(a' + b)[e] == multiset(a')[e] + multiset(b)[e];
    assert a'[k] in multiset(a');
    assert s'[k] in s[..cnt];
    j :| 0 <= j < cnt && s[..cnt][j] == s'[k];
  }

  function Swapped<T>(s: seq<T>, i: nat, j: nat): seq<T>
    requires 1 <= i <= |s| && 1 <= j <= |s|
  {
    s[i - 1 := s[j - 1]][j - 1 := s[i - 1]]
  }

  lemma SwapShuffles<T>(s: seq<T>, i: nat, j: nat, cnt: nat)
    requires 1 <= i <= cnt && 1 <= j <= cnt <= |s|
    ensures Shuffled(s, Swapped(s, i, j), cnt)
  {
  }

  /** `max` is the larger child of `hole`, and larger than it. */
  ghost predicate LargerChild<T>(compare: (T, T) -> int, s: seq<T>, cnt: nat, hole: nat, max: nat)
    requires cnt <= |s|
  {
    && 1 <= hole && max <= cnt && (max == 2 * hole || max == 2 * hole + 1)
    && Le(compare, At(s, hole), At(s, max))
    && forall c :: (c == 2 * hole || c == 2 * hole + 1) && c <= cnt ==> Le(compare, At(s, c), At(s, max))
  }

  lemma FloatPair<T>(compare: (T, T) -> int, s: seq<T>, lo: int, cnt: nat, hole: nat, max: nat, k: int, c: int)
    requires 1 <= lo <= hole && cnt <= |s| && LargerChild(compare, s, cnt, hole, max)
    requires HeapBut(compare, s, lo, cnt, hole) && ParentCovers(compare, s, lo, cnt, hole)
    requires lo <= k != max && (c == 2 * k || c == 2 * k + 1) && c <= cnt
    ensures Le(compare, At(Swapped(s, hole, max), c), At(Swapped(s, hole, max), k))
  {
    hide Le;
    if k == hole {
      assert Le(compare, At(s, c), At(s, max));
    } else if c == hole {
      assert k == hole / 2 && Le(compare, At(s, max), At(s, hole / 2));
    } else {
      assert Above(compare, s, cnt, k, c);
    }
  }

  /** Moving the larger child up moves the hole down. */
  lemma FloatDown<T>(compare: (T, T) -> int, s: seq<T>, lo: int, cnt: nat, hole: nat, max: nat)
    requires 1 <= lo <= hole && cnt <= |s| && LargerChild(compare, s, cnt, hole, max)
    requires HeapBut(compare, s, lo, cnt, hole) && ParentCovers(compare, s, lo, cnt, hole)
    ensures HeapBut(compare, Swapped(s, hole, max), lo, cnt, max)
    ensures ParentCovers(compare, Swapped(s, hole, max), lo, cnt, max)
  {
    hide Le;
    var t := Swapped(s, hole, max);
    forall k, c | lo <= k && k != max ensures Above(compare, t, cnt, k, c) {
      if (c == 2 * k || c == 2 * k + 1) && c <= cnt {
        FloatPair(compare, s, lo, cnt, hole, max, k, c);
      }
    }
    forall c | (c == 2 * max || c == 2 * max + 1) && c <= cnt ensures Le(compare, At(t, c), At(t, hole)) {
      assert Above(compare, s, cnt, max, c);
    }
  }

  /** With the hole no less than its children there is no hole. */
  lemma HoleFilled<T>(compare: (T, T) -> int, s: seq<T>, lo: int, cnt: nat, hole: nat)
    requires cnt <= |s| && 1 <= hole && HeapBut(compare, s, lo, cnt, hole)
    requires forall c :: (c == 2 * hole || c == 2 * hole + 1) && c <= cnt ==> Le(compare, At(s, c), At(s, hole))
    ensures lo >= 1 ==> IsHeap(compare, s, lo, cnt)
  {
    if lo >= 1 {
      forall k, c | lo <= k ensures Above(compare, s, cnt, k, c) {
        if k != hole { assert Above(compare, s, cnt, k, c); }
      }
    }
  }

  /** do_swap, with indexes from 1. */
  method DoSwap<T>(a: array<T>, i: nat, j: nat)
    requires 1 <= i <= a.Length && 1 <= j <= a.Length
    modifies a
    ensures a[..] == Swapped(old(a[..]), i, j)
  {
    a[i - 1], a[j - 1] := a[j - 1], a[i - 1];
  }

  /** heapify: floats the element at `start` down until elements from `start` on form a heap. */
  method Heapify<T(!new)>(a: array<T>, start: nat, cnt: nat, compare: (T, T) -> int)
    requires Comparison(compare) && 1 <= start && cnt <= a.Length && HeapBut(compare, a[..], start, cnt, start)
    modifies a
    ensures IsHeap(compare, a[..], start, cnt) && Shuffled(old(a[..]), a[..], cnt)
  {
    hide Le, Comparison;
    var i := start;
    while true
      invariant start <= i && Shuffled(old(a[..]), a[..], cnt)
      invariant HeapBut(compare, a[..], start, cnt, i) && ParentCovers(compare, a[..], start, cnt, i)
      decreases cnt - i
    {
      var max := Largest(a, i, cnt, compare);
      if max == i {
        HoleFilled(compare, a[..], start, cnt, i);
        break;
      }
      ghost var s := a[..];
      FloatDown(compare, s, start, cnt, i, max);
      SwapShuffles(s, i, max, cnt);
      DoSwap(a, i, max);
      ShuffledTwice(old(a[..]), s, a[..], cnt);
      i := max;
    }
  }

  lemma LeFlip<T(!new)>(compare: (T, T) -> int, x: T, y: T)
    requires Comparison(compare) && compare(x, y) > 0
    ensures Le(compare, y, x)
  {
  }

  lemma LeTrans<T(!new)>(compare: (T, T) -> int, x: T, y: T, z: T)
    requires Comparison(compare) && Le(compare, x, y) && Le(compare, y, z)
    ensures Le(compare, x, z)
  {
  }

  lemma LeSame<T(!new)>(compare: (T, T) -> int, x: T)
    requires Comparison(compare)
    ensures Le(compare, x, x)
  {
  }

  /** The largest of an element and its children. */
  method Largest<T(!new)>(a: array<T>, i: nat, cnt: nat, compare: (T, T) -> int) returns (max: nat)
    requires Comparison(compare) && 1 <= i && cnt <= a.Length
    ensures max == i ==>
      forall c :: (c == 2 * i || c == 2 * i + 1) && c <= cnt ==> Le(compare, At(a[..], c), At(a[..], i))
    ensures max != i ==> LargerChild(compare, a[..], cnt, i, max)
  {
    hide Comparison;
    var left, right := 2 * i, 2 * i + 1;
    max := i;
    if left <= cnt && compare(a[left - 1], a[max - 1]) > 0 {
      LeFlip(compare, a[left - 1], a[max - 1]);
      LeSame(compare, a[left - 1]);
      max := left;
    }
    if right <= cnt && compare(a[right - 1], a[max - 1]) > 0 {
      LeFlip(compare, a[right - 1], a[max - 1]);
      LeSame(compare, a[right - 1]);
      if max == left {
        LeTrans(compare, a[i - 1], a[left - 1], a[right - 1]);
      } else {
        LeTrans(compare, a[left - 1], a[i - 1], a[right - 1]);
      }
      max := right;
    }
  }

  // ---------- sorting ----------

  ghost predicate Sorted<T>(compare: (T, T) -> int, s: seq<T>, from: nat) {
    forall i, j :: from <= i < j < |s| ==> Le(compare, s[i], s[j])
  }

  /** The first `cnt` elements are no greater than the others. */
  ghost predicate Below<T>(compare: (T, T) -> int, s: seq<T>, cnt: nat) {
    forall i, j :: 0 <= i < cnt <= j < |s| ==> Le(compare, s[i], s[j])
  }

  /** The root of a heap is its largest element. */
  lemma {:induction false} RootIsMax<T(!new)>(compare: (T, T) -> int, s: seq<T>, cnt: nat, k: nat)
    requires Comparison(compare) && cnt <= |s| && IsHeap(compare, s, 1, cnt) && 1 <= k <= cnt
    ensures Le(compare, At(s, k), At(s, 1))
  {
    if k > 1 {
      RootIsMax(compare, s, cnt, k / 2);
      assert Above(compare, s, cnt, k / 2, k);
    }
  }

  /** Shuffling the first part leaves it below the rest. */
  lemma BelowKept<T>(compare: (T, T) -> int, s: seq<T>, s': seq<T>, cnt: nat)
    requires Shuffled(s, s', cnt) && Below(compare, s, cnt)
    ensures Below(compare, s', cnt)
  {
    forall i, j | 0 <= i < cnt <= j < |s'| ensures Le(compare, s'[i], s'[j]) {
      var k := WasThere(s, s', cnt, i);
      assert s'[cnt..][j - cnt] == s[cnt..][j - cnt];
    }
  }

  lemma SortedKept<T>(compare: (T, T) -> int, s: seq<T>, s': seq<T>, cnt: nat, from: nat)
    requires Shuffled(s, s', cnt) && Sorted(compare, s, from) && cnt <= from
    ensures Sorted(compare, s', from)
  {
    forall j | cnt <= j < |s| ensures s'[j] == s[j] {
      assert s'[cnt..][j - cnt] == s[cnt..][j - cnt];
    }
  }

  /** Taking the root to the end of the heap: one more element in its place, and a hole at the root. */
  lemma TakeRoot<T(!new)>(compare: (T, T) -> int, s: seq<T>, i: nat)
    requires Comparison(compare) && 2 <= i <= |s|
    requires IsHeap(compare, s, 1, i) && Sorted(compare, s, i) && Below(compare, s, i)
    ensures var t := Swapped(s, 1, i);
            Sorted(compare, t, i - 1) && Below(compare, t, i - 1) && HeapBut(compare, t, 1, i - 1, 1)
  {
    var t := Swapped(s, 1, i);
    forall k | 0 <= k < i ensures Le(compare, s[k], s[0]) {
      RootIsMax(compare, s, i, k + 1);
    }
    var rest := i - 1;
    forall k, c | 1 <= k && k != 1 ensures Above(compare, t, rest, k, c) {
      assert Above(compare, s, i, k, c);
    }
  }

  /** sort: in order, with the same elements. */
  method Sort<T(!new)>(a: array<T>, compare: (T, T) -> int)
    requires Comparison(compare)
    modifies a
    ensures Sorted(compare, a[..], 0) && multiset(a[..]) == multiset(old(a[..]))
  {
    hide Le, Comparison, HeapBut;
    BuildHeap(a, compare);
    var i := a.Length;
    while i > 1
      invariant 0 <= i <= a.Length && multiset(a[..]) == multiset(old(a[..]))
      invariant IsHeap(compare, a[..], 1, i) && Sorted(compare, a[..], i) && Below(compare, a[..], i)
    {
      ghost var s := a[..];
      TakeRoot(compare, s, i);
      SwapShuffles(s, 1, i, i);
      DoSwap(a, 1, i);
      ghost var t := a[..];
      Heapify(a, 1, i - 1, compare);
      BelowKept(compare, t, a[..], i - 1);
      SortedKept(compare, t, a[..], i - 1, i - 1);
      i := i - 1;
    }
  }

  method BuildHeap<T(!new)>(a: array<T>, compare: (T, T) -> int)
    requires Comparison(compare)
    modifies a
    ensures IsHeap(compare, a[..], 1, a.Length) && multiset(a[..]) == multiset(old(a[..]))
  {
    var i := a.Length / 2;
    assert IsHeap(compare, a[..], i + 1, a.Length);
    while i > 0
      invariant 0 <= i && multiset(a[..]) == multiset(old(a[..])) && IsHeap(compare, a[..], i + 1, a.Length)
    {
      OneMore(compare, a[..], i, a.Length);
      Heapify(a, i, a.Length, compare);
      i := i - 1;
    }
  }

  lemma OneMore<T>(compare: (T, T) -> int, s: seq<T>, i: nat, cnt: nat)
    requires cnt <= |s| && IsHeap(compare, s, i + 1, cnt)
    ensures HeapBut(compare, s, i, cnt, i)
  {
  }

  /** binary_search: finds an equal element exactly when there is one. */
  method BinarySearch<T(!new)>(key: T, a: array<T>, compare: (T, T) -> int) returns (r: Option<nat>)
    requires Comparison(compare) && Sorted(compare, a[..], 0)
    ensures r.Some? ==> r.value < a.Length && compare(key, a[r.value]) == 0
    ensures r.None? ==> forall i :: 0 <= i < a.Length ==> compare(key, a[i]) != 0
  {
    var first, last := 0, a.Length;
    while first < last
      invariant 0 <= first <= last <= a.Length
      invariant forall i :: 0 <= i < first ==> compare(key, a[i]) > 0
      invariant forall i :: last <= i < a.Length ==> compare(key, a[i]) < 0
    {
      var middle := first + (last - first) / 2;
      var cmp := compare(key, a[middle]);
      if cmp < 0 {
        forall i | middle <= i < a.Length ensures compare(key, a[i]) < 0 {
          Beyond(compare, key, a[middle], a[i], i == middle);
          assert i > middle ==> Le(compare, a[..][middle], a[..][i]);
        }
        last := middle;
      } else if cmp > 0 {
        forall i | 0 <= i <= middle ensures compare(key, a[i]) > 0 {
          Before(compare, key, a[middle], a[i], i == middle);
          assert i < middle ==> Le(compare, a[..][i], a[..][middle]);
        }
        first := middle + 1;
      } else {
        return Some(middle);
      }
    }
    r := None;
  }

  lemma Beyond<T(!new)>(compare: (T, T) -> int, key: T, m: T, x: T, same: bool)
    requires Comparison(compare) && compare(key, m) < 0 && (same ==> x == m)
    ensures same || Le(compare, m, x) ==> compare(key, x) < 0
  {
    assert compare(key, x) >= 0 ==> compare(x, key) <= 0;
  }

  lemma Before<T(!new)>(compare: (T, T) -> int, key: T, m: T, x: T, same: bool)
    requires Comparison(compare) && compare(key, m) > 0 && (same ==> x == m)
    ensures same || Le(compare, x, m) ==> compare(key, x) > 0
  {
    assert Le(compare, x, m) && compare(key, x) <= 0 ==> compare(key, m) <= 0;
  }
}
