/** list_sort: a natural merge sort that relinks the list in place. */
module ListSort {
  import opened ListOrder
  import opened LinkedList

  ghost predicate SortedRange<T>(less: (T, T) -> bool, s: seq<Elem<T>>, a: int, b: int)
    requires 0 <= a && b <= |s|
  {
    forall i, j :: a <= i < j < b ==> !less(s[j].key, s[i].key)
  }

  /** Merging a..m with m..h has output up to `l`. */
  ghost predicate Merging<T>(less: (T, T) -> bool, s: seq<Elem<T>>, a: nat, l: nat, m: nat, h: nat) {
    && a <= l <= m <= h <= |s|
    && SortedRange(less, s, a, m) && SortedRange(less, s, m, h)
    && forall i, j :: a <= i < l && m <= j < h ==> !less(s[j].key, s[i].key)
  }

  lemma MergeKeeps<T(!new)>(less: (T, T) -> bool, s: seq<Elem<T>>, a: nat, l: nat, m: nat, h: nat)
    requires StrictWeakOrder(less) && Merging(less, s, a, l, m, h) && l < m < h
    requires !less(s[m].key, s[l].key)
    ensures Merging(less, s, a, l + 1, m, h)
  {
    forall j | m <= j < h ensures !less(s[j].key, s[l].key) {
      assert j == m || !less(s[j].key, s[m].key);
    }
  }

  lemma BeforeBlock<T(!new)>(less: (T, T) -> bool, s: seq<Elem<T>>, a: nat, l: nat, m: nat, h: nat)
    requires StrictWeakOrder(less) && Merging(less, s, a, l, m, h) && l < m < h
    requires less(s[m].key, s[l].key)
    ensures forall i :: l <= i < m ==> less(s[m].key, s[i].key)
  {
    forall i | l <= i < m ensures less(s[m].key, s[i].key) {
      assert i == l || !less(s[i].key, s[l].key);
    }
  }

  lemma MergeMoves<T(!new)>(less: (T, T) -> bool, s: seq<Elem<T>>, a: nat, l: nat, m: nat, h: nat)
    requires StrictWeakOrder(less) && Merging(less, s, a, l, m, h) && l < m < h
    requires less(s[m].key, s[l].key)
    ensures Merging(less, Moved(s, l, m, m + 1), a, l + 1, m + 1, h)
  {
    hide Moved;
    var r := Moved(s, l, m, m + 1);
    BeforeBlock(less, s, a, l, m, h);
    forall i, j | a <= i < j < m + 1 ensures !less(r[j].key, r[i].key) {
      MovedIndex(s, l, m, m + 1, i);
      MovedIndex(s, l, m, m + 1, j);
      MovedOrder(less, s, a, l, m, h, Origin(i, l, m, m + 1), Origin(j, l, m, m + 1));
    }
    forall i | m + 1 <= i < h ensures r[i] == s[i] {
      MovedIndex(s, l, m, m + 1, i);
    }
    forall i, j | a <= i < l + 1 && m + 1 <= j < h ensures !less(r[j].key, r[i].key) {
      MovedIndex(s, l, m, m + 1, i);
    }
  }

  /** Element m goes before those of the first run that are larger, and after the others. */
  lemma MovedOrder<T(!new)>(less: (T, T) -> bool, s: seq<Elem<T>>, a: nat, l: nat, m: nat, h: nat, x: nat, y: nat)
    requires StrictWeakOrder(less) && Merging(less, s, a, l, m, h) && l < m < h
    requires forall i :: l <= i < m ==> less(s[m].key, s[i].key)
    requires a <= x <= m && a <= y <= m
    requires if x == m then l <= y < m else if y == m then x < l else x < y
    ensures !less(s[y].key, s[x].key)
  {
  }

  lemma MovedSlice<X>(s: seq<X>, a: nat, l: nat, m: nat, h: nat)
    requires a <= l < m < h <= |s|
    ensures Moved(s, l, m, m + 1)[a..h] == s[a..l] + [s[m]] + s[l..m] + s[m + 1..h]
  {
    var p, q := Moved(s, l, m, m + 1)[a..h], s[a..l] + [s[m]] + s[l..m] + s[m + 1..h];
    forall k | 0 <= k < |p| ensures p[k] == q[k] {
      assert p[k] == Moved(s, l, m, m + 1)[a + k];
    }
  }

  lemma MergeMoveStable<T(!new)>(less: (T, T) -> bool, s: seq<Elem<T>>, a: nat, l: nat, m: nat, h: nat)
    requires StrictWeakOrder(less) && Merging(less, s, a, l, m, h) && l < m < h
    requires less(s[m].key, s[l].key)
    ensures StableImage(less, s[a..h], Moved(s, l, m, m + 1)[a..h])
  {
    BeforeBlock(less, s, a, l, m, h);
    assert s[a..h] == s[a..l] + s[l..m] + [s[m]] + s[m + 1..h];
    MovedSlice(s, a, l, m, h);
    MoveIsStable(less, s[a..l], s[l..m], s[m], s[m + 1..h]);
  }

  /** The first place from `j` on where the order descends, or `h`. */
  ghost function RunEnd<T>(less: (T, T) -> bool, s: seq<Elem<T>>, j: nat, h: nat): (r: nat)
    requires 0 < j <= h < |s|
    ensures j <= r <= h
    decreases h - j
  {
    if j == h || less(s[j].key, s[j - 1].key) then j else RunEnd(less, s, j + 1, h)
  }

  /** Finds the end of the run that starts at `a`, not after `b`. */
  method FindEndOfRun<T>(list: List<T>, a: Elem<T>, b: Elem<T>, less: (T, T) -> bool, ghost i: nat, ghost h: nat)
    returns (end: Elem<T>, ghost j: nat)
    requires list.Valid() && 0 < i < h < |list.nodes| && list.nodes[i] == a && list.nodes[h] == b
    ensures end == list.nodes[RunEnd(less, list.nodes, i + 1, h)]
    ensures i < j <= h && list.nodes[j] == end && Descents(less, list.nodes[i..j]) == 0
    ensures j < h ==> less(list.nodes[j].key, list.nodes[j - 1].key)
  {
    hide Chained, Distinct, Descents, RunEnd;
    NextNode(list, i);
    end, j := a.next, i + 1;
    RunStarts(less, list.nodes, i);
    while end != b && !less(end.key, end.prev.key)
      invariant i < j <= h && list.nodes[j] == end && list.nodes[j].prev == list.nodes[j - 1]
      invariant RunEnd(less, list.nodes, i + 1, h) == RunEnd(less, list.nodes, j, h)
      invariant Descents(less, list.nodes[i..j]) == 0
      decreases h - j
    {
      SamePlace(list, j, h);
      RunGoesOn(less, list.nodes, i, j, h);
      NextNode(list, j);
      end, j := end.next, j + 1;
    }
    SamePlace(list, j, h);
    RunStops(less, list.nodes, j, h);
  }

  lemma RunStarts<T>(less: (T, T) -> bool, s: seq<Elem<T>>, i: nat)
    requires i < |s|
    ensures Descents(less, s[i..i + 1]) == 0
  {
  }

  lemma RunGoesOn<T>(less: (T, T) -> bool, s: seq<Elem<T>>, i: nat, j: nat, h: nat)
    requires i < j < h < |s| && !less(s[j].key, s[j - 1].key)
    ensures RunEnd(less, s, j, h) == RunEnd(less, s, j + 1, h)
    ensures Descents(less, s[i..j]) == 0 ==> Descents(less, s[i..j + 1]) == 0
  {
    var run := s[i..j + 1];
    assert run[..|run| - 1] == s[i..j];
    assert run[|run| - 1] == s[j] && run[|run| - 2] == s[j - 1];
  }

  lemma RunStops<T>(less: (T, T) -> bool, s: seq<Elem<T>>, j: nat, h: nat)
    requires 0 < j <= h < |s| && (j == h || less(s[j].key, s[j - 1].key))
    ensures RunEnd(less, s, j, h) == j
  {
  }

  /** Invariant of the merge loop, started on `s`, now at `t`. */
  ghost predicate MergeInv<T(!new)>(less: (T, T) -> bool, s: seq<Elem<T>>, t: seq<Elem<T>>,
                                    a: nat, l: nat, m: nat, h: nat)
  {
    && 0 < a < h < |s| == |t|
    && Merging(less, t, a, l, m, h)
    && t[..a] == s[..a] && t[h..] == s[h..]
    && StableImage(less, s[a..h], t[a..h])
    && SameNodes(s, t)
  }

  lemma MergeInvKeeps<T(!new)>(less: (T, T) -> bool, s: seq<Elem<T>>, t: seq<Elem<T>>, a: nat, l: nat, m: nat, h: nat)
    requires StrictWeakOrder(less) && MergeInv(less, s, t, a, l, m, h) && l < m < h
    requires !less(t[m].key, t[l].key)
    ensures MergeInv(less, s, t, a, l + 1, m, h)
  {
    MergeKeeps(less, t, a, l, m, h);
  }

  lemma MergeInvMoves<T(!new)>(less: (T, T) -> bool, s: seq<Elem<T>>, t: seq<Elem<T>>, a: nat, l: nat, m: nat, h: nat)
    requires StrictWeakOrder(less) && MergeInv(less, s, t, a, l, m, h) && l < m < h
    requires less(t[m].key, t[l].key)
    ensures MergeInv(less, s, Moved(t, l, m, m + 1), a, l + 1, m + 1, h)
  {
    hide StrictWeakOrder, SortedRange, StableImage;
    MergeMoves(less, t, a, l, m, h);
    MergeMoveStable(less, t, a, l, m, h);
    var r := Moved(t, l, m, m + 1);
    StableTransitive(less, s[a..h], t[a..h], r[a..h]);
    assert r[..a] == t[..a] && r[h..] == t[h..];
    forall i | 0 <= i < |r| ensures r[i] in s {
      assert r[i] == t[Origin(i, l, m, m + 1)];
    }
  }

  /** Splices y in front of x and returns the element after y. */
  method TakeSecond<T>(list: List<T>, x: Elem<T>, y: Elem<T>, ghost l: nat, ghost m: nat) returns (y': Elem<T>)
    requires list.Valid() && 0 < l < m < |list.nodes| - 1 && list.nodes[l] == x && list.nodes[m] == y
    modifies list, list.nodes
    ensures list.Valid() && list.nodes == Moved(old(list.nodes), l, m, m + 1) && list.nodes[m + 1] == y'
  {
    hide Chained, Distinct, Moved;
    NextNode(list, m);
    y' := y.next;
    list.Splice(x, y'.prev, y', l, m, m + 1);
    MovedIndex(old(list.nodes), l, m, m + 1, m + 1);
  }

  lemma NextNode<T>(list: List<T>, i: nat)
    requires list.Valid() && i < |list.nodes| - 1
    ensures list.nodes[i].next == list.nodes[i + 1] && list.nodes[i + 1].prev == list.nodes[i]
  {
  }

  lemma SamePlace<T>(list: List<T>, i: nat, j: nat)
    requires list.Valid() && i < |list.nodes| && j < |list.nodes|
    ensures list.nodes[i] == list.nodes[j] <==> i == j
  {
  }

  /** Merges a0..a1b0 with a1b0..b1. */
  method InplaceMerge<T(!new)>(list: List<T>, a0: Elem<T>, a1b0: Elem<T>, b1: Elem<T>, less: (T, T) -> bool,
                               ghost a: nat, ghost m: nat, ghost h: nat)
    requires StrictWeakOrder(less) && list.Valid()
    requires 0 < a < m < h < |list.nodes|
    requires list.nodes[a] == a0 && list.nodes[m] == a1b0 && list.nodes[h] == b1
    requires SortedRange(less, list.nodes, a, m) && SortedRange(less, list.nodes, m, h)
    modifies list, list.nodes
    ensures list.Valid() && Merged(less, old(list.nodes), list.nodes, a, h)
  {
    hide StrictWeakOrder, SortedRange, StableImage, Chained, Distinct, Merging, MergeInv, Merged;
    ghost var s := list.nodes;
    var x, y := a0, a1b0;
    ghost var l, k := a, m;
    MergeInvStart(less, s, a, m, h);
    while x != y && y != b1
      invariant list.Valid() && MergeInv(less, s, list.nodes, a, l, k, h)
      invariant a <= l <= k <= h < |list.nodes| && SameNodes(s, list.nodes)
      invariant list.nodes[l] == x && list.nodes[k] == y && list.nodes[h] == b1
      decreases h - l
    {
      SamePlace(list, l, k);
      SamePlace(list, k, h);
      if !less(y.key, x.key) {
        MergeInvKeeps(less, s, list.nodes, a, l, k, h);
        NextNode(list, l);
        x, l := x.next, l + 1;
      } else {
        MergeInvMoves(less, s, list.nodes, a, l, k, h);
        y := TakeSecond(list, x, y, l, k);
        l, k := l + 1, k + 1;
      }
      MergeInvFacts(less, s, list.nodes, a, l, k, h);
    }
    SamePlace(list, l, k);
    SamePlace(list, k, h);
    MergeInvEnd(less, s, list.nodes, a, l, k, h);
  }

  lemma MergeInvFacts<T(!new)>(less: (T, T) -> bool, s: seq<Elem<T>>, t: seq<Elem<T>>, a: nat, l: nat, m: nat, h: nat)
    requires MergeInv(less, s, t, a, l, m, h)
    ensures a <= l <= m <= h < |t| && SameNodes(s, t)
  {
  }

  lemma MergeInvStart<T(!new)>(less: (T, T) -> bool, s: seq<Elem<T>>, a: nat, m: nat, h: nat)
    requires 0 < a < m < h < |s| && SortedRange(less, s, a, m) && SortedRange(less, s, m, h)
    ensures MergeInv(less, s, s, a, a, m, h)
  {
  }

  lemma MergeInvEnd<T(!new)>(less: (T, T) -> bool, s: seq<Elem<T>>, t: seq<Elem<T>>, a: nat, l: nat, m: nat, h: nat)
    requires MergeInv(less, s, t, a, l, m, h) && (l == m || m == h)
    ensures Merged(less, s, t, a, h)
  {
  }

  ghost predicate SameNodes<T>(s: seq<Elem<T>>, r: seq<Elem<T>>) {
    forall i :: 0 <= i < |r| ==> r[i] in s
  }

  /** Positions a..h of `r` are those of `s` in order, stably; everything else is in place. */
  ghost predicate Merged<T(!new)>(less: (T, T) -> bool, s: seq<Elem<T>>, r: seq<Elem<T>>, a: nat, h: nat) {
    && a <= h <= |s| == |r|
    && r[..a] == s[..a] && r[h..] == s[h..]
    && SortedRange(less, r, a, h) && StableImage(less, s[a..h], r[a..h])
    && SameNodes(s, r)
  }

  lemma StableConcat<T(!new)>(less: (T, T) -> bool, a: seq<Elem<T>>, a': seq<Elem<T>>,
                              b: seq<Elem<T>>, b': seq<Elem<T>>)
    requires StableImage(less, a, a') && StableImage(less, b, b')
    ensures StableImage(less, a + b, a' + b')
  {
    forall x ensures Class(less, x, a + b) == Class(less, x, a' + b') {
      ClassConcat(less, x, a, b);
      ClassConcat(less, x, a', b');
      assert Class(less, x, a) == Class(less, x, a') && Class(less, x, b) == Class(less, x, b');
    }
  }

  lemma RunsConcat<T>(less: (T, T) -> bool, a: seq<Elem<T>>, b: seq<Elem<T>>)
    ensures Runs(less, a + b) <= Runs(less, a) + Runs(less, b)
    ensures DescentBetween(less, a, b) || b == [] ==> Runs(less, a + b) == Runs(less, a) + Runs(less, b)
  {
    DescentsConcat(less, a, b);
    if b == [] { assert a + b == a; }
  }

  /** A pass over `s` has turned the part before `l` into at most `out` runs, using up two runs for each. */
  ghost predicate PassInv<T(!new)>(less: (T, T) -> bool, s: seq<Elem<T>>, t: seq<Elem<T>>, l: nat, out: nat) {
    && 1 <= l <= |s| - 1 && |t| == |s|
    && t[..1] == s[..1] && t[l..] == s[l..]
    && StableImage(less, s[1..l], t[1..l])
    && Runs(less, t[1..l]) <= out
    && Runs(less, s[1..|s| - 1]) == 2 * out + Runs(less, s[l..|s| - 1])
    && SameNodes(s, t)
  }

  /** Two adjacent maximal runs of `t`, from `l` to `m` and from `m` to `h`. */
  ghost predicate TwoRuns<T>(less: (T, T) -> bool, t: seq<Elem<T>>, l: nat, m: nat, h: nat) {
    && l < m < h < |t|
    && Descents(less, t[l..m]) == 0 && Descents(less, t[m..h]) == 0
    && less(t[m].key, t[m - 1].key)
    && (h < |t| - 1 ==> less(t[h].key, t[h - 1].key))
  }

  lemma TwoRunsCount<T>(less: (T, T) -> bool, t: seq<Elem<T>>, l: nat, m: nat, h: nat)
    requires TwoRuns(less, t, l, m, h)
    ensures Runs(less, t[l..|t| - 1]) == 2 + Runs(less, t[h..|t| - 1])
  {
    var a, b, r := t[l..m], t[m..h], t[h..|t| - 1];
    assert t[l..|t| - 1] == (a + b) + r;
    RunsConcat(less, a, b);
    RunsConcat(less, a + b, r);
  }

  lemma PassStep<T(!new)>(less: (T, T) -> bool, s: seq<Elem<T>>, t: seq<Elem<T>>, r: seq<Elem<T>>,
                          l: nat, m: nat, h: nat, out: nat)
    requires StrictWeakOrder(less) && PassInv(less, s, t, l, out) && TwoRuns(less, t, l, m, h)
    requires Merged(less, t, r, l, h)
    ensures PassInv(less, s, r, h, out + 1)
  {
    hide StrictWeakOrder, StableImage, Runs, Descents, SortedRange;
    assert s[l..|s| - 1] == t[l..|s| - 1] && s[h..|s| - 1] == t[h..|s| - 1] by {
      SliceOfSuffix(s, t, l, h);
    }
    TwoRunsCount(less, t, l, m, h);
    assert r[1..l] == t[1..l] by { assert r[..l][1..] == r[1..l] && t[..l][1..] == t[1..l]; }
    assert r[1..h] == r[1..l] + r[l..h] && s[1..h] == s[1..l] + s[l..h];
    assert s[l..h] == t[l..h] by { assert s[l..][..h - l] == s[l..h] && t[l..][..h - l] == t[l..h]; }
    StableConcat(less, s[1..l], r[1..l], s[l..h], r[l..h]);
    OneRun(less, r, l, h);
    RunsConcat(less, r[1..l], r[l..h]);
    assert r[..1] == t[..1] by { assert r[..l][..1] == r[..1] && t[..l][..1] == t[..1]; }
    assert r[h..] == s[h..] by { assert t[l..][h - l..] == t[h..] && s[l..][h - l..] == s[h..]; }
    SameNodesTransitive(s, t, r);
  }

  lemma SliceOfSuffix<X>(s: seq<X>, t: seq<X>, l: nat, h: nat)
    requires l <= h <= |s| - 1 && |t| == |s| && t[l..] == s[l..]
    ensures s[l..|s| - 1] == t[l..|s| - 1] && s[h..|s| - 1] == t[h..|s| - 1]
  {
    forall i | l <= i < |s| ensures s[i] == t[i] {
      assert s[l..][i - l] == t[l..][i - l];
    }
  }

  lemma SameNodesTransitive<T>(s: seq<Elem<T>>, t: seq<Elem<T>>, r: seq<Elem<T>>)
    requires SameNodes(s, t) && SameNodes(t, r)
    ensures SameNodes(s, r)
  {
    forall i | 0 <= i < |r| ensures r[i] in s {
      var j :| 0 <= j < |t| && t[j] == r[i];
    }
  }

  lemma OneRun<T(!new)>(less: (T, T) -> bool, r: seq<Elem<T>>, l: nat, h: nat)
    requires StrictWeakOrder(less) && l < h <= |r| && SortedRange(less, r, l, h)
    ensures Runs(less, r[l..h]) == 1
  {
    assert Sorted(less, r[l..h]);
    SortedDescents(less, r[l..h]);
  }

  /** What one pass does to the list: stable, at most `out` runs left, at least `2 * out - 1` before. */
  ghost predicate Passed<T(!new)>(less: (T, T) -> bool, s: seq<Elem<T>>, t: seq<Elem<T>>, out: nat) {
    && |t| == |s| >= 2 && SameNodes(s, t)
    && StableImage(less, s[1..|s| - 1], t[1..|s| - 1])
    && Runs(less, t[1..|s| - 1]) <= out
    && 2 * out - 1 <= Runs(less, s[1..|s| - 1])
  }

  lemma PassEnds<T(!new)>(less: (T, T) -> bool, s: seq<Elem<T>>, t: seq<Elem<T>>, l: nat, out: nat)
    requires PassInv(less, s, t, l, out) && l == |s| - 1
    ensures Passed(less, s, t, out)
  {
    assert s[l..|s| - 1] == [];
  }

  lemma PassBreaks<T(!new)>(less: (T, T) -> bool, s: seq<Elem<T>>, t: seq<Elem<T>>, l: nat, out: nat)
    requires PassInv(less, s, t, l, out) && l < |s| - 1 && Descents(less, t[l..|s| - 1]) == 0
    ensures Passed(less, s, t, out + 1)
  {
    hide StableImage;
    var n := |s| - 1;
    SliceOfSuffix(s, t, l, n);
    assert s[1..n] == s[1..l] + s[l..n] && t[1..n] == t[1..l] + t[l..n];
    StableSelf(less, s[l..n]);
    StableConcat(less, s[1..l], t[1..l], s[l..n], t[l..n]);
    RunsConcat(less, t[1..l], t[l..n]);
  }

  lemma StableSelf<T(!new)>(less: (T, T) -> bool, a: seq<Elem<T>>)
    ensures StableImage(less, a, a)
  {
  }

  lemma PassStarts<T(!new)>(less: (T, T) -> bool, s: seq<Elem<T>>)
    requires |s| >= 2
    ensures PassInv(less, s, s, 1, 0)
  {
  }

  lemma RunRanges<T(!new)>(less: (T, T) -> bool, t: seq<Elem<T>>, l: nat, m: nat)
    requires StrictWeakOrder(less) && l <= m <= |t| && Descents(less, t[l..m]) == 0
    ensures SortedRange(less, t, l, m)
  {
    SortedDescents(less, t[l..m]);
    forall i, j | l <= i < j < m ensures !less(t[j].key, t[i].key) {
      assert t[l..m][i - l] == t[i] && t[l..m][j - l] == t[j];
    }
  }

  lemma PassInvFacts<T(!new)>(less: (T, T) -> bool, s: seq<Elem<T>>, t: seq<Elem<T>>, l: nat, out: nat)
    requires PassInv(less, s, t, l, out)
    ensures 1 <= l <= |s| - 1 && |t| == |s| && SameNodes(s, t)
  {
  }

  lemma MergedPlaces<T(!new)>(less: (T, T) -> bool, s: seq<Elem<T>>, r: seq<Elem<T>>, a: nat, h: nat, i: nat)
    requires Merged(less, s, r, a, h) && h <= i < |s|
    ensures |r| == |s| && r[i] == s[i]
  {
    assert r[h..][i - h] == s[h..][i - h];
  }

  /** One pass: merges adjacent pairs of runs and counts the runs it outputs. */
  method Pass<T(!new)>(list: List<T>, less: (T, T) -> bool) returns (out: nat)
    requires StrictWeakOrder(less) && list.Valid()
    modifies list, list.nodes
    ensures list.Valid() && Passed(less, old(list.nodes), list.nodes, out)
  {
    hide StrictWeakOrder, PassInv, Passed, Merged, Chained, Distinct, SortedRange, Descents, StableImage, Runs;
    out := 0;
    ghost var s, l := list.nodes, 1;
    NextNode(list, 0);
    var a0 := list.head.next;
    PassStarts(less, s);
    while a0 != list.tail
      invariant list.Valid() && PassInv(less, s, list.nodes, l, out)
      invariant 1 <= l < |list.nodes| == |s| && SameNodes(s, list.nodes)
      invariant list.nodes[l] == a0
      decreases |s| - l
    {
      ghost var t, n := list.nodes, |list.nodes| - 1;
      SamePlace(list, l, n);
      ghost var m, h;
      var a1b0, b1;
      a1b0, m := FindEndOfRun(list, a0, list.tail, less, l, n);
      SamePlace(list, m, n);
      if a1b0 == list.tail {
        PassBreaks(less, s, t, l, out);
        out := out + 1;
        return;
      }
      b1, h := FindEndOfRun(list, a1b0, list.tail, less, m, n);
      RunRanges(less, t, l, m);
      RunRanges(less, t, m, h);
      InplaceMerge(list, a0, a1b0, b1, less, l, m, h);
      PassStep(less, s, t, list.nodes, l, m, h, out);
      PassInvFacts(less, s, list.nodes, h, out + 1);
      MergedPlaces(less, t, list.nodes, l, h, h);
      out, a0, l := out + 1, b1, h;
    }
    SamePlace(list, l, |s| - 1);
    PassEnds(less, s, list.nodes, l, out);
  }

  /** list_sort: terminates, and leaves a well-formed list that is a sorted, stable permutation. */
  method Sort<T(!new)>(list: List<T>, less: (T, T) -> bool)
    requires StrictWeakOrder(less) && list.Valid()
    modifies list, list.nodes
    ensures list.Valid()
    ensures Sorted(less, list.Items())
    ensures StableImage(less, old(list.Items()), list.Items())
    ensures multiset(list.Items()) == multiset(old(list.Items()))
  {
    hide StrictWeakOrder, Chained, Distinct, StableImage, Runs, Passed;
    ghost var s := list.nodes;
    StableSelf(less, list.Items());
    var out := 2;
    while out > 1
      invariant list.Valid() && SameNodes(s, list.nodes)
      invariant StableImage(less, s[1..|s| - 1], list.Items())
      invariant out <= 1 ==> Runs(less, list.Items()) <= 1
      decreases Runs(less, list.Items()), out
    {
      ghost var t := list.nodes;
      out := Pass(list, less);
      PassedFacts(less, s, t, list.nodes, out);
    }
    SortedRuns(less, list.Items());
    StableIsPermutation(less, s[1..|s| - 1], list.Items());
  }

  lemma PassedFacts<T(!new)>(less: (T, T) -> bool, s: seq<Elem<T>>, t: seq<Elem<T>>, r: seq<Elem<T>>, out: nat)
    requires |s| >= 2 && SameNodes(s, t) && Passed(less, t, r, out)
    requires StableImage(less, s[1..|s| - 1], t[1..|t| - 1])
    ensures |r| == |t| && SameNodes(s, r) && StableImage(less, s[1..|s| - 1], r[1..|r| - 1])
    ensures Runs(less, r[1..|r| - 1]) <= out
    ensures out > 1 ==> Runs(less, r[1..|r| - 1]) < Runs(less, t[1..|t| - 1])
    ensures Runs(less, r[1..|r| - 1]) <= Runs(less, t[1..|t| - 1])
  {
    SameNodesTransitive(s, t, r);
    StableTransitive(less, s[1..|s| - 1], t[1..|t| - 1], r[1..|r| - 1]);
  }

  lemma SortedRuns<T(!new)>(less: (T, T) -> bool, s: seq<Elem<T>>)
    requires StrictWeakOrder(less) && Runs(less, s) <= 1
    ensures Sorted(less, s)
  {
    SortedDescents(less, s);
  }
}
