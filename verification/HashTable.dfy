/** The chained hash table: a set of elements no two of which compare equal. */
module HashTable {
  import opened Prelude
  import opened BucketCount

  /** Elements that compare equal: neither is less. */
  predicate Same<T(!new)>(less: (T, T) -> bool, a: T, b: T) {
    !less(a, b) && !less(b, a)
  }

  /** `less` orders elements by a key, and equal elements hash alike. */
  ghost predicate Keyed<T(!new)>(hash: T -> nat, less: (T, T) -> bool) {
    && (forall a :: !less(a, a))
    && (forall a, b, c :: Same(less, a, b) && Same(less, b, c) ==> Same(less, a, c))
    && (forall a, b :: Same(less, a, b) ==> hash(a) == hash(b))
  }

  /** find_bucket: the hash masked to the bucket count. */
  function Slot<T>(hash: T -> nat, cnt: nat, x: T): nat
    requires cnt > 0
  {
    And(hash(x), cnt - 1)
  }

  lemma SlotInRange<T>(hash: T -> nat, cnt: nat, x: T)
    requires IsPow2(cnt)
    ensures cnt > 0 && Slot(hash, cnt, x) == hash(x) % cnt < cnt
  {
    var k: nat :| cnt == Pow2(k);
    MaskIsMod(hash(x), k);
  }

  /** All elements, bucket after bucket. */
  function Flat<T>(buckets: seq<seq<T>>): seq<T> {
    if buckets == [] then [] else Flat(buckets[..|buckets| - 1]) + buckets[|buckets| - 1]
  }

  ghost function Elements<T>(buckets: seq<seq<T>>): (r: set<T>)
  {
    set x | x in Flat(buckets)
  }

  /** No two of them compare equal. */
  ghost predicate Unique<T(!new)>(less: (T, T) -> bool, s: seq<T>) {
    forall i, j :: 0 <= i < j < |s| ==> !Same(less, s[i], s[j])
  }

  /** Each element is in the bucket its hash says. */
  ghost predicate Placed<T>(hash: T -> nat, buckets: seq<seq<T>>) {
    |buckets| > 0 && forall i :: 0 <= i < |buckets| ==> forall x :: x in buckets[i] ==> Slot(hash, |buckets|, x) == i
  }

  ghost predicate TableOk<T(!new)>(hash: T -> nat, less: (T, T) -> bool, buckets: seq<seq<T>>) {
    IsPow2(|buckets|) && Placed(hash, buckets) && forall i :: 0 <= i < |buckets| ==> Unique(less, buckets[i])
  }

  // ---------- flattening ----------

  lemma {:induction false} InFlat<T>(buckets: seq<seq<T>>, x: T)
    ensures x in Flat(buckets) <==> exists i :: 0 <= i < |buckets| && x in buckets[i]
  {
    if buckets != [] {
      var n := |buckets| - 1;
      InFlat(buckets[..n], x);
      if x in Flat(buckets) && x !in buckets[n] {
        var i :| 0 <= i < n && x in buckets[..n][i];
        assert x in buckets[i];
      }
      if i :| 0 <= i < |buckets| && x in buckets[i] {
        if i < n { assert x in buckets[..n][i]; }
      }
    }
  }

  /** Changing one bucket changes that part of the whole. */
  lemma {:induction false} FlatSplit<T>(buckets: seq<seq<T>>, i: nat) returns (before: seq<T>, after: seq<T>)
    requires i < |buckets|
    ensures forall b :: Flat(buckets[i := b]) == before + b + after
  {
    var n := |buckets| - 1;
    if i == n {
      before, after := Flat(buckets[..n]), [];
      forall b ensures Flat(buckets[i := b]) == before + b + after {
        assert buckets[i := b][..n] == buckets[..n];
      }
    } else {
      before, after := FlatSplit(buckets[..n], i);
      var inner := after;
      after := after + buckets[n];
      forall b ensures Flat(buckets[i := b]) == before + b + after {
        assert buckets[i := b][..n] == buckets[..n][i := b];
        assert Flat(buckets[..n][i := b]) == before + b + inner;
      }
    }
  }

  /** Where bucket `b` starts in the whole. */
  function Offset<T>(buckets: seq<seq<T>>, b: nat): nat
    requires b <= |buckets|
  {
    |Flat(buckets[..b])|
  }

  lemma {:induction false} FlatAt<T>(buckets: seq<seq<T>>, b: nat)
    requires b < |buckets|
    ensures Offset(buckets, b + 1) == Offset(buckets, b) + |buckets[b]| <= |Flat(buckets)|
    ensures Flat(buckets)[Offset(buckets, b)..Offset(buckets, b + 1)] == buckets[b]
  {
    var n := |buckets| - 1;
    assert buckets[..b + 1][..b] == buckets[..b];
    if b < n {
      FlatAt(buckets[..n], b);
      assert buckets[..n][..b] == buckets[..b] && buckets[..n][..b + 1] == buckets[..b + 1];
    } else {
      assert buckets[..b + 1] == buckets;
    }
  }

  // ---------- lookup, insertion, removal ----------

  lemma SameSlot<T(!new)>(hash: T -> nat, less: (T, T) -> bool, cnt: nat, a: T, b: T)
    requires Keyed(hash, less) && cnt > 0 && Same(less, a, b)
    ensures Slot(hash, cnt, a) == Slot(hash, cnt, b)
  {
  }

  /** An equal element can only be in the bucket of `e`. */
  lemma LookThere<T(!new)>(hash: T -> nat, less: (T, T) -> bool, buckets: seq<seq<T>>, e: T, x: T)
    requires Keyed(hash, less) && TableOk(hash, less, buckets) && x in Elements(buckets) && Same(less, x, e)
    ensures Slot(hash, |buckets|, e) < |buckets| && x in buckets[Slot(hash, |buckets|, e)]
  {
    InFlat(buckets, x);
    SlotInRange(hash, |buckets|, e);
    SameSlot(hash, less, |buckets|, x, e);
  }

  /** No two elements of the table compare equal. */
  lemma OneEach<T(!new)>(hash: T -> nat, less: (T, T) -> bool, buckets: seq<seq<T>>, x: T, y: T)
    requires Keyed(hash, less) && TableOk(hash, less, buckets) && x in Elements(buckets) && y in Elements(buckets)
    requires Same(less, x, y)
    ensures x == y
  {
    LookThere(hash, less, buckets, x, x);
    LookThere(hash, less, buckets, x, y);
    var b := buckets[Slot(hash, |buckets|, x)];
    var i :| 0 <= i < |b| && b[i] == x;
    var j :| 0 <= j < |b| && b[j] == y;
    assert Unique(less, b);
  }

  lemma ElementsUpdate<T>(buckets: seq<seq<T>>, i: nat, b: seq<T>, x: T)
    requires i < |buckets|
    ensures x in Elements(buckets[i := b]) <==> x in b || exists j :: 0 <= j < |buckets| && j != i && x in buckets[j]
  {
    InFlat(buckets[i := b], x);
    var after := buckets[i := b];
    if j :| 0 <= j < |after| && x in after[j] {
      if j != i { assert x in buckets[j]; }
    }
    if x in b { assert x in after[i]; }
    if j :| 0 <= j < |buckets| && j != i && x in buckets[j] { assert x in after[j]; }
  }

  function Pushed<T>(buckets: seq<seq<T>>, i: nat, x: T): seq<seq<T>>
    requires i < |buckets|
  {
    buckets[i := [x] + buckets[i]]
  }

  lemma PushKeeps<T(!new)>(hash: T -> nat, less: (T, T) -> bool, buckets: seq<seq<T>>, x: T)
    requires Keyed(hash, less) && TableOk(hash, less, buckets)
    requires forall y :: y in Elements(buckets) ==> !Same(less, y, x)
    ensures var i := Slot(hash, |buckets|, x);
            && i < |buckets| && TableOk(hash, less, Pushed(buckets, i, x))
            && Elements(Pushed(buckets, i, x)) == Elements(buckets) + {x}
            && |Flat(Pushed(buckets, i, x))| == |Flat(buckets)| + 1
  {
    SlotInRange(hash, |buckets|, x);
    var i := Slot(hash, |buckets|, x);
    var after := Pushed(buckets, i, x);
    forall y | y in buckets[i] ensures !Same(less, x, y) {
      InFlat(buckets, y);
      assert y in Elements(buckets);
    }
    forall y ensures y in Elements(after) <==> y in Elements(buckets) || y == x {
      ElementsUpdate(buckets, i, [x] + buckets[i], y);
      ElementsUpdate(buckets, i, buckets[i], y);
      assert buckets[i := buckets[i]] == buckets;
    }
    LengthAfter(buckets, i, [x] + buckets[i]);
    assert TableOk(hash, less, after);
  }

  lemma LengthAfter<T>(buckets: seq<seq<T>>, i: nat, b: seq<T>)
    requires i < |buckets|
    ensures |Flat(buckets[i := b])| - |b| == |Flat(buckets)| - |buckets[i]|
  {
    var before, after := FlatSplit(buckets, i);
    assert Flat(buckets[i := b]) == before + b + after;
    assert Flat(buckets[i := buckets[i]]) == before + buckets[i] + after;
    assert buckets[i := buckets[i]] == buckets;
  }

  function Dropped<T>(buckets: seq<seq<T>>, i: nat, j: nat): seq<seq<T>>
    requires i < |buckets| && j < |buckets[i]|
  {
    buckets[i := buckets[i][..j] + buckets[i][j + 1..]]
  }

  lemma DropKeeps<T(!new)>(hash: T -> nat, less: (T, T) -> bool, buckets: seq<seq<T>>, i: nat, j: nat)
    requires Keyed(hash, less) && TableOk(hash, less, buckets) && i < |buckets| && j < |buckets[i]|
    ensures TableOk(hash, less, Dropped(buckets, i, j))
    ensures Elements(Dropped(buckets, i, j)) == Elements(buckets) - {buckets[i][j]}
    ensures |Flat(Dropped(buckets, i, j))| == |Flat(buckets)| - 1
  {
    var b, x := buckets[i], buckets[i][j];
    var rest := b[..j] + b[j + 1..];
    forall y ensures y in rest <==> y in b && y != x {
      RestOf(less, b, j, y);
    }
    forall y ensures y in Elements(Dropped(buckets, i, j)) <==> y in Elements(buckets) && y != x {
      ElementsUpdate(buckets, i, rest, y);
      ElementsUpdate(buckets, i, b, y);
      assert buckets[i := b] == buckets;
    }
    LengthAfter(buckets, i, rest);
    assert Unique(less, b);
    UniqueRest(less, b, j);
  }

  lemma RestOf<T(!new)>(less: (T, T) -> bool, b: seq<T>, j: nat, y: T)
    requires j < |b| && Unique(less, b) && forall a :: !less(a, a)
    ensures y in b[..j] + b[j + 1..] <==> y in b && y != b[j]
  {
    var rest := b[..j] + b[j + 1..];
    if k :| 0 <= k < |b| && b[k] == y && k != j {
      assert rest[if k < j then k else k - 1] == y;
    }
    if k :| 0 <= k < |rest| && rest[k] == y {
      assert b[if k < j then k else k + 1] == y;
    }
  }

  lemma UniqueRest<T(!new)>(less: (T, T) -> bool, b: seq<T>, j: nat)
    requires j < |b| && Unique(less, b)
    ensures Unique(less, b[..j] + b[j + 1..])
  {
    var rest := b[..j] + b[j + 1..];
    forall p, q | 0 <= p < q < |rest| ensures !Same(less, rest[p], rest[q]) {
      var p', q' := if p < j then p else p + 1, if q < j then q else q + 1;
      assert rest[p] == b[p'] && rest[q] == b[q'];
    }
  }

  // ---------- rehashing ----------

  /** Elements pushed one after the other into `cnt` empty buckets. */
  function Distribute<T>(hash: T -> nat, cnt: nat, s: seq<T>): (r: seq<seq<T>>)
    requires cnt > 0
    ensures |r| == cnt
  {
    if s == [] then seq(cnt, _ => [])
    else
      var n := |s| - 1;
      var d, k := Distribute(hash, cnt, s[..n]), Slot(hash, cnt, s[n]);
      if k < cnt then Pushed(d, k, s[n]) else d
  }

  lemma {:induction false} EmptyTable<T(!new)>(hash: T -> nat, less: (T, T) -> bool, buckets: seq<seq<T>>)
    requires forall i :: 0 <= i < |buckets| ==> buckets[i] == []
    ensures Flat(buckets) == []
    ensures IsPow2(|buckets|) ==> TableOk(hash, less, buckets)
  {
    if buckets != [] {
      EmptyTable(hash, less, buckets[..|buckets| - 1]);
    }
  }

  /** What distributing `s` gives: a table of exactly its elements. */
  ghost predicate Distributed<T(!new)>(hash: T -> nat, less: (T, T) -> bool, d: seq<seq<T>>, s: seq<T>) {
    TableOk(hash, less, d) && |Flat(d)| == |s| && forall x :: x in Elements(d) <==> x in s
  }

  lemma {:induction false} DistributeOk<T(!new)>(hash: T -> nat, less: (T, T) -> bool, cnt: nat, s: seq<T>)
    requires Keyed(hash, less) && IsPow2(cnt) && cnt > 0 && Unique(less, s)
    ensures Distributed(hash, less, Distribute(hash, cnt, s), s)
  {
    if s == [] {
      EmptyTable(hash, less, Distribute(hash, cnt, s));
    } else {
      hide TableOk, Elements, Keyed, Same, Distributed;
      var n := |s| - 1;
      var d := Distribute(hash, cnt, s[..n]);
      DistributeOk(hash, less, cnt, s[..n]);
      SlotInRange(hash, cnt, s[n]);
      DistributeNext(hash, less, d, s);
    }
  }

  lemma DistributeNext<T(!new)>(hash: T -> nat, less: (T, T) -> bool, d: seq<seq<T>>, s: seq<T>)
    requires Keyed(hash, less) && s != [] && Unique(less, s) && Distributed(hash, less, d, s[..|s| - 1])
    requires |d| > 0 && Slot(hash, |d|, s[|s| - 1]) < |d|
    ensures Distributed(hash, less, Pushed(d, Slot(hash, |d|, s[|s| - 1]), s[|s| - 1]), s)
  {
    hide TableOk, Elements, Keyed, Same;
    var n := |s| - 1;
    forall y | y in Elements(d) ensures !Same(less, y, s[n]) {
      var i :| 0 <= i < n && s[..n][i] == y;
      assert s[i] == y;
    }
    PushKeeps(hash, less, d, s[n]);
    assert s == s[..n] + [s[n]];
  }

  /** In the whole table no two elements compare equal. */
  lemma {:induction false} FlatUnique<T(!new)>(hash: T -> nat, less: (T, T) -> bool, cnt: nat, part: seq<seq<T>>)
    requires Keyed(hash, less) && cnt > 0
    requires forall i :: 0 <= i < |part| ==> Unique(less, part[i])
    requires forall i :: 0 <= i < |part| ==> forall x :: x in part[i] ==> Slot(hash, cnt, x) == i
    ensures Unique(less, Flat(part))
  {
    if part != [] {
      var n := |part| - 1;
      var a, b := Flat(part[..n]), part[n];
      FlatUnique(hash, less, cnt, part[..n]);
      forall x, y | x in a && y in b ensures !Same(less, x, y) {
        InFlat(part[..n], x);
        assert Slot(hash, cnt, y) == n && Slot(hash, cnt, x) != n;
      }
      UniqueJoin(less, a, b);
    }
  }

  lemma UniqueJoin<T(!new)>(less: (T, T) -> bool, a: seq<T>, b: seq<T>)
    requires Unique(less, a) && Unique(less, b) && forall x, y :: x in a && y in b ==> !Same(less, x, y)
    ensures Unique(less, a + b)
  {
    var c := a + b;
    forall i, j | 0 <= i < j < |c| ensures !Same(less, c[i], c[j]) {
      if i < |a| <= j { assert c[i] in a && c[j] in b; }
    }
  }

  // ---------- the table ----------

  class Table<T(!new, ==)> {
    const hash: T -> nat
    const less: (T, T) -> bool
    var elemCnt: nat
    var buckets: seq<seq<T>>

    ghost predicate Valid()
      reads this
    {
      Keyed(hash, less) && TableOk(hash, less, buckets) && elemCnt == |Flat(buckets)|
    }

    ghost function Contents(): set<T>
      reads this
    {
      Elements(buckets)
    }

    /** hash_init, once there is memory for the buckets. */
    constructor (hash: T -> nat, less: (T, T) -> bool)
      requires Keyed(hash, less)
      ensures Valid() && Contents() == {} && this.hash == hash && this.less == less
    {
      this.hash, this.less, elemCnt, buckets := hash, less, 0, [[], [], [], []];
      new;
      assert |buckets| == Pow2(2);
      EmptyTable(hash, less, buckets);
    }

    /** find_elem: the place in a bucket of an element equal to `e`. */
    method FindElem(bucket: seq<T>, e: T) returns (r: Option<nat>)
      ensures r.Some? ==> r.value < |bucket| && Same(less, bucket[r.value], e)
      ensures r.None? ==> forall x :: x in bucket ==> !Same(less, x, e)
    {
      var i := 0;
      while i < |bucket|
        invariant 0 <= i <= |bucket| && forall j :: 0 <= j < i ==> !Same(less, bucket[j], e)
      {
        if !less(bucket[i], e) && !less(e, bucket[i]) {
          return Some(i);
        }
        i := i + 1;
      }
      r := None;
    }

    /** find_bucket and find_elem. */
    method Locate(e: T) returns (b: nat, r: Option<nat>)
      requires Valid()
      ensures b == Slot(hash, |buckets|, e) < |buckets|
      ensures r.Some? ==>
        r.value < |buckets[b]| && Same(less, buckets[b][r.value], e) && buckets[b][r.value] in Contents()
      ensures r.None? ==> forall x :: x in Contents() ==> !Same(less, x, e)
    {
      SlotInRange(hash, |buckets|, e);
      b := Slot(hash, |buckets|, e);
      r := FindElem(buckets[b], e);
      if r.Some? {
        InFlat(buckets, buckets[b][r.value]);
      } else {
        forall x | x in Contents() ensures !Same(less, x, e) {
          if Same(less, x, e) { LookThere(hash, less, buckets, e, x); }
        }
      }
    }

    /** Moves every element of old buckets to its new bucket. */
    method MoveAll(was: seq<seq<T>>, cnt: nat) returns (news: seq<seq<T>>)
      requires IsPow2(cnt) && cnt > 0
      ensures news == Distribute(hash, cnt, Flat(was))
    {
      hide IsPow2, Flat, Slot;
      news := seq(cnt, _ => []);
      FlatNone(was);
      var i := 0;
      while i < |was|
        invariant 0 <= i <= |was| && |news| == cnt
        invariant news == Distribute(hash, cnt, Flat(was[..i]))
      {
        var j := 0;
        assert Flat(was[..i]) + was[i][..0] == Flat(was[..i]);
        while j < |was[i]|
          invariant 0 <= j <= |was[i]| && |news| == cnt
          invariant news == Distribute(hash, cnt, Flat(was[..i]) + was[i][..j])
        {
          var x := was[i][j];
          SlotInRange(hash, cnt, x);
          NextDistributed(hash, cnt, Flat(was[..i]), was[i], j);
          var k := Slot(hash, cnt, x);
          news := news[k := [x] + news[k]];
          j := j + 1;
        }
        FlatNext(was, i);
        i := i + 1;
      }
      assert was[..i] == was;
    }

    /** rehash: the elements stay, whether or not there is memory for new buckets. */
    method Rehash(memory: bool)
      requires Valid()
      modifies this`buckets
      ensures Valid() && Contents() == old(Contents())
      ensures memory ==> elemCnt < 4 * |buckets|
    {
      hide Same, Unique, Flat;
      var cnt := NewBucketCnt(elemCnt);
      if cnt == |buckets| || !memory {
        return;
      }
      var news := MoveAll(buckets, cnt);
      FlatUnique(hash, less, |buckets|, buckets);
      DistributeOk(hash, less, cnt, Flat(buckets));
      assert Elements(news) == Elements(buckets);
      buckets := news;
    }

    /** hash_insert: an equal element is returned and nothing changes, or the new one is added. */
    method Insert(x: T, memory: bool) returns (r: Option<T>)
      requires Valid()
      modifies this
      ensures Valid()
      ensures r.Some? ==> r.value in old(Contents()) && Same(less, r.value, x) && Contents() == old(Contents())
      ensures r.None? ==>
        (forall y :: y in old(Contents()) ==> !Same(less, y, x)) && Contents() == old(Contents()) + {x}
    {
      hide Keyed, TableOk;
      var b, found := Locate(x);
      r := None;
      if found.Some? {
        r := Some(buckets[b][found.value]);
      } else {
        PushKeeps(hash, less, buckets, x);
        elemCnt := elemCnt + 1;
        buckets := buckets[b := [x] + buckets[b]];
      }
      Rehash(memory);
    }

    /** hash_replace: the new element takes the place of an equal one. */
    method Replace(x: T, memory: bool) returns (r: Option<T>)
      requires Valid()
      modifies this
      ensures Valid()
      ensures r.Some? ==> r.value in old(Contents()) && Same(less, r.value, x)
      ensures r.Some? ==> Contents() == old(Contents()) - {r.value} + {x}
      ensures r.None? ==>
        (forall y :: y in old(Contents()) ==> !Same(less, y, x)) && Contents() == old(Contents()) + {x}
    {
      hide Keyed, TableOk, Same;
      var b, found := Locate(x);
      r := None;
      if found.Some? {
        r := Some(buckets[b][found.value]);
        RemoveAt(b, found.value);
        forall y | y in Contents() ensures !Same(less, y, x) {
          if Same(less, y, x) { OnlyOne(hash, less, old(buckets), y, r.value, x); }
        }
      }
      PushKeeps(hash, less, buckets, x);
      elemCnt := elemCnt + 1;
      buckets := buckets[b := [x] + buckets[b]];
      Rehash(memory);
    }

    /** remove_elem. */
    method RemoveAt(b: nat, i: nat)
      requires Valid() && b < |buckets| && i < |buckets[b]|
      modifies this
      ensures Valid() && Contents() == old(Contents()) - {old(buckets)[b][i]} && |buckets| == |old(buckets)|
    {
      DropKeeps(hash, less, buckets, b, i);
      elemCnt := elemCnt - 1;
      buckets := buckets[b := buckets[b][..i] + buckets[b][i + 1..]];
    }

    /** hash_find. */
    method Find(e: T) returns (r: Option<T>)
      requires Valid()
      ensures r.Some? ==> r.value in Contents() && Same(less, r.value, e)
      ensures r.None? <==> forall x :: x in Contents() ==> !Same(less, x, e)
    {
      hide Keyed, TableOk, Same;
      var b, found := Locate(e);
      r := if found.Some? then Some(buckets[b][found.value]) else None;
    }

    /** hash_delete. */
    method Delete(e: T, memory: bool) returns (r: Option<T>)
      requires Valid()
      modifies this
      ensures Valid()
      ensures r.Some? ==>
        r.value in old(Contents()) && Same(less, r.value, e) && Contents() == old(Contents()) - {r.value}
      ensures r.None? ==> (forall x :: x in old(Contents()) ==> !Same(less, x, e)) && Contents() == old(Contents())
    {
      hide Keyed, TableOk, Same;
      var b, found := Locate(e);
      r := None;
      if found.Some? {
        r := Some(buckets[b][found.value]);
        RemoveAt(b, found.value);
        Rehash(memory);
      }
    }

    /** hash_size counts the elements. */
    lemma SizeIs()
      requires Valid()
      ensures elemCnt == |Contents()|
    {
      FlatUnique(hash, less, |buckets|, buckets);
      UniqueSize(less, Flat(buckets));
    }

    // ---------- iteration ----------

    /** How many elements come up to and including place `i` of bucket `b`. */
    ghost function Passed(b: nat, i: int): int
      requires b < |buckets|
      reads this
    {
      Offset(buckets, b) + i + 1
    }

    /** hash_next from place `i` of bucket `b` (-1 before the first): the next element of the whole, or none. */
    method Next(b: nat, i: int) returns (b': nat, i': int, r: Option<T>)
      requires Valid() && b < |buckets| && -1 <= i < |buckets[b]|
      ensures Passed(b, i) < |Flat(buckets)| ==>
                && r == Some(Flat(buckets)[Passed(b, i)])
                && b' < |buckets| && -1 <= i' < |buckets[b']| && Passed(b', i') == Passed(b, i) + 1
      ensures Passed(b, i) >= |Flat(buckets)| ==> r.None?
    {
      b', i' := b, i + 1;
      FlatAt(buckets, b);
      while i' == |buckets[b']|
        invariant b' < |buckets| && 0 <= i' <= |buckets[b']| && Passed(b', i') == Passed(b, i) + 1
        decreases |buckets| - b'
      {
        FlatAt(buckets, b');
        if b' + 1 >= |buckets| {
          assert buckets[..b' + 1] == buckets;
          return b', i', None;
        }
        b', i' := b' + 1, 0;
      }
      FlatAt(buckets, b');
      r := Some(buckets[b'][i']);
    }

    /** The iteration idiom: every element comes once. */
    method Iterate() returns (visited: seq<T>)
      requires Valid()
      ensures visited == Flat(buckets) && Unique(less, visited) && forall x :: x in visited <==> x in Contents()
    {
      hide Keyed;
      assert |buckets| > 0 && Offset(buckets, 0) == 0;
      var b, i, x := Next(0, -1);
      visited := [];
      while x.Some?
        invariant |visited| <= |Flat(buckets)| && visited == Flat(buckets)[..|visited|]
        invariant x.Some? ==> |visited| < |Flat(buckets)| && x.value == Flat(buckets)[|visited|]
        invariant x.Some? ==> 0 <= b < |buckets| && -1 <= i < |buckets[b]| && Passed(b, i) == |visited| + 1
        invariant x.None? ==> |visited| == |Flat(buckets)|
        decreases |Flat(buckets)| - |visited|
      {
        visited := visited + [x.value];
        b, i, x := Next(b, i);
      }
      FlatUnique(hash, less, |buckets|, buckets);
    }
  }

  lemma {:induction false} UniqueSize<T(!new)>(less: (T, T) -> bool, s: seq<T>)
    requires Unique(less, s) && forall a :: !less(a, a)
    ensures |set x | x in s| == |s|
  {
    if s != [] {
      var n := |s| - 1;
      UniqueSize(less, s[..n]);
      assert s[n] !in s[..n];
      assert (set x | x in s) == (set x | x in s[..n]) + {s[n]};
    }
  }

  lemma FlatNone<T>(buckets: seq<seq<T>>)
    ensures Flat(buckets[..0]) == []
  {
  }

  lemma FlatNext<T>(buckets: seq<seq<T>>, i: nat)
    requires i < |buckets|
    ensures Flat(buckets[..i + 1]) == Flat(buckets[..i]) + buckets[i][..|buckets[i]|]
  {
    assert buckets[..i + 1][..i] == buckets[..i] && buckets[i][..|buckets[i]|] == buckets[i];
  }

  lemma NextDistributed<T>(hash: T -> nat, cnt: nat, before: seq<T>, bucket: seq<T>, j: nat)
    requires cnt > 0 && j < |bucket| && Slot(hash, cnt, bucket[j]) < cnt
    ensures Distribute(hash, cnt, before + bucket[..j + 1])
         == Pushed(Distribute(hash, cnt, before + bucket[..j]), Slot(hash, cnt, bucket[j]), bucket[j])
  {
    var s := before + bucket[..j + 1];
    assert s[..|s| - 1] == before + bucket[..j] && s[|s| - 1] == bucket[j];
  }

  /** At most one element of the table equals `e`. */
  lemma OnlyOne<T(!new)>(hash: T -> nat, less: (T, T) -> bool, buckets: seq<seq<T>>, x: T, y: T, e: T)
    requires Keyed(hash, less) && TableOk(hash, less, buckets) && x in Elements(buckets) && y in Elements(buckets)
    requires Same(less, x, e) && Same(less, y, e)
    ensures x == y
  {
    assert Same(less, e, y);
    OneEach(hash, less, buckets, x, y);
  }
}
