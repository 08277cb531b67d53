/** Order, runs and stability of sequences of list elements. */
module ListOrder {

  /** A list element; its key is the part of the enclosing structure that comparisons look at. */
  class Elem<T> {
    const key: T
    var prev: Elem?<T>
    var next: Elem?<T>

    constructor (key: T)
      ensures this.key == key
    {
      this.key := key;
      prev, next := null, null;
    }
  }

  ghost predicate StrictWeakOrder<T(!new)>(less: (T, T) -> bool) {
    && (forall a :: !less(a, a))
    && (forall a, b, c :: less(a, b) && less(b, c) ==> less(a, c))
    && (forall a, b, c :: less(a, c) ==> less(a, b) || less(b, c))
  }

  /** Neither comes before the other. */
  predicate Equivalent<T>(less: (T, T) -> bool, a: T, b: T) {
    !less(a, b) && !less(b, a)
  }

  ghost predicate Sorted<T>(less: (T, T) -> bool, s: seq<Elem<T>>) {
    forall i, j :: 0 <= i < j < |s| ==> !less(s[j].key, s[i].key)
  }

  /** The elements of `s` equivalent to `x`, in order. */
  ghost function Class<T>(less: (T, T) -> bool, x: T, s: seq<Elem<T>>): seq<Elem<T>> {
    if s == [] then []
    else (if Equivalent(less, s[0].key, x) then [s[0]] else []) + Class(less, x, s[1..])
  }

  /** `b` rearranges `a` without reordering equivalent elements. */
  ghost predicate StableImage<T(!new)>(less: (T, T) -> bool, a: seq<Elem<T>>, b: seq<Elem<T>>) {
    forall x :: Class(less, x, a) == Class(less, x, b)
  }

  lemma StableTransitive<T(!new)>(less: (T, T) -> bool, a: seq<Elem<T>>, b: seq<Elem<T>>, c: seq<Elem<T>>)
    requires StableImage(less, a, b) && StableImage(less, b, c)
    ensures StableImage(less, a, c)
  {
    forall x ensures Class(less, x, a) == Class(less, x, c) {
      assert Class(less, x, a) == Class(less, x, b);
    }
  }

  lemma {:induction false} ClassConcat<T>(less: (T, T) -> bool, x: T, a: seq<Elem<T>>, b: seq<Elem<T>>)
    ensures Class(less, x, a + b) == Class(less, x, a) + Class(less, x, b)
  {
    if a == [] {
      assert a + b == b;
    } else {
      ClassConcat(less, x, a[1..], b);
      var c := a + b;
      var h := if Equivalent(less, a[0].key, x) then [a[0]] else [];
      assert c[0] == a[0] && c[1..] == a[1..] + b;
      assert Class(less, x, c) == h + Class(less, x, c[1..]);
      assert h + (Class(less, x, a[1..]) + Class(less, x, b)) == (h + Class(less, x, a[1..])) + Class(less, x, b);
    }
  }

  lemma {:induction false} ClassEmpty<T>(less: (T, T) -> bool, x: T, a: seq<Elem<T>>)
    requires forall i :: 0 <= i < |a| ==> !Equivalent(less, a[i].key, x)
    ensures Class(less, x, a) == []
  {
    if a != [] {
      ClassEmpty(less, x, a[1..]);
    }
  }

  lemma MoveClass<T(!new)>(less: (T, T) -> bool, pre: seq<Elem<T>>, block: seq<Elem<T>>, e: Elem<T>,
                           post: seq<Elem<T>>, x: T)
    requires StrictWeakOrder(less)
    requires forall i :: 0 <= i < |block| ==> less(e.key, block[i].key)
    ensures Class(less, x, pre + block + [e] + post) == Class(less, x, pre + [e] + block + post)
  {
    if Equivalent(less, e.key, x) {
      ClassEmpty(less, x, block);
    } else {
      ClassEmpty(less, x, [e]);
    }
    hide Class, StrictWeakOrder, Equivalent;
    ClassConcat(less, x, pre + block + [e], post);
    ClassConcat(less, x, pre + block, [e]);
    ClassConcat(less, x, pre, block);
    ClassConcat(less, x, pre + [e] + block, post);
    ClassConcat(less, x, pre + [e], block);
    ClassConcat(less, x, pre, [e]);
    EmptyCommutes(Class(less, x, pre), Class(less, x, block), Class(less, x, [e]), Class(less, x, post));
  }

  lemma EmptyCommutes<X>(a: seq<X>, b: seq<X>, c: seq<X>, d: seq<X>)
    requires b == [] || c == []
    ensures a + b + c + d == a + c + b + d
  {
  }

  /** Moving an element in front of a block of strictly larger ones is stable. */
  lemma MoveIsStable<T(!new)>(less: (T, T) -> bool, pre: seq<Elem<T>>, block: seq<Elem<T>>, e: Elem<T>,
                              post: seq<Elem<T>>)
    requires StrictWeakOrder(less)
    requires forall i :: 0 <= i < |block| ==> less(e.key, block[i].key)
    ensures StableImage(less, pre + block + [e] + post, pre + [e] + block + post)
  {
    var a, b := pre + block + [e] + post, pre + [e] + block + post;
    forall x ensures Class(less, x, a) == Class(less, x, b) {
      MoveClass(less, pre, block, e, post, x);
    }
  }

  lemma {:induction false} ClassCount<T(!new)>(less: (T, T) -> bool, s: seq<Elem<T>>, e: Elem<T>)
    requires StrictWeakOrder(less)
    ensures multiset(Class(less, e.key, s))[e] == multiset(s)[e]
  {
    if s != [] {
      ClassCount(less, s[1..], e);
      assert s == [s[0]] + s[1..];
      assert multiset(s) == multiset{s[0]} + multiset(s[1..]);
    }
  }

  /** A stable image is a permutation. */
  lemma StableIsPermutation<T(!new)>(less: (T, T) -> bool, a: seq<Elem<T>>, b: seq<Elem<T>>)
    requires StrictWeakOrder(less) && StableImage(less, a, b)
    ensures multiset(a) == multiset(b)
  {
    forall e | e in multiset(a) || e in multiset(b) ensures multiset(a)[e] == multiset(b)[e] {
      ClassCount(less, a, e);
      ClassCount(less, b, e);
    }
  }

  /** Number of places where an element comes before its predecessor in the order. */
  ghost function Descents<T>(less: (T, T) -> bool, s: seq<Elem<T>>): nat {
    if |s| < 2 then 0
    else Descents(less, s[..|s| - 1]) + if less(s[|s| - 1].key, s[|s| - 2].key) then 1 else 0
  }

  /** Number of natural runs. */
  ghost function Runs<T>(less: (T, T) -> bool, s: seq<Elem<T>>): nat {
    if s == [] then 0 else 1 + Descents(less, s)
  }

  ghost predicate DescentBetween<T>(less: (T, T) -> bool, a: seq<Elem<T>>, b: seq<Elem<T>>) {
    a != [] && b != [] && less(b[0].key, a[|a| - 1].key)
  }

  lemma {:induction false} DescentsConcat<T>(less: (T, T) -> bool, a: seq<Elem<T>>, b: seq<Elem<T>>)
    ensures Descents(less, a + b) ==
            Descents(less, a) + Descents(less, b) + if DescentBetween(less, a, b) then 1 else 0
  {
    var s := a + b;
    if b == [] {
      assert s == a;
    } else {
      var b' := b[..|b| - 1];
      assert s[..|s| - 1] == a + b';
      DescentsConcat(less, a, b');
    }
  }

  lemma {:induction false} SortedDescents<T(!new)>(less: (T, T) -> bool, s: seq<Elem<T>>)
    requires StrictWeakOrder(less)
    ensures Sorted(less, s) <==> Descents(less, s) == 0
  {
    if |s| >= 2 {
      var m := |s| - 1;
      SortedDescents(less, s[..m]);
      if Descents(less, s) == 0 {
        forall i, j | 0 <= i < j < |s| ensures !less(s[j].key, s[i].key) {
          if j < m {
            assert s[..m][i] == s[i] && s[..m][j] == s[j];
          } else if i < m - 1 {
            assert s[..m][i] == s[i] && s[..m][m - 1] == s[m - 1];
            assert !less(s[m].key, s[m - 1].key) && !less(s[m - 1].key, s[i].key);
          }
        }
      }
    }
  }
}
