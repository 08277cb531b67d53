/** Doubly linked lists with a head and a tail sentinel, relinked in place. */
module LinkedList {
  import opened ListOrder

  /** `nodes` are chained both ways, in order. */
  ghost predicate Chained<T>(nodes: seq<Elem<T>>)
    reads nodes
  {
    && (forall i :: 0 <= i < |nodes| - 1 ==> nodes[i].next == nodes[i + 1])
    && (forall i :: 0 < i < |nodes| ==> nodes[i].prev == nodes[i - 1])
  }

  ghost predicate Distinct<T>(nodes: seq<Elem<T>>) {
    forall i, j :: 0 <= i < j < |nodes| ==> nodes[i] != nodes[j]
  }

  /** The block from `f` to `l` moved in front of position `b`. */
  ghost function Moved<X>(s: seq<X>, b: nat, f: nat, l: nat): (r: seq<X>)
    requires b <= f <= l <= |s|
    ensures |r| == |s|
  {
    s[..b] + s[f..l] + s[b..f] + s[l..]
  }

  /** Where the element at `i` of `Moved(s, b, f, l)` was in `s`. */
  ghost function Origin(i: nat, b: nat, f: nat, l: nat): int
    requires b <= f <= l
  {
    if i < b || i >= l then i else if i < b + (l - f) then i - b + f else i - (l - f)
  }

  lemma MovedIndex<X>(s: seq<X>, b: nat, f: nat, l: nat, i: nat)
    requires b <= f <= l <= |s| && i < |s|
    ensures 0 <= Origin(i, b, f, l) < |s| && Moved(s, b, f, l)[i] == s[Origin(i, b, f, l)]
  {
  }

  lemma MovedNothing<X>(s: seq<X>, b: nat, f: nat)
    requires b <= f <= |s|
    ensures Moved(s, b, f, f) == s
  {
  }

  lemma MovedNothingUp<X>(s: seq<X>, f: nat, b: nat)
    requires f <= b <= |s|
    ensures Moved(s, f, f, b) == s
  {
  }

  lemma SpliceSame<T>(s: seq<Elem<T>>, b: nat, l: nat)
    requires b < |s| && l < |s| && Distinct(s)
    ensures s[b] == s[l] <==> b == l
  {
  }

  lemma SpliceEnds<T>(s: seq<Elem<T>>, f: nat, l: nat)
    requires 0 < f <= l < |s| && Chained(s) && Distinct(s)
    ensures s[l].prev == s[l - 1] && (s[f] == s[l] <==> f == l)
  {
  }

  lemma MovedDistinct<T>(s: seq<Elem<T>>, b: nat, f: nat, l: nat)
    requires b <= f <= l <= |s| && Distinct(s)
    ensures Distinct(Moved(s, b, f, l))
  {
    var r := Moved(s, b, f, l);
    hide Moved;
    forall i, j | 0 <= i < j < |r| ensures r[i] != r[j] {
      MovedIndex(s, b, f, l, i);
      MovedIndex(s, b, f, l, j);
    }
  }

  /** Links as a splice leaves them, seen along the old order. */
  ghost predicate Crossed<T>(s: seq<Elem<T>>, b: nat, f: nat, l: nat)
    requires 0 < b < |s| && 0 < f < |s| && 0 < l < |s|
    reads s
  {
    && (forall x {:trigger s[x].next} :: 0 <= x < |s| - 1 ==>
          s[x].next == if x == f - 1 then s[l] else if x == l - 1 then s[b] else if x == b - 1 then s[f] else s[x + 1])
    && (forall x {:trigger s[x].prev} :: 0 < x < |s| ==>
          s[x].prev == if x == l then s[f - 1] else if x == f then s[b - 1] else if x == b then s[l - 1] else s[x - 1])
  }

  /** Moving a block down over its right neighbours is moving them up over it. */
  lemma CrossedAround<T>(s: seq<Elem<T>>, b: nat, f: nat, l: nat)
    requires 0 < f < l < b < |s| && Crossed(s, b, f, l)
    ensures Crossed(s, f, l, b)
  {
  }

  lemma MovedChained<T>(s: seq<Elem<T>>, b: nat, f: nat, l: nat)
    requires 0 < b < f < l < |s| && Crossed(s, b, f, l)
    ensures Chained(Moved(s, b, f, l))
  {
    hide Moved;
    var r := Moved(s, b, f, l);
    forall i | 0 <= i < |r| - 1 ensures r[i].next == r[i + 1] && r[i + 1].prev == r[i] {
      MovedIndex(s, b, f, l, i);
      MovedIndex(s, b, f, l, i + 1);
    }
  }

  lemma MovedEnds<T>(s: seq<Elem<T>>, b: nat, f: nat, l: nat)
    requires 0 < b < f < l < |s|
    ensures var r := Moved(s, b, f, l);
            |r| == |s| && r[0] == s[0] && r[|r| - 1] == s[|s| - 1]
  {
    MovedIndex(s, b, f, l, 0);
    MovedIndex(s, b, f, l, |s| - 1);
  }

  /** Links as a splice between lists leaves them, seen along the old orders. */
  ghost predicate Taken<T>(s: seq<Elem<T>>, o: seq<Elem<T>>, b: nat, f: nat, l: nat)
    requires 0 < b < |s| && 0 < f < l < |o|
    reads s, o
  {
    && (forall x {:trigger s[x].next} :: 0 <= x < |s| - 1 ==> s[x].next == if x == b - 1 then o[f] else s[x + 1])
    && (forall x {:trigger s[x].prev} :: 0 < x < |s| ==> s[x].prev == if x == b then o[l - 1] else s[x - 1])
    && (forall x {:trigger o[x].next} :: 0 <= x < |o| - 1 ==>
          o[x].next == if x == f - 1 then o[l] else if x == l - 1 then s[b] else o[x + 1])
    && (forall x {:trigger o[x].prev} :: 0 < x < |o| ==>
          o[x].prev == if x == l then o[f - 1] else if x == f then s[b - 1] else o[x - 1])
  }

  ghost predicate Apart<T>(s: seq<Elem<T>>, o: seq<Elem<T>>) {
    forall i, j :: 0 <= i < |s| && 0 <= j < |o| ==> s[i] != o[j]
  }

  /** `s` with the block from `f` to `l` of `o` in front of position `b`. */
  ghost function Joined<X>(s: seq<X>, o: seq<X>, b: nat, f: nat, l: nat): (r: seq<X>)
    requires b <= |s| && f <= l <= |o|
    ensures |r| == |s| + (l - f)
  {
    s[..b] + o[f..l] + s[b..]
  }

  ghost function Without<X>(o: seq<X>, f: nat, l: nat): (r: seq<X>)
    requires f <= l <= |o|
    ensures |r| == |o| - (l - f)
  {
    o[..f] + o[l..]
  }

  lemma JoinedIndex<X>(s: seq<X>, o: seq<X>, b: nat, f: nat, l: nat, i: nat)
    requires b <= |s| && f <= l <= |o| && i < |s| + (l - f)
    ensures i < b ==> Joined(s, o, b, f, l)[i] == s[i]
    ensures b <= i < b + (l - f) ==> Joined(s, o, b, f, l)[i] == o[i - b + f]
    ensures i >= b + (l - f) ==> Joined(s, o, b, f, l)[i] == s[i - (l - f)]
  {
  }

  lemma WithoutIndex<X>(o: seq<X>, f: nat, l: nat, i: nat)
    requires f <= l <= |o| && i < |o| - (l - f)
    ensures Without(o, f, l)[i] == o[if i < f then i else i + (l - f)]
  {
  }

  lemma JoinedNothing<X>(s: seq<X>, o: seq<X>, b: nat, f: nat)
    requires b <= |s| && f <= |o|
    ensures Joined(s, o, b, f, f) == s && Without(o, f, f) == o
  {
  }

  lemma JoinedChained<T>(s: seq<Elem<T>>, o: seq<Elem<T>>, b: nat, f: nat, l: nat)
    requires 0 < b < |s| && 0 < f < l < |o| && Taken(s, o, b, f, l)
    ensures Chained(Joined(s, o, b, f, l))
  {
    hide Joined;
    var r := Joined(s, o, b, f, l);
    forall i | 0 <= i < |r| - 1 ensures r[i].next == r[i + 1] && r[i + 1].prev == r[i] {
      JoinedIndex(s, o, b, f, l, i);
      JoinedIndex(s, o, b, f, l, i + 1);
    }
  }

  lemma WithoutChained<T>(s: seq<Elem<T>>, o: seq<Elem<T>>, b: nat, f: nat, l: nat)
    requires 0 < b < |s| && 0 < f < l < |o| && Taken(s, o, b, f, l)
    ensures Chained(Without(o, f, l))
  {
    hide Without;
    var q := Without(o, f, l);
    forall i | 0 <= i < |q| - 1 ensures q[i].next == q[i + 1] && q[i + 1].prev == q[i] {
      WithoutIndex(o, f, l, i);
      WithoutIndex(o, f, l, i + 1);
    }
  }

  lemma TakenDistinct<T>(s: seq<Elem<T>>, o: seq<Elem<T>>, b: nat, f: nat, l: nat)
    requires b <= |s| && f <= l <= |o| && Distinct(s) && Distinct(o) && Apart(s, o)
    ensures Distinct(Joined(s, o, b, f, l)) && Distinct(Without(o, f, l))
  {
    hide Joined, Without;
    var r, q := Joined(s, o, b, f, l), Without(o, f, l);
    forall i, j | 0 <= i < j < |r| ensures r[i] != r[j] {
      JoinedIndex(s, o, b, f, l, i);
      JoinedIndex(s, o, b, f, l, j);
    }
    forall i, j | 0 <= i < j < |q| ensures q[i] != q[j] {
      WithoutIndex(o, f, l, i);
      WithoutIndex(o, f, l, j);
    }
  }

  lemma TakenEnds<T>(s: seq<Elem<T>>, o: seq<Elem<T>>, b: nat, f: nat, l: nat)
    requires 0 < b < |s| && 0 < f < l < |o|
    ensures var r, q := Joined(s, o, b, f, l), Without(o, f, l);
            r[0] == s[0] && r[|r| - 1] == s[|s| - 1] && q[0] == o[0] && q[|q| - 1] == o[|o| - 1]
  {
  }

  lemma MovedValid<T>(s: seq<Elem<T>>, b: nat, f: nat, l: nat)
    requires 0 < b < f < l < |s| && Crossed(s, b, f, l) && Distinct(s)
    ensures var r := Moved(s, b, f, l);
            |r| == |s| && r[0] == s[0] && r[|r| - 1] == s[|s| - 1] && Chained(r) && Distinct(r)
  {
    hide Chained, Crossed, Distinct, Moved;
    MovedChained(s, b, f, l);
    MovedDistinct(s, b, f, l);
    MovedEnds(s, b, f, l);
  }

  lemma InsertedDistinct<T>(s: seq<Elem<T>>, e: Elem<T>, k: nat)
    requires Distinct(s) && k <= |s| && e !in s
    ensures Distinct(s[..k] + [e] + s[k..])
  {
    var r := s[..k] + [e] + s[k..];
    forall i, j | 0 <= i < j < |r| ensures r[i] != r[j] {
      assert i != k ==> r[i] == s[if i < k then i else i - 1];
      assert j != k ==> r[j] == s[if j < k then j else j - 1];
    }
  }

  /** Links as an insertion leaves them, seen along the old order. */
  ghost predicate Parted<T>(s: seq<Elem<T>>, e: Elem<T>, k: nat)
    requires 0 < k < |s|
    reads s, e
  {
    && (forall i :: 0 <= i < |s| - 1 ==> s[i].next == if i == k - 1 then e else s[i + 1])
    && (forall i :: 0 < i < |s| ==> s[i].prev == if i == k then e else s[i - 1])
    && e.prev == s[k - 1] && e.next == s[k]
  }

  lemma InsertedChained<T>(s: seq<Elem<T>>, e: Elem<T>, k: nat)
    requires 0 < k < |s| && Parted(s, e, k)
    ensures Chained(s[..k] + [e] + s[k..])
  {
    var r := s[..k] + [e] + s[k..];
    forall i | 0 <= i < |r| - 1 ensures r[i].next == r[i + 1] && r[i + 1].prev == r[i] {
      assert r[i] == if i < k then s[i] else if i == k then e else s[i - 1];
      assert r[i + 1] == if i + 1 < k then s[i + 1] else if i + 1 == k then e else s[i];
    }
  }

  class List<T> {
    const head: Elem<T>
    const tail: Elem<T>
    /** All elements in order, the sentinels first and last. */
    ghost var nodes: seq<Elem<T>>

    ghost predicate Valid()
      reads this, nodes
    {
      && |nodes| >= 2 && nodes[0] == head && nodes[|nodes| - 1] == tail
      && nodes[0].prev == null && nodes[|nodes| - 1].next == null
      && Chained(nodes) && Distinct(nodes)
    }

    ghost function Items(): seq<Elem<T>>
      reads this
      requires |nodes| >= 2
    {
      nodes[1..|nodes| - 1]
    }

    constructor (filler: T)
      ensures Valid() && fresh(nodes) && Items() == []
    {
      head := new Elem(filler);
      tail := new Elem(filler);
      new;
      head.prev, head.next := null, tail;
      tail.prev, tail.next := head, null;
      nodes := [head, tail];
    }

    /** The four pointer writes of an insertion. */
    method LinkIn(before: Elem<T>, elem: Elem<T>, ghost k: nat)
      requires Valid() && 0 < k < |nodes| && nodes[k] == before && elem !in nodes
      modifies nodes, elem
      ensures Parted(nodes, elem, k)
      ensures nodes[0].prev == null && nodes[|nodes| - 1].next == null
    {
      assert nodes[k].prev == nodes[k - 1] && nodes[k - 1].next == nodes[k];
      elem.prev := before.prev;
      elem.next := before;
      before.prev.next := elem;
      before.prev := elem;
    }

    method Insert(before: Elem<T>, elem: Elem<T>, ghost k: nat)
      requires Valid() && 0 < k < |nodes| && nodes[k] == before && elem !in nodes
      modifies this, nodes, elem
      ensures Valid() && nodes == old(nodes[..k]) + [elem] + old(nodes[k..])
    {
      hide Chained, Distinct, Parted;
      LinkIn(before, elem, k);
      InsertedChained(nodes, elem, k);
      InsertedDistinct(nodes, elem, k);
      ghost var r := nodes[..k] + [elem] + nodes[k..];
      assert r[0] == nodes[0] && r[|r| - 1] == nodes[|nodes| - 1];
      nodes := r;
    }

    method Remove(elem: Elem<T>, ghost k: nat) returns (next: Elem<T>)
      requires Valid() && 0 < k < |nodes| - 1 && nodes[k] == elem
      modifies this, nodes
      ensures Valid() && nodes == old(nodes[..k]) + old(nodes[k + 1..])
      ensures next == nodes[k] && elem.next == next
    {
      assert nodes[k].prev == nodes[k - 1] && nodes[k].next == nodes[k + 1];
      elem.prev.next := elem.next;
      elem.next.prev := elem.prev;
      next := elem.next;
      nodes := nodes[..k] + nodes[k + 1..];
    }

    /** The six pointer writes of a splice, for a block before or after the place it goes to. */
    method Relink(before: Elem<T>, first: Elem<T>, end: Elem<T>, ghost b: nat, ghost f: nat, ghost l: nat)
      requires Valid() && (0 < b < f < l < |nodes| || 0 < f < l < b < |nodes|)
      requires nodes[b] == before && nodes[f] == first && nodes[l - 1] == end
      modifies nodes
      ensures Crossed(nodes, b, f, l)
      ensures nodes[0].prev == null && nodes[|nodes| - 1].next == null
    {
      assert nodes[f].prev == nodes[f - 1] && nodes[b].prev == nodes[b - 1] && nodes[l - 1].next == nodes[l];
      first.prev.next := end.next;
      end.next.prev := first.prev;
      first.prev := before.prev;
      end.next := before;
      before.prev.next := first;
      before.prev := end;
    }

    /** The same writes where the block is already in front of `before`: nothing changes. */
    method RelinkInPlace(before: Elem<T>, first: Elem<T>, end: Elem<T>, ghost f: nat, ghost l: nat)
      requires Valid() && 0 < f < l < |nodes| && nodes[l] == before && nodes[f] == first && nodes[l - 1] == end
      modifies nodes
      ensures Valid()
    {
      assert nodes[f].prev == nodes[f - 1] && nodes[l - 1].next == nodes[l];
      first.prev.next := end.next;
      end.next.prev := first.prev;
      first.prev := before.prev;
      end.next := before;
      before.prev.next := first;
      before.prev := end;
    }

    /** Moves first up to last (exclusive) in front of an element of the same list outside the block. */
    method Splice(before: Elem<T>, first: Elem<T>, last: Elem<T>, ghost b: nat, ghost f: nat, ghost l: nat)
      requires Valid() && 0 < f <= l < |nodes| && 0 < b < |nodes| && (b < f || l <= b)
      requires nodes[b] == before && nodes[f] == first && nodes[l] == last
      modifies this, nodes
      ensures Valid() && nodes == if b < f then Moved(old(nodes), b, f, l) else Moved(old(nodes), f, l, b)
    {
      hide Chained, Crossed, Distinct, Moved;
      SpliceEnds(nodes, f, l);
      if first == last {
        if b < f { MovedNothing(nodes, b, f); } else { MovedNothingUp(nodes, f, b); }
        return;
      }
      if before == last {
        SpliceSame(nodes, b, l);
        MovedNothing(nodes, f, l);
        RelinkInPlace(before, first, last.prev, f, l);
        return;
      }
      SpliceSame(nodes, b, l);
      Relink(before, first, last.prev, b, f, l);
      if b < f {
        MovedValid(nodes, b, f, l);
        nodes := Moved(nodes, b, f, l);
      } else {
        CrossedAround(nodes, b, f, l);
        MovedValid(nodes, f, l, b);
        nodes := Moved(nodes, f, l, b);
      }
    }

    /** The same six writes, for a block of another list. */
    method RelinkFrom(other: List<T>, before: Elem<T>, first: Elem<T>, end: Elem<T>,
                      ghost b: nat, ghost f: nat, ghost l: nat)
      requires Valid() && other.Valid() && Apart(nodes, other.nodes)
      requires 0 < b < |nodes| && 0 < f < l < |other.nodes|
      requires nodes[b] == before && other.nodes[f] == first && other.nodes[l - 1] == end
      modifies nodes, other.nodes
      ensures Taken(nodes, other.nodes, b, f, l)
      ensures nodes[0].prev == null && nodes[|nodes| - 1].next == null
      ensures other.nodes[0].prev == null && other.nodes[|other.nodes| - 1].next == null
    {
      assert other.nodes[f].prev == other.nodes[f - 1] && other.nodes[l - 1].next == other.nodes[l];
      assert nodes[b].prev == nodes[b - 1];
      first.prev.next := end.next;
      end.next.prev := first.prev;
      first.prev := before.prev;
      end.next := before;
      before.prev.next := first;
      before.prev := end;
    }

    /** Moves first up to last (exclusive) of another list in front of an element of this one. */
    method SpliceFrom(other: List<T>, before: Elem<T>, first: Elem<T>, last: Elem<T>,
                      ghost b: nat, ghost f: nat, ghost l: nat)
      requires Valid() && other.Valid() && this != other && Apart(nodes, other.nodes)
      requires 0 < b < |nodes| && 0 < f <= l < |other.nodes|
      requires nodes[b] == before && other.nodes[f] == first && other.nodes[l] == last
      modifies this, other, nodes, other.nodes
      ensures Valid() && other.Valid()
      ensures nodes == Joined(old(nodes), old(other.nodes), b, f, l)
      ensures other.nodes == Without(old(other.nodes), f, l)
    {
      hide Chained, Taken, Distinct, Apart, Joined, Without;
      SpliceEnds(other.nodes, f, l);
      if first == last {
        JoinedNothing(nodes, other.nodes, b, f);
        return;
      }
      RelinkFrom(other, before, first, last.prev, b, f, l);
      ghost var s, o := nodes, other.nodes;
      JoinedChained(s, o, b, f, l);
      WithoutChained(s, o, b, f, l);
      TakenDistinct(s, o, b, f, l);
      TakenEnds(s, o, b, f, l);
      nodes, other.nodes := Joined(s, o, b, f, l), Without(o, f, l);
    }
  }
}
