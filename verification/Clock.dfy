/** The clock hand of page eviction, over the accessed bits of the frames. */
module Clock {

  /** Where the hand points after `d` advances. */
  function Pos(hand: nat, d: nat, n: nat): (r: nat)
    requires hand < n && d <= n + 1
    ensures r < n
  {
    if hand + d < n then hand + d
    else if hand + d < 2 * n then hand + d - n
    else hand + d - 2 * n
  }

  /** After how many advances the hand first points at `i`. */
  function Dist(hand: nat, i: nat, n: nat): (d: nat)
    requires hand < n && i < n
    ensures 1 <= d <= n && Pos(hand, d, n) == i
    ensures forall e :: 1 <= e <= n && Pos(hand, e, n) == i ==> e == d
  {
    if i > hand then i - hand else i - hand + n
  }

  /** The bits after `m` advances, each clearing the bit it meets. */
  function Cleared(bits: seq<bool>, hand: nat, m: nat): (r: seq<bool>)
    requires hand < |bits| && m <= |bits| + 1
    ensures |r| == |bits|
  {
    if m == 0 then bits
    else Cleared(bits, hand, m - 1)[Pos(hand, m, |bits|) := false]
  }

  /** A sweep clears the bits of the frames it visited and no others. */
  lemma {:induction false} ClearedBit(bits: seq<bool>, hand: nat, m: nat, i: nat)
    requires hand < |bits| && m <= |bits| + 1 && i < |bits|
    ensures Cleared(bits, hand, m)[i] == (bits[i] && m < Dist(hand, i, |bits|))
  {
    if m > 0 {
      ClearedBit(bits, hand, m - 1, i);
    }
  }

  /** The first advance, from `d` on, that meets a clear bit; one turn and a step if none does. */
  function FirstClear(bits: seq<bool>, hand: nat, d: nat): (r: nat)
    requires hand < |bits| && 1 <= d <= |bits| + 1
    ensures d <= r <= |bits| + 1
    ensures r <= |bits| ==> !bits[Pos(hand, r, |bits|)]
    ensures forall e :: d <= e < r ==> bits[Pos(hand, e, |bits|)]
    decreases |bits| + 1 - d
  {
    if d == |bits| + 1 || !bits[Pos(hand, d, |bits|)] then d
    else FirstClear(bits, hand, d + 1)
  }

  /** The sweep's loop test: after `m` set bits, the bit met next stops the sweep exactly when
      the next advance is the first clear one. */
  lemma SweepStops(bits: seq<bool>, hand: nat, m: nat)
    requires hand < |bits| && m <= |bits|
    requires forall e :: 1 <= e <= m ==> bits[Pos(hand, e, |bits|)]
    ensures Cleared(bits, hand, m)[Pos(hand, m + 1, |bits|)] <==> FirstClear(bits, hand, 1) != m + 1
    ensures Cleared(bits, hand, m)[Pos(hand, m + 1, |bits|)] ==>
              m < |bits| && bits[Pos(hand, m + 1, |bits|)]
  {
    var i := Pos(hand, m + 1, |bits|);
    ClearedBit(bits, hand, m, i);
    assert m < |bits| ==> Dist(hand, i, |bits|) == m + 1;
  }
}
