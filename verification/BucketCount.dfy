/** Powers of two by bit tricks, as the hash table picks its bucket count. */
module BucketCount {
  import opened Prelude

  /** x & y. */
  function And(x: nat, y: nat): (r: nat)
    ensures r <= x && r <= y
    decreases x
  {
    if x == 0 || y == 0 then 0
    else 2 * And(x / 2, y / 2) + if x % 2 == 1 && y % 2 == 1 then 1 else 0
  }

  ghost predicate IsPow2(x: nat) {
    exists k: nat :: x == Pow2(k)
  }

  lemma {:induction false} AndSelf(x: nat)
    ensures And(x, x) == x
  {
    if x > 0 { AndSelf(x / 2); }
  }

  /** turn_off_least_1bit. */
  function TurnOff(x: nat): nat
    requires x > 0
  {
    And(x, x - 1)
  }

  /** Halving: the lowest bit of an odd number goes, an even number's is found above. */
  lemma TurnOffStep(x: nat)
    requires x > 0
    ensures TurnOff(x) == if x % 2 == 1 then x - 1 else 2 * TurnOff(x / 2)
  {
    if x % 2 == 1 {
      AndSelf(x / 2);
      assert (x - 1) / 2 == x / 2;
    } else {
      assert (x - 1) / 2 == x / 2 - 1;
      if x == 2 { assert And(1, 0) == 0; }
    }
  }

  lemma Pow2Even(k: nat)
    ensures Pow2(k) % 2 == 1 <==> k == 0
  {
  }

  /** is_power_of_2. */
  lemma {:induction false} TurnOffZero(x: nat)
    requires x > 0
    ensures TurnOff(x) == 0 <==> IsPow2(x)
  {
    TurnOffStep(x);
    if x % 2 == 1 {
      if x == 1 { assert x == Pow2(0); }
      forall k: nat | x == Pow2(k) ensures x == 1 {
        Pow2Even(k);
      }
    } else {
      TurnOffZero(x / 2);
      if IsPow2(x / 2) {
        var k: nat :| x / 2 == Pow2(k);
        assert x == Pow2(k + 1);
      }
      if IsPow2(x) {
        var k: nat :| x == Pow2(k);
        Pow2Even(k);
        assert x / 2 == Pow2(k - 1);
      }
    }
  }

  /** Turning the lowest bit off never reaches below the power of two beneath. */
  lemma {:induction false} TurnOffKeeps(x: nat, k: nat)
    requires Pow2(k) < x < 2 * Pow2(k)
    ensures Pow2(k) <= TurnOff(x) < x
  {
    TurnOffStep(x);
    if x % 2 == 0 {
      assert k > 0;
      TurnOffKeeps(x / 2, k - 1);
    }
  }

  /** Masking with one less than a power of two is the remainder. */
  lemma {:induction false} MaskIsMod(x: nat, k: nat)
    ensures And(x, Pow2(k) - 1) == x % Pow2(k)
    decreases k
  {
    if k > 0 {
      MaskIsMod(x / 2, k - 1);
      MaskStep(x, Pow2(k - 1));
    }
  }

  lemma MaskStep(x: nat, p: nat)
    requires p > 0 && And(x / 2, p - 1) == x / 2 % p
    ensures And(x, 2 * p - 1) == x % (2 * p)
  {
    assert (2 * p - 1) / 2 == p - 1 && (2 * p - 1) % 2 == 1;
    HalfMod(x, p);
  }

  lemma HalfMod(x: nat, p: nat)
    requires p > 0
    ensures x % (2 * p) == 2 * (x / 2 % p) + x % 2
  {
    var q, r := x / 2 / p, x / 2 % p;
    assert x / 2 == q * p + r;
    assert x == 2 * (x / 2) + x % 2;
    assert 2 * (q * p) == q * (2 * p);
    ModIs(x, 2 * p, q, 2 * r + x % 2);
  }

  lemma ModIs(x: nat, d: nat, q: nat, r: nat)
    requires d > 0 && x == q * d + r && r < d
    ensures x % d == r
  {
    var k := x / d;
    assert x == k * d + x % d;
    assert k < q ==> (k + 1) * d <= q * d;
    assert q < k ==> (q + 1) * d <= k * d;
  }

  lemma {:induction false} PowerBelow(x: nat) returns (k: nat)
    requires x > 0
    ensures Pow2(k) <= x < 2 * Pow2(k)
  {
    if x == 1 {
      k := 0;
    } else {
      k := PowerBelow(x / 2);
      k := k + 1;
    }
  }

  /** The number of buckets for `elems` elements: the largest power of two up to half of them, at least four. */
  method NewBucketCnt(elems: nat) returns (cnt: nat)
    ensures IsPow2(cnt) && cnt >= 4 && elems < 4 * cnt && (cnt == 4 || 2 * cnt <= elems)
  {
    cnt := elems / 2;
    if cnt < 4 {
      cnt := 4;
    }
    ghost var top := cnt;
    ghost var k := PowerBelow(cnt);
    Four(top, k);
    TurnOffZero(cnt);
    while TurnOff(cnt) != 0
      invariant Pow2(k) <= cnt <= top && (TurnOff(cnt) == 0 <==> IsPow2(cnt))
      decreases cnt
    {
      assert cnt != Pow2(k);
      TurnOffKeeps(cnt, k);
      cnt := TurnOff(cnt);
      TurnOffZero(cnt);
    }
    PowersApart(cnt, k);
  }

  lemma Four(x: nat, k: nat)
    requires x >= 4 && Pow2(k) <= x < 2 * Pow2(k)
    ensures Pow2(k) >= 4
  {
    assert Pow2(0) == 1 && Pow2(1) == 2;
  }

  /** A power of two from Pow2(k) up to below twice that is Pow2(k). */
  lemma PowersApart(x: nat, k: nat)
    requires IsPow2(x) && Pow2(k) <= x < 2 * Pow2(k)
    ensures x == Pow2(k)
  {
    var j: nat :| x == Pow2(j);
    if j < k { Pow2Mono(j, k); } else if j > k { Pow2Mono(k, j); }
  }

  lemma {:induction false} Pow2Mono(j: nat, k: nat)
    requires j < k
    ensures 2 * Pow2(j) <= Pow2(k)
  {
    if j < k - 1 { Pow2Mono(j, k - 1); }
  }
}
