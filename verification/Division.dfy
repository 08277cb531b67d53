/** 64-bit division out of the processor's 64-by-32-bit divide. */
module Division {
  import opened Prelude

  const B := WORD
  const W := 0x1_0000_0000_0000_0000
  const INT64_MIN := -0x8000_0000_0000_0000

  /** The divl instruction, which traps unless the quotient fits in 32 bits. */
  function Divl(n: nat, d: nat): nat
    requires n < W && 0 < d < B && n / d < B
  {
    n / d
  }

  lemma {:induction false} Pow2Add(a: nat, b: nat)
    ensures Pow2(a + b) == Pow2(a) * Pow2(b)
  {
    if a > 0 {
      Pow2Add(a - 1, b);
      assert Pow2(a) * Pow2(b) == 2 * (Pow2(a - 1) * Pow2(b));
    }
  }

  lemma Pow2s()
    ensures Pow2(1) == 2 && Pow2(2) == 4 && Pow2(4) == 16 && Pow2(8) == 256 && Pow2(16) == 65536
    ensures Pow2(0) == 1 && Pow2(31) == 0x8000_0000 && Pow2(32) == B
  {
    assert Pow2(1) == 2 && Pow2(2) == 4;
    Pow2Add(2, 2);
    Pow2Add(4, 4);
    Pow2Add(8, 8);
    Pow2Add(16, 16);
  }

  /** Shift left in 32 bits. */
  function Shl32(x: nat, k: nat): nat { x * Pow2(k) % B }

  lemma Shift(x: nat, n: nat, y: nat, k: nat, p: nat)
    requires y == x * Pow2(n) && Pow2(k) == p && y * p < B
    ensures Shl32(y, k) == y * p == x * Pow2(n + k)
  {
    Pow2Add(n, k);
    Assoc(x, Pow2(n), p);
  }

  /** The number of leading zero bits of a nonzero 32-bit number. */
  method Nlz(x: nat) returns (n: nat)
    requires 0 < x < B
    ensures n < 32 && Pow2(31) <= x * Pow2(n) < Pow2(32)
  {
    hide Pow2, Shl32;
    Pow2s();
    var y := x;
    n := 0;
    if y <= 0x0000FFFF {
      Shift(x, n, y, 16, 0x1_0000);
      n, y := n + 16, Shl32(y, 16);
    }
    assert 0x1_0000 <= y < B && y == x * Pow2(n) && n <= 16;
    if y <= 0x00FFFFFF {
      Shift(x, n, y, 8, 0x100);
      n, y := n + 8, Shl32(y, 8);
    }
    assert 0x100_0000 <= y < B && y == x * Pow2(n) && n <= 24;
    if y <= 0x0FFFFFFF {
      Shift(x, n, y, 4, 0x10);
      n, y := n + 4, Shl32(y, 4);
    }
    assert 0x1000_0000 <= y < B && y == x * Pow2(n) && n <= 28;
    if y <= 0x3FFFFFFF {
      Shift(x, n, y, 2, 4);
      n, y := n + 2, Shl32(y, 2);
    }
    assert 0x4000_0000 <= y < B && y == x * Pow2(n) && n <= 30;
    if y <= 0x7FFFFFFF {
      Shift(x, n, y, 1, 2);
      n := n + 1;
    }
  }

  lemma Assoc(a: int, b: int, c: int)
    ensures a * b * c == a * (b * c)
  {
  }

  // ---------- a one-word divisor ----------

  lemma MulLess(a: int, b: int, d: int)
    requires d > 0
    ensures a * d < b * d <==> a < b
  {
  }

  /** q is the quotient when q d is at most n and the next multiple is not. */
  lemma QuotientIs(n: nat, d: nat, q: nat)
    requires d > 0 && q * d <= n < q * d + d
    ensures n / d == q && n % d == n - q * d
  {
    var k := n / d;
    assert n == k * d + n % d;
    MulLess(k, q + 1, d);
    MulLess(q, k + 1, d);
  }

  lemma ShortDivision(n1: nat, n0: nat, d: nat)
    requires 0 < d < B && n1 < B && n0 < B
    ensures var t := B * (n1 % d) + n0;
            t < W && t / d < B && t / d + B * (n1 / d) == (B * n1 + n0) / d
  {
    var a, r := n1 / d, n1 % d;
    var t := B * r + n0;
    DivIs(n1, d);
    DivIs(t, d);
    ShortParts(n1, n0, d, a, r, t / d, t % d);
    QuotientIs(B * n1 + n0, d, t / d + B * a);
  }

  lemma ShortParts(n1: nat, n0: nat, d: nat, a: nat, r: nat, q: nat, m: nat)
    requires r < d < B && n0 < B && m < d && n1 == a * d + r && B * r + n0 == q * d + m
    ensures B * r + n0 < W && q < B && B * n1 + n0 == (q + B * a) * d + m
  {
    assert B * r + n0 < B * d;
    MulLess(q, B, d);
    Gather(n1, n0, d, a, r, q, m);
  }

  lemma DivIs(n: nat, d: nat)
    requires d > 0
    ensures n == n / d * d + n % d && n % d < d
  {
  }

  lemma Gather(n1: nat, n0: nat, d: nat, a: nat, r: nat, q: nat, m: nat)
    requires n1 == a * d + r && B * r + n0 == q * d + m
    ensures B * n1 + n0 == (q + B * a) * d + m
  {
    Assoc(B, a, d);
  }

  // ---------- a two-word divisor ----------

  /** Shifting the divisor so that its top bit is set, and keeping the top word `v`. */
  lemma Normalized(d: nat, d1: nat, p: nat, r: nat, v: nat)
    requires B * d1 <= d < B * d1 + B && p > 0 && p * r == 0x8000_0000 && 0x8000_0000 <= d1 * p < B
    requires v * B <= d * p < v * B + B
    ensures d * p < W && 0x8000_0000 <= v < B
    ensures 2 * (v * r) <= d < 2 * (v * r) + 2 * r
  {
    TopWord(d, d1, p, r);
    Cancel(d, p, r, v);
  }

  lemma TopWord(d: nat, d1: nat, p: nat, r: nat)
    requires B * d1 <= d < B * d1 + B && p > 0 && p * r == 0x8000_0000 && 0x8000_0000 <= d1 * p < B
    ensures B * 0x8000_0000 <= d * p < W
  {
    assert d1 * p < (2 * r) * p;
    MulLess(d1, 2 * r, p);
    assert (d1 + 1) * p <= (2 * r) * p by { MulLess(2 * r, d1 + 1, p); }
    assert B * d1 * p == B * (d1 * p) && B * (d1 + 1) * p == B * ((d1 + 1) * p);
    MulLess(d, B * (d1 + 1), p);
    MulLess(d, B * d1, p);
  }

  lemma Cancel(d: nat, p: nat, r: nat, v: nat)
    requires p > 0 && p * r == 0x8000_0000 && v * B <= d * p < v * B + B
    ensures 2 * (v * r) <= d < 2 * (v * r) + 2 * r
  {
    assert v * (p * r) == (v * r) * p;
    MulLess(d, 2 * (v * r), p);
    assert (2 * (v * r) + 2 * r) * p == v * B + B by {
      assert (v * r) * p == v * (p * r) && r * p == 0x8000_0000;
    }
    MulLess(d, 2 * (v * r) + 2 * r, p);
  }

  /** The estimate from the top word is the quotient or one more: with m = v r, q m <= n / 2 < (q + 2) m. */
  lemma Estimate(n: nat, d: nat, p: nat, r: nat, v: nat, q: nat)
    requires n < W && p > 0 && r > 0 && p * r == 0x8000_0000 && 0x8000_0000 <= v
    requires 2 * (v * r) <= d < 2 * (v * r) + 2 * r && q * d <= n < q * d + d
    ensures q * (v * r) <= n / 2 < (q + 2) * (v * r)
  {
    Slack(n, d, p, r, v, q);
    EstimateLow(n, d, v * r, q);
    EstimateHigh(n, d, v * r, r, q);
  }

  lemma EstimateLow(n: nat, d: nat, m: nat, q: nat)
    requires 2 * m <= d && q * d <= n
    ensures q * m <= n / 2
  {
    MulMono(q, 2 * m, d);
    assert q * (2 * m) == 2 * (q * m);
  }

  lemma EstimateHigh(n: nat, d: nat, m: nat, r: nat, q: nat)
    requires r > 0 && d <= 2 * m + 2 * r - 1 && n < q * d + d && (q + 1) * (2 * r - 1) <= 2 * m
    ensures n / 2 < (q + 2) * m
  {
    MulMono(q + 1, d, 2 * m + 2 * r - 1);
    assert (q + 1) * d == q * d + d;
    assert (q + 1) * (2 * m + 2 * r - 1) == 2 * ((q + 1) * m) + (q + 1) * (2 * r - 1);
    assert (q + 2) * m == (q + 1) * m + m;
  }

  lemma Slack(n: nat, d: nat, p: nat, r: nat, v: nat, q: nat)
    requires n < W && p > 0 && r > 0 && p * r == 0x8000_0000 && 0x8000_0000 <= v
    requires 2 * (v * r) <= d && q * d <= n
    ensures (q + 1) * (2 * r - 1) <= 2 * (v * r)
  {
    assert 0x8000_0000 * r <= v * r by { MulLess(v, 0x8000_0000, r); }
    SmallQuotient(n, d, r, v * r, q);
    assert (q + 1) * r <= B by { NextFits(p, r, q); }
    SlackFrom(r, q, (q + 1) * r, v * r);
  }

  lemma SmallQuotient(n: nat, d: nat, r: nat, vr: nat, q: nat)
    requires n < W && 0x8000_0000 * r <= vr && 2 * vr <= d && q * d <= n
    ensures q * r < B
  {
    MulMono(q, B * r, d);
    Swap(q, B, r);
  }

  lemma Swap(a: int, b: int, c: int)
    ensures a * (b * c) == b * (a * c)
  {
  }

  lemma NextFits(p: nat, r: nat, q: nat)
    requires p > 0 && r > 0 && p * r == 0x8000_0000 && q * r < B
    ensures (q + 1) * r <= B
  {
    assert 2 * p * r == B;
    MulLess(q, 2 * p, r);
    MulLess(2 * p, q + 1, r);
  }

  lemma SlackFrom(r: nat, q: nat, qr: nat, vr: nat)
    requires r > 0 && qr == (q + 1) * r && qr <= B && 0x8000_0000 * r <= vr
    ensures (q + 1) * (2 * r - 1) <= 2 * vr
  {
    assert (q + 1) * (2 * r - 1) == 2 * qr - (q + 1);
    if r == 1 {
      assert qr == q + 1;
    }
  }

  lemma MulMono(a: nat, b: nat, c: nat)
    requires b <= c
    ensures a * b <= a * c
  {
  }

  lemma DivDiv(u: nat, v: nat, r: nat)
    requires v > 0 && r > 0
    ensures v * r > 0 && u / v / r == u / (v * r)
  {
    var a := u / v;
    var b := a / r;
    DivIs(u, v);
    DivIs(a, r);
    DivDivParts(u, v, r, a, u % v, b, a % r);
    QuotientIs(u, v * r, b);
  }

  lemma DivDivParts(u: nat, v: nat, r: nat, a: nat, x: nat, b: nat, y: nat)
    requires v > 0 && r > 0 && u == a * v + x && x < v && a == b * r + y && y < r
    ensures v * r > 0 && b * (v * r) <= u < b * (v * r) + v * r
  {
    assert a * v == b * r * v + y * v;
    assert b * r * v == b * (v * r);
    assert y * v + v <= r * v by { assert (y + 1) * v <= r * v; }
  }

  /** A number between q m and (q + 2) m has quotient q or q + 1. */
  lemma QuotientNear(u: nat, m: nat, q: nat)
    requires m > 0 && q * m <= u < (q + 2) * m
    ensures q <= u / m <= q + 1
  {
    DivIs(u, m);
    var k := u / m;
    MulLess(q, k + 1, m);
    MulLess(k, q + 2, m);
  }

  /** q or q - 1, whichever is the quotient, by one multiplication in 64 bits. */
  lemma Correct(n: nat, d: nat, q: nat)
    requires 0 < d <= n < W && n / d <= q <= n / d + 1
    ensures q >= 1
    ensures (n - (q - 1) * d) % W < d <==> q - 1 == n / d
  {
    DivIs(n, d);
    var k := n / d;
    assert k >= 1 by { MulLess(k, 1, d); }
    assert (k - 1) * d == k * d - d;
  }

  /** The quotient by a one-word divisor. */
  method UdivWords(n1: nat, n0: nat, d: nat) returns (q: nat)
    requires n1 < B && n0 < B && 0 < d < B
    ensures q == (B * n1 + n0) / d
  {
    ShortDivision(n1, n0, d);
    var t := B * (n1 % d) + n0;
    var low := Divl(t, d);
    q := low + B * (n1 / d);
  }

  method UdivShort(n: nat, d: nat) returns (q: nat)
    requires n < W && 0 < d < B
    ensures q == n / d
  {
    Words(n);
    var n1, n0 := n / B, n % B;
    q := UdivWords(n1, n0, d);
  }

  lemma Words(n: nat)
    requires n < W
    ensures n / B < B && n % B < B && n == B * (n / B) + n % B && (n / B == 0 <==> n < B)
  {
  }

  /** The estimate of the quotient by a two-word divisor with `s` leading zeros. */
  function LongEstimate(n: nat, d: nat, s: nat): (q: nat)
    requires B <= d <= n < W && s < 32 && Pow2(31) <= d / B * Pow2(s) < Pow2(32)
    ensures n / d <= q <= n / d + 1
  {
    var v := d * Pow2(s) % W / B;
    LongDivision(n, d, s, v);
    Divl(n / 2, v) / Pow2(31 - s)
  }

  function Corrected(n: nat, d: nat, q: nat): (r: nat)
    requires 0 < d <= n < W && n / d <= q <= n / d + 1
    ensures r == n / d
  {
    Correct(n, d, q);
    if (n - (q - 1) * d) % W < d then q - 1 else q
  }

  /** The quotient by a two-word divisor. */
  method UdivLong(n: nat, d: nat) returns (q: nat)
    requires B <= d <= n < W && d / B < B
    ensures q == n / d
  {
    hide LongEstimate, Corrected, Pow2;
    assert d / B > 0;
    var s := Nlz(d / B);
    q := LongEstimate(n, d, s);
    q := Corrected(n, d, q);
  }

  /** udiv64: the floor of n / d, with no trap. */
  method Udiv64(n: nat, d: nat) returns (q: nat)
    requires n < W && 0 < d < W
    ensures q == n / d
  {
    Words(d);
    if d / B == 0 {
      q := UdivShort(n, d);
    } else if n < d {
      QuotientIs(n, d, 0);
      q := 0;
    } else {
      q := UdivLong(n, d);
    }
  }

  lemma LongDivision(n: nat, d: nat, s: nat, v: nat)
    requires B <= d <= n < W && s < 32 && Pow2(31) <= d / B * Pow2(s) < Pow2(32)
    requires v == d * Pow2(s) % W / B
    ensures 0 < v < B && n / 2 / v < B
    ensures n / d <= n / 2 / v / Pow2(31 - s) <= n / d + 1
  {
    hide Pow2;
    Pow2s();
    Pow2Add(s, 31 - s);
    var p, r := Pow2(s), Pow2(31 - s);
    TopWord(d, d / B, p, r);
    DivIs(d * p, B);
    Normalized(d, d / B, p, r, v);
    DivIs(n, d);
    Estimate(n, d, p, r, v, n / d);
    NoTrap(n / 2, v);
    DivDiv(n / 2, v, r);
    QuotientNear(n / 2, v * r, n / d);
  }

  lemma NoTrap(u: nat, v: nat)
    requires u < 0x8000_0000 * B && 0x8000_0000 <= v
    ensures u / v < B
  {
    DivIs(u, v);
    MulMono(u / v, 0x8000_0000, v);
  }

  // ---------- remainders and signs ----------

  lemma RemainderIs(n: nat, d: nat)
    requires d > 0
    ensures n - d * (n / d) == n % d
  {
  }

  /** umod64 keeps the low 32 bits of the remainder. */
  method Umod64(n: nat, d: nat) returns (r: nat)
    requires n < W && 0 < d < W
    ensures r == n % d % B
  {
    var q := Udiv64(n, d);
    RemainderIs(n, d);
    var rest := n - d * q;
    r := Low32(rest);
  }

  /** A 64-bit number as 32 bits. */
  function Low32(x: int): nat { x % W % B }

  /** So it is exact for every dividend exactly when the divisor is at most 2^32. */
  lemma ModExact(d: nat)
    requires 0 < d < W
    ensures (forall n: nat :: n < W ==> n % d % B == n % d) <==> d <= B
  {
    if d > B {
      assert B % d % B != B % d;
    } else {
      forall n: nat ensures n % d % B == n % d {
        DivIs(n, d);
      }
    }
  }

  predicate Int64(x: int) { INT64_MIN <= x < -INT64_MIN }

  function ToUnsigned(x: int): nat { x % W }

  function ToSigned(x: nat): int { if x % W < W / 2 then x % W else x % W - W }

  function Abs(x: int): nat { if x < 0 then -x else x }

  /** Division truncating toward zero. */
  function TruncDiv(n: int, d: int): int
    requires d != 0
  {
    if (n < 0) == (d < 0) then Abs(n) / Abs(d) else -(Abs(n) / Abs(d))
  }

  lemma SignedCast(q: nat)
    requires q <= -INT64_MIN
    ensures ToSigned(q) == (if q == -INT64_MIN then INT64_MIN else q as int)
    ensures ToSigned(ToUnsigned(-ToSigned(q))) == 0 - q
  {
  }

  /** sdiv64 truncates toward zero, but for the one quotient that is out of range. */
  method Sdiv64(n: int, d: int) returns (q: int)
    requires Int64(n) && Int64(d) && d != 0
    ensures q == TruncDiv(n, d) <==> !(n == INT64_MIN && d == -1)
    ensures n == INT64_MIN && d == -1 ==> q == INT64_MIN
    ensures Int64(q)
  {
    hide ToSigned, ToUnsigned;
    AbsCast(n);
    AbsCast(d);
    var na := if n >= 0 then ToUnsigned(n) else ToUnsigned(-n);
    var da := if d >= 0 then ToUnsigned(d) else ToUnsigned(-d);
    var qa := Udiv64(na, da);
    QuotientBound(na, da);
    SignedCast(qa);
    q := if (n < 0) == (d < 0) then ToSigned(qa) else ToSigned(ToUnsigned(-ToSigned(qa)));
  }

  lemma AbsCast(n: int)
    requires Int64(n)
    ensures Abs(n) <= -INT64_MIN && Abs(n) == if n >= 0 then ToUnsigned(n) else ToUnsigned(-n)
  {
  }

  lemma QuotientBound(n: nat, d: nat)
    requires d > 0
    ensures n / d <= n && (d > 1 && n > 0 ==> n / d < n) && (d == 1 ==> n / d == n)
  {
    DivIs(n, d);
    if d > 1 { MulMono(n / d, 2, d); }
  }

  /** The remainder of truncating division: it has the sign of n. */
  function TruncMod(n: int, d: int): int
    requires d != 0
  {
    if n < 0 then -(Abs(n) % Abs(d)) else Abs(n) % Abs(d)
  }

  function ToInt32(x: int): int { if x % B < B / 2 then x % B else x % B - B }

  /** smod64 keeps the low 32 bits of the remainder, even where the quotient wrapped. */
  method Smod64(n: int, d: int) returns (r: int)
    requires Int64(n) && Int64(d) && d != 0
    ensures r == ToInt32(TruncMod(n, d))
  {
    hide TruncDiv, TruncMod, ToInt32;
    var q := Sdiv64(n, d);
    TruncIs(n, d);
    assert n - d * q == TruncMod(n, d) || (n == INT64_MIN && d == -1);
    if n == INT64_MIN && d == -1 {
      assert n - d * q == TruncMod(n, d) - W by { LeastByMinusOne(); }
      Wraps32(TruncMod(n, d));
    }
    var rest := n - d * q;
    r := ToInt32(rest);
  }

  lemma FitsInt32(x: int)
    ensures ToInt32(x) == x <==> -(B / 2) <= x < B / 2
  {
  }

  lemma RemainderFits(n: int, d: int)
    requires d != 0 && Abs(d) <= B / 2
    ensures -(B / 2) < TruncMod(n, d) < B / 2
  {
    DivIs(Abs(n), Abs(d));
  }

  lemma RemainderItself(d: int)
    requires Abs(d) > B / 2
    ensures TruncMod(B / 2, d) == B / 2
  {
    QuotientIs(B / 2, Abs(d), 0);
  }

  /** So it is exact for every dividend exactly when the divisor is at most 2^31 in magnitude. */
  lemma SmodExact(d: int)
    requires Int64(d) && d != 0
    ensures (forall n :: Int64(n) ==> ToInt32(TruncMod(n, d)) == TruncMod(n, d)) <==> Abs(d) <= B / 2
  {
    hide ToInt32, TruncMod, Abs;
    if Abs(d) > B / 2 {
      RemainderItself(d);
      FitsInt32(B / 2);
      assert Int64(B / 2) && ToInt32(TruncMod(B / 2, d)) != TruncMod(B / 2, d);
    } else {
      forall n ensures ToInt32(TruncMod(n, d)) == TruncMod(n, d) {
        RemainderFits(n, d);
        FitsInt32(TruncMod(n, d));
      }
    }
  }

  lemma TruncIs(n: int, d: int)
    requires d != 0
    ensures n - d * TruncDiv(n, d) == TruncMod(n, d)
  {
    var a: int, b: int := Abs(n), Abs(d);
    RemainderIs(a, b);
    var k: int := a / b;
    assert (0 - b) * k == 0 - b * k && (0 - b) * (0 - k) == b * k && b * (0 - k) == 0 - b * k;
  }

  lemma LeastByMinusOne()
    ensures TruncMod(INT64_MIN, -1) == 0 && INT64_MIN - -1 * INT64_MIN == -W
  {
  }

  lemma Wraps32(x: int)
    ensures ToInt32(x - W) == ToInt32(x)
  {
  }
}
