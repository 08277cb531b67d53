/** Octal fields: how snprintf writes them and how they are parsed. */
module Octal {
  import opened Prelude

  const ZERO := 48
  const ULONG_MAX := 0xffff_ffff

  function Pow8(k: nat): (r: nat)
    ensures r > 0
  {
    if k == 0 then 1 else 8 * Pow8(k - 1)
  }

  /** `v` in `w` octal digits, highest first. */
  function Digits(v: nat, w: nat): (r: seq<Byte>)
    ensures |r| == w
    decreases w
  {
    if w == 0 then [] else Digits(v / 8, w - 1) + [ZERO + v % 8]
  }

  /** The digits format_integer accumulates, lowest first. */
  function Reversed(v: nat): seq<Byte> {
    if v == 0 then [] else [ZERO + v % 8] + Reversed(v / 8)
  }

  function Backward(s: seq<Byte>): (r: seq<Byte>)
    ensures |r| == |s|
  {
    if s == [] then [] else Backward(s[1..]) + [s[0]]
  }

  lemma {:induction false} ReversedFits(v: nat, w: nat)
    requires v < Pow8(w)
    ensures |Reversed(v)| <= w
    decreases w
  {
    if v > 0 { ReversedFits(v / 8, w - 1); }
  }

  /** Padding the digits on the left with zeros gives the field. */
  lemma {:induction false} PaddedDigits(v: nat, w: nat)
    requires v < Pow8(w)
    ensures |Reversed(v)| <= w && Fill(w - |Reversed(v)|, ZERO) + Backward(Reversed(v)) == Digits(v, w)
    decreases w
  {
    ReversedFits(v, w);
    if v == 0 {
      ZeroDigits(w);
    } else {
      ReversedFits(v / 8, w - 1);
      PaddedDigits(v / 8, w - 1);
      assert Reversed(v)[1..] == Reversed(v / 8);
      var pad := Fill(w - |Reversed(v)|, ZERO);
      assert pad + (Backward(Reversed(v / 8)) + [ZERO + v % 8]) == (pad + Backward(Reversed(v / 8))) + [ZERO + v % 8];
    }
  }

  lemma {:induction false} ZeroDigits(w: nat)
    ensures Digits(0, w) == Fill(w, ZERO)
  {
    if w > 0 { ZeroDigits(w - 1); }
  }

  /** Accumulates digits in a buffer, lowest first. */
  method Accumulate(value: nat) returns (buf: seq<Byte>)
    ensures buf == Reversed(value)
  {
    var v := value;
    buf := [];
    while v > 0
      invariant buf + Reversed(v) == Reversed(value)
    {
      buf := buf + [ZERO + v % 8];
      v := v / 8;
    }
  }

  /** Outputs a buffer from its end. */
  method OutputBackward(buf: seq<Byte>) returns (out: seq<Byte>)
    ensures out == Backward(buf)
  {
    out := [];
    var i := |buf|;
    assert buf[..i] == buf;
    while i > 0
      invariant 0 <= i <= |buf| && out + Backward(buf[..i]) == Backward(buf)
    {
      i := i - 1;
      LastFirst(buf[..i + 1]);
      assert buf[..i + 1][..i] == buf[..i];
      out := out + [buf[i]];
    }
  }

  lemma {:induction false} ReversedSpan(v: nat)
    requires v > 0
    ensures |Reversed(v)| > 0 && Pow8(|Reversed(v)| - 1) <= v < Pow8(|Reversed(v)|)
  {
    if v >= 8 {
      ReversedSpan(v / 8);
      assert v / 8 >= 1 && 8 * (v / 8) <= v < 8 * (v / 8) + 8;
    } else {
      assert Reversed(v) == [ZERO + v % 8] + Reversed(0) && Pow8(1) == 8 * Pow8(0);
    }
  }

  lemma {:induction false} Pow8Grows(a: nat, b: nat)
    requires a <= b
    ensures Pow8(a) <= Pow8(b)
    decreases b
  {
    if a < b { Pow8Grows(a, b - 1); }
  }

  /** format_integer for "%0<width>o": the digits of the value, at least `width` of them and no more
      than it takes. */
  method FormatOctal(value: nat, width: nat) returns (out: seq<Byte>)
    ensures |out| >= width && |out| >= 1 && value < Pow8(|out|) && out == Digits(value, |out|)
    ensures |out| > width && |out| > 1 ==> value >= Pow8(|out| - 1)
    ensures 0 < width && value < Pow8(width) ==> |out| == width
  {
    hide Pow8, Digits;
    var buf := Accumulate(value);
    ghost var need := if value == 0 then 1 else |buf|;
    Needed(value);
    if |buf| < 1 {
      buf := buf + [ZERO];
    }
    var pad := if width > |buf| then width - |buf| else 0;
    var digits := OutputBackward(buf);
    out := Fill(pad, ZERO) + digits;
    PaddedTo(value, if width > need then width else need);
    Enough(value, width, need);
  }

  /** The digits a value needs. */
  lemma Needed(value: nat)
    ensures value == 0 <==> |Reversed(value)| == 0
    ensures value == 0 ==> Backward([ZERO]) == [ZERO]
    ensures value > 0 ==> Pow8(|Reversed(value)| - 1) <= value < Pow8(|Reversed(value)|)
  {
    if value > 0 { ReversedSpan(value); }
  }

  lemma PaddedTo(value: nat, w: nat)
    requires w >= 1 && w >= |Reversed(value)|
    ensures value < Pow8(w)
    ensures var digits := if value == 0 then [ZERO] else Backward(Reversed(value));
            |digits| <= w && Fill(w - |digits|, ZERO) + digits == Digits(value, w)
  {
    hide Digits;
    Needed(value);
    Pow8Grows(|Reversed(value)|, w);
    PaddedDigits(value, w);
    if value == 0 {
      ZeroDigits(w);
      assert Fill(w - 1, ZERO) + [ZERO] == Fill(w, ZERO);
    }
  }

  lemma Enough(value: nat, width: nat, need: nat)
    requires need == if value == 0 then 1 else |Reversed(value)|
    ensures 0 < width && value < Pow8(width) ==> need <= width
  {
    Needed(value);
    if 0 < width < need { Pow8Grows(width, need - 1); }
  }

  lemma {:induction false} LastFirst(s: seq<Byte>)
    requires s != []
    ensures Backward(s) == [s[|s| - 1]] + Backward(s[..|s| - 1])
  {
    if |s| > 1 {
      LastFirst(s[1..]);
      assert s[1..][..|s| - 2] == s[..|s| - 1][1..];
    }
  }

  // ---------- parsing ----------

  /** parse_octal_field from position `ofs` with `value` so far. */
  function ParseFrom(s: seq<Byte>, ofs: nat, value: nat): Option<nat>
    requires ofs <= |s|
    decreases |s| - ofs
  {
    if ofs == |s| then None
    else
      var c: int := s[ofs];
      if ZERO <= c <= ZERO + 7 then
        if value > ULONG_MAX / 8 then None else ParseFrom(s, ofs + 1, c - ZERO + value * 8)
      else if c == 32 || c == 0 then (if ofs > 0 then Some(value) else None)
      else None
  }

  method ParseOctalField(s: seq<Byte>) returns (r: Option<nat>)
    ensures r == ParseFrom(s, 0, 0)
  {
    var value: nat, ofs := 0, 0;
    while ofs < |s|
      invariant 0 <= ofs <= |s| && ParseFrom(s, 0, 0) == ParseFrom(s, ofs, value)
    {
      var c: int := s[ofs];
      if ZERO <= c <= ZERO + 7 {
        if value > ULONG_MAX / 8 {
          return None;
        }
        value := c - ZERO + value * 8;
      } else if c == 32 || c == 0 {
        return if ofs > 0 then Some(value) else None;
      } else {
        return None;
      }
      ofs := ofs + 1;
    }
    r := None;
  }

  /** Reading digits continues the value by them. */
  lemma {:induction false} ReadDigits(v: nat, w: nat, before: seq<Byte>, after: seq<Byte>, start: nat)
    requires v < Pow8(w) && start * Pow8(w) + v <= ULONG_MAX
    ensures ParseFrom(before + Digits(v, w) + after, |before|, start)
         == ParseFrom(before + Digits(v, w) + after, |before| + w, start * Pow8(w) + v)
    decreases w
  {
    if w > 0 {
      var d := Digits(v / 8, w - 1);
      var c := [ZERO + v % 8];
      var s := before + Digits(v, w) + after;
      assert s == before + d + (c + after);
      Scale(start, v, w);
      ReadDigits(v / 8, w - 1, before, c + after, start);
      assert s[|before| + w - 1] == ZERO + v % 8;
    }
  }

  lemma Scale(start: nat, v: nat, w: nat)
    requires w > 0 && v < Pow8(w) && start * Pow8(w) + v <= ULONG_MAX
    ensures v / 8 < Pow8(w - 1) && start * Pow8(w - 1) + v / 8 <= ULONG_MAX / 8
    ensures v % 8 + (start * Pow8(w - 1) + v / 8) * 8 == start * Pow8(w) + v
  {
    assert start * Pow8(w) == 8 * (start * Pow8(w - 1));
  }

  /** A written field parses to its value. */
  lemma ParseWritten(v: nat, w: nat, after: seq<Byte>)
    requires 0 < w && v < Pow8(w) && v <= ULONG_MAX
    ensures ParseFrom(Digits(v, w) + [0] + after, 0, 0) == Some(v)
  {
    ReadDigits(v, w, [], [0] + after, 0);
    assert [] + Digits(v, w) + ([0] + after) == Digits(v, w) + [0] + after;
  }

  // ---------- what a field means ----------

  predicate IsDigit(c: Byte) { 48 <= c <= 55 }

  /** The number octal digits stand for. */
  function OctalValue(s: seq<Byte>): int {
    if s == [] then 0 else 8 * OctalValue(s[..|s| - 1]) - 48 + s[|s| - 1]
  }

  /** The digits written stand for the value written. */
  lemma {:induction false} DigitsValue(v: nat, w: nat)
    requires v < Pow8(w)
    ensures OctalValue(Digits(v, w)) == v && forall i :: 0 <= i < w ==> IsDigit(Digits(v, w)[i])
    decreases w
  {
    if w > 0 {
      DigitsValue(v / 8, w - 1);
      var d := Digits(v, w);
      assert d[..w - 1] == Digits(v / 8, w - 1);
    }
  }

  /** How many octal digits the field starts with. */
  function DigitRun(s: seq<Byte>): (n: nat)
    ensures n <= |s| && forall i :: 0 <= i < n ==> IsDigit(s[i])
    ensures n < |s| ==> !IsDigit(s[n])
  {
    if s == [] || !IsDigit(s[0]) then 0 else 1 + DigitRun(s[1..])
  }

  lemma {:induction false} ValueGrows(s: seq<Byte>, k: nat, n: nat)
    requires k <= n <= |s| && forall i :: 0 <= i < n ==> IsDigit(s[i])
    ensures 0 <= OctalValue(s[..k]) <= OctalValue(s[..n])
    decreases n
  {
    if n > 0 {
      assert s[..n][..n - 1] == s[..n - 1] && s[..n][n - 1] == s[n - 1];
      if k < n { ValueGrows(s, k, n - 1); } else { ValueGrows(s, 0, n - 1); }
    }
  }

  /** The field has at least one digit, then a space or a null, and its number fits 32 bits. */
  predicate WellFormed(s: seq<Byte>) {
    var n := DigitRun(s);
    0 < n < |s| && (s[n] == 32 || s[n] == 0) && OctalValue(s[..n]) <= 0xffff_ffff
  }

  lemma {:induction false} ParseGoesOn(s: seq<Byte>, ofs: nat)
    requires ofs <= DigitRun(s) && 0 <= OctalValue(s[..ofs]) <= ULONG_MAX
    ensures OctalValue(s[..DigitRun(s)]) >= 0
    ensures ParseFrom(s, ofs, OctalValue(s[..ofs])) ==
            if WellFormed(s) then Some(OctalValue(s[..DigitRun(s)])) else None
    decreases |s| - ofs
  {
    var n := DigitRun(s);
    ValueGrows(s, ofs, n);
    if ofs < n {
      var t := s[..ofs + 1];
      assert t[..ofs] == s[..ofs] && t[ofs] == s[ofs];
      assert OctalValue(t) == 8 * OctalValue(s[..ofs]) + (s[ofs] - 48);
      ValueGrows(s, ofs + 1, n);
      if OctalValue(s[..ofs]) <= ULONG_MAX / 8 { ParseGoesOn(s, ofs + 1); }
    }
  }

  /** parse_octal_field accepts exactly the well-formed fields, and gives their number. */
  lemma ParseIs(s: seq<Byte>)
    ensures OctalValue(s[..DigitRun(s)]) >= 0
    ensures ParseFrom(s, 0, 0) == if WellFormed(s) then Some(OctalValue(s[..DigitRun(s)])) else None
  {
    assert OctalValue(s[..0]) == 0;
    ParseGoesOn(s, 0);
  }
}
