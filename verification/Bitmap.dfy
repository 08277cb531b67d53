/** Bitmaps: first-fit scanning, and the bytes a bitmap is stored as. */
module Bitmap {
  import opened Prelude

  /** The `cnt` bits from `i` are all `value`. */
  predicate RunAt(bits: seq<bool>, i: nat, cnt: nat, value: bool)
    requires i + cnt <= |bits|
  {
    forall j :: i <= j < i + cnt ==> bits[j] == value
  }

  /** The first group of `cnt` bits at or after `i` that are all `value`. */
  function FirstRun(bits: seq<bool>, i: nat, cnt: nat, value: bool): (r: Option<nat>)
    ensures r.Some? ==> i <= r.value && r.value + cnt <= |bits| && RunAt(bits, r.value, cnt, value)
    ensures r.Some? ==> forall j :: i <= j < r.value ==> !RunAt(bits, j, cnt, value)
    ensures r.None? ==> forall j :: i <= j && j + cnt <= |bits| ==> !RunAt(bits, j, cnt, value)
    decreases |bits| - i
  {
    if i + cnt > |bits| then None
    else if RunAt(bits, i, cnt, value) then Some(i)
    else FirstRun(bits, i + 1, cnt, value)
  }

  function SetRange(bits: seq<bool>, start: nat, cnt: nat, value: bool): (r: seq<bool>)
    requires start + cnt <= |bits|
    ensures |r| == |bits|
    ensures forall i :: 0 <= i < |r| ==> r[i] == if start <= i < start + cnt then value else bits[i]
  {
    seq(|bits|, i requires 0 <= i < |bits| => if start <= i < start + cnt then value else bits[i])
  }

  method BitmapContains(bits: seq<bool>, start: nat, cnt: nat, value: bool) returns (r: bool)
    requires start + cnt <= |bits|
    ensures r <==> !RunAt(bits, start, cnt, !value)
  {
    var i := 0;
    while i < cnt
      invariant 0 <= i <= cnt
      invariant forall j :: start <= j < start + i ==> bits[j] == !value
    {
      if bits[start + i] == value {
        return true;
      }
      i := i + 1;
    }
    r := false;
  }

  method BitmapScan(bits: seq<bool>, start: nat, cnt: nat, value: bool) returns (r: Option<nat>)
    requires start <= |bits|
    ensures r == FirstRun(bits, start, cnt, value)
  {
    if cnt <= |bits| {
      var last, i := |bits| - cnt, start;
      while i <= last
        invariant start <= i
        invariant FirstRun(bits, start, cnt, value) == FirstRun(bits, i, cnt, value)
        decreases last + 1 - i
      {
        var other := BitmapContains(bits, i, cnt, !value);
        if !other {
          return Some(i);
        }
        i := i + 1;
      }
    }
    r := None;
  }

  method BitmapSetMultiple(bits: seq<bool>, start: nat, cnt: nat, value: bool) returns (r: seq<bool>)
    requires start + cnt <= |bits|
    ensures r == SetRange(bits, start, cnt, value)
  {
    r := bits;
    var i := 0;
    while i < cnt
      invariant 0 <= i <= cnt
      invariant r == SetRange(bits, start, i, value)
    {
      r := r[start + i := value];
      i := i + 1;
    }
  }

  /** Flips the first fitting group to `!value` and says where it is. */
  method BitmapScanAndFlip(bits: seq<bool>, start: nat, cnt: nat, value: bool)
    returns (bits': seq<bool>, r: Option<nat>)
    requires start <= |bits|
    ensures r == FirstRun(bits, start, cnt, value)
    ensures bits' == if r.Some? then SetRange(bits, r.value, cnt, !value) else bits
  {
    r := BitmapScan(bits, start, cnt, value);
    bits' := bits;
    if r.Some? {
      bits' := BitmapSetMultiple(bits, r.value, cnt, !value);
    }
  }

  /** Releasing what was just flipped restores the bitmap. */
  lemma FlipBack(bits: seq<bool>, start: nat, cnt: nat, value: bool)
    requires start + cnt <= |bits| && RunAt(bits, start, cnt, value)
    ensures SetRange(SetRange(bits, start, cnt, !value), start, cnt, value) == bits
  {
  }

  // ---------- the stored form ----------

  /** Bytes needed for `n` bits: whole 32-bit elements. */
  function ByteCount(n: nat): nat {
    (n + 31) / 32 * 4
  }

  /** Whole 32-bit elements, enough of them and not one too many. */
  lemma BytesSuffice(n: nat)
    ensures ByteCount(n) % 4 == 0 && n <= 8 * ByteCount(n) < n + 32
  {
  }

  function BitAt(bits: seq<bool>, i: nat): nat {
    if i < |bits| && bits[i] then 1 else 0
  }

  /** The number whose binary digits, lowest first, are the `k` bits from `i`. */
  function Value(bits: seq<bool>, i: nat, k: nat): (v: nat)
    ensures v < Pow2(k)
    decreases k
  {
    if k == 0 then 0 else BitAt(bits, i) + 2 * Value(bits, i + 1, k - 1)
  }

  /** Bits 8b to 8b + 7, bit 8b in the lowest place. */
  function Pack(bits: seq<bool>, b: nat): Byte {
    assert Pow2(8) == 256;
    Value(bits, 8 * b, 8)
  }

  /** What bitmap_write stores. */
  function Encode(bits: seq<bool>): (r: seq<Byte>)
    ensures |r| == ByteCount(|bits|)
    ensures forall b :: 0 <= b < |r| ==> r[b] == Pack(bits, b)
  {
    seq(ByteCount(|bits|), b requires b >= 0 => Pack(bits, b))
  }

  /** Binary digit `j` of `x`. */
  predicate Bit(x: nat, j: nat)
    decreases j
  {
    if j == 0 then x % 2 == 1 else Bit(x / 2, j - 1)
  }

  /** What bitmap_read makes of stored bytes, for a bitmap of `n` bits. */
  function Decode(bytes: seq<Byte>, n: nat): (r: seq<bool>)
    requires ByteCount(n) <= |bytes|
    ensures |r| == n
    ensures forall i :: 0 <= i < n ==> r[i] == Bit(bytes[i / 8], i % 8)
  {
    seq(n, i requires 0 <= i < n => Bit(bytes[i / 8], i % 8))
  }

  lemma {:induction false} ValueBit(bits: seq<bool>, i: nat, k: nat, j: nat)
    requires j < k
    ensures Bit(Value(bits, i, k), j) <==> BitAt(bits, i + j) == 1
    decreases k
  {
    if j > 0 {
      ValueBit(bits, i + 1, k - 1, j - 1);
    }
  }

  /** Reading back what was written gives the bitmap. */
  lemma DecodeEncode(bits: seq<bool>)
    ensures Decode(Encode(bits), |bits|) == bits
  {
    hide Value, Bit;
    forall i | 0 <= i < |bits| ensures Decode(Encode(bits), |bits|)[i] == bits[i] {
      ValueBit(bits, 8 * (i / 8), 8, i % 8);
      assert 8 * (i / 8) + i % 8 == i;
    }
  }
}
