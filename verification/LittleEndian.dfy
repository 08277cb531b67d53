/** 32-bit numbers in bytes. */
module LittleEndian {
  import opened Prelude

  /** A 32-bit number, lowest byte first. */
  function Le32(x: nat): (r: seq<Byte>)
    ensures |r| == 4
  {
    [x % 256, x / 256 % 256, x / 65536 % 256, x / 16777216 % 256]
  }

  function FromLe32(b: seq<Byte>): nat
    requires |b| == 4
  {
    var w: seq<int> := b;
    w[0] + 256 * w[1] + 65536 * w[2] + 16777216 * w[3]
  }

  lemma Le32RoundTrip(x: nat)
    requires x < WORD
    ensures FromLe32(Le32(x)) == x
  {
    var a, b, c := x / 256, x / 65536, x / 16777216;
    assert a / 256 == b && b / 256 == c;
    assert x == 256 * a + x % 256 && a == 256 * b + a % 256 && b == 256 * c + b % 256;
  }

  /** Byte i counts 256^i: the lowest byte is first. */
  lemma Le32Bytes(x: nat)
    requires x < WORD
    ensures var r: seq<int> := Le32(x); x == r[0] + 256 * r[1] + 0x1_0000 * r[2] + 0x100_0000 * r[3]
  {
    Le32RoundTrip(x);
  }
}
