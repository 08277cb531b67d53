/** Vocabulary shared by the models: machine constants, optional values, bytes, small sets and search. */
module Prelude {
  const PGSIZE := 4096
  const PHYS_BASE := 0xc000_0000
  const SECTOR_SIZE := 512
  const WORD := 0x1_0000_0000
  const INT_MAX := 0x7fff_ffff

  datatype Option<+T> = None | Some(value: T)

  type Byte = b: int | 0 <= b < 256

  function Fill(n: nat, b: Byte): (s: seq<Byte>)
    ensures |s| == n && forall i :: 0 <= i < n ==> s[i] == b
  {
    seq(n, _ => b)
  }

  /** A sector of a block device. */
  type Sector = s: seq<Byte> | |s| == SECTOR_SIZE witness Fill(SECTOR_SIZE, 0)

  function Pow2(k: nat): (r: nat)
    ensures r > 0
  {
    if k == 0 then 1 else 2 * Pow2(k - 1)
  }

  /** The numbers from `start` to start + cnt - 1. */
  function Range(start: nat, cnt: nat): (r: set<nat>)
    ensures forall k: nat :: k in r <==> start <= k < start + cnt
    decreases cnt
  {
    if cnt == 0 then {} else Range(start, cnt - 1) + {start + cnt - 1}
  }

  lemma {:induction false} RangeSize(start: nat, cnt: nat)
    ensures |Range(start, cnt)| == cnt
    decreases cnt
  {
    if cnt > 0 { RangeSize(start, cnt - 1); }
  }

  lemma {:induction false} SubsetSize<T>(a: set<T>, b: set<T>)
    requires a <= b
    ensures |a| <= |b|
  {
    if a != {} {
      var x :| x in a;
      SubsetSize(a - {x}, b - {x});
    }
  }

  /** Index of the first element at or after `i` that satisfies `p`. */
  function FirstFrom<T>(s: seq<T>, p: T -> bool, i: nat): (r: Option<nat>)
    requires i <= |s|
    ensures r.Some? ==> i <= r.value < |s| && p(s[r.value])
    ensures r.Some? ==> forall j :: i <= j < r.value ==> !p(s[j])
    ensures r.None? ==> forall j :: i <= j < |s| ==> !p(s[j])
    decreases |s| - i
  {
    if i == |s| then None
    else if p(s[i]) then Some(i)
    else FirstFrom(s, p, i + 1)
  }
}
