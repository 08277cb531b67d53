/** Null-terminated strings in buffers. */
module CStrings {
  import opened Prelude

  /** The bytes before the first null. */
  function CString(b: seq<Byte>): (r: seq<Byte>)
    ensures |r| <= |b| && r == b[..|r|] && 0 !in r && (|r| < |b| ==> b[|r|] == 0)
  {
    if b == [] || b[0] == 0 then [] else [b[0]] + CString(b[1..])
  }

  lemma {:induction false} CStringPrefix(name: seq<Byte>, rest: seq<Byte>)
    requires 0 !in name
    ensures CString(name + [0] + rest) == name
  {
    if name != [] {
      assert (name + [0] + rest)[1..] == name[1..] + [0] + rest;
      CStringPrefix(name[1..], rest);
    }
  }
}
