/** LZ77 back-references on an unbounded output. */
module Lz77 {
  import opened Words

  /** Appends `len` bytes, each copied from `dist` back; the ranges may overlap. */
  function CopyBytes(s: seq<byte>, dist: nat, len: nat): (r: seq<byte>)
    requires 1 <= dist <= |s|
    ensures |r| == |s| + len
    decreases len
  {
    if len == 0 then s else CopyBytes(s + [s[|s| - dist]], dist, len - 1)
  }

  /** The copied part repeats what lies `dist` before it, its own beginning included. */
  lemma {:induction false} CopyRepeats(s: seq<byte>, dist: nat, len: nat)
    requires 1 <= dist <= |s|
    ensures CopyBytes(s, dist, len)[..|s|] == s
    ensures forall k :: |s| <= k < |s| + len ==> CopyBytes(s, dist, len)[k] == CopyBytes(s, dist, len)[k - dist]
    decreases len
  {
    if len != 0 {
      var t := s + [s[|s| - dist]];
      var r := CopyBytes(t, dist, len - 1);
      CopyRepeats(t, dist, len - 1);
      assert r[..|s|] == r[..|t|][..|s|] == s;
      assert r[|s|] == r[..|t|][|s|] && r[|s| - dist] == r[..|t|][|s| - dist];
    }
  }

  /** A copy that stays inside a suffix does not see what precedes it. */
  lemma {:induction false} CopyInSuffix(p: seq<byte>, s: seq<byte>, dist: nat, len: nat)
    requires 1 <= dist <= |s|
    ensures CopyBytes(p + s, dist, len) == p + CopyBytes(s, dist, len)
    decreases len
  {
    if len != 0 {
      var b := s[|s| - dist];
      assert (p + s)[|p + s| - dist] == b;
      assert (p + s) + [b] == p + (s + [b]);
      CopyInSuffix(p, s + [b], dist, len - 1);
    }
  }
}
