/** A byte as a table index and back: no conversion loses anything. */
module Indices {
  lemma IndexRange(a: bv8)
    ensures 0 <= a as int < 256
  {
  }

  lemma IndexInverse(a: bv8)
    ensures 0 <= a as int < 256 && (a as int) as bv8 == a
  {
  }

  lemma ByteInverse(x: nat)
    requires x < 256
    ensures (x as bv8) as int == x
  {
    assert x % 256 == x;
  }

  lemma IndexOf(a: bv8, n: nat)
    requires n < 256
    ensures a as int == n ==> a == n as bv8
  {
    IndexInverse(a);
  }

  lemma IndexDistinct(a: bv8, b: bv8)
    requires a as int == b as int
    ensures a == b
  {
    IndexInverse(a);
    IndexInverse(b);
  }

  lemma BytesDiffer(x: nat, y: nat)
    requires x < 256 && y < 256
    ensures x as bv8 == y as bv8 <==> x == y
  {
    ByteInverse(x);
    ByteInverse(y);
  }
}
