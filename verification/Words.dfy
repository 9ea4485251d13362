// Machine words as natural numbers, with the bitwise operators defined bit by bit.
//
// `x << k` on a `w`-bit word is `Shl(x, k, w)`, `x >> k` is `x / Pow2(k)`, and `|`, `&`, `^` are
// `Or`, `And`, `Xor`. Nothing here depends on a word width except `Shl`, which drops the bits
// shifted out; the width of every stored word is an invariant of the code that stores it.
module Words {

  type byte = x: int | 0 <= x < 256

  function Pow2(n: nat): (r: nat)
    ensures 1 <= r
  {
    if n == 0 then 1 else 2 * Pow2(n - 1)
  }

  function Shl(x: nat, k: nat, width: nat): nat {
    (x * Pow2(k)) % Pow2(width)
  }

  function Xor(a: nat, b: nat): nat
    decreases a + b
  {
    if a == 0 && b == 0 then 0
    else (if a % 2 != b % 2 then 1 else 0) + 2 * Xor(a / 2, b / 2)
  }

  function Or(a: nat, b: nat): nat
    decreases a + b
  {
    if a == 0 && b == 0 then 0
    else (if a % 2 == 1 || b % 2 == 1 then 1 else 0) + 2 * Or(a / 2, b / 2)
  }

  function And(a: nat, b: nat): nat
    decreases a + b
  {
    if a == 0 && b == 0 then 0
    else (if a % 2 == 1 && b % 2 == 1 then 1 else 0) + 2 * And(a / 2, b / 2)
  }

  // ----- Powers of two

  lemma {:induction false} Pow2Add(m: nat, n: nat)
    ensures Pow2(m + n) == Pow2(m) * Pow2(n)
  {
    if m != 0 {
      Pow2Add(m - 1, n);
      assert Pow2(m + n) == 2 * Pow2(m - 1 + n);
    }
  }

  lemma {:induction false} Pow2Monotone(m: nat, n: nat)
    requires m <= n
    ensures Pow2(m) <= Pow2(n)
  {
    if m < n {
      Pow2Monotone(m, n - 1);
    }
  }

  lemma Pow2Values()
    ensures Pow2(1) == 2 && Pow2(2) == 4 && Pow2(3) == 8 && Pow2(4) == 16 && Pow2(5) == 32
    ensures Pow2(7) == 128 && Pow2(8) == 256 && Pow2(13) == 8192 && Pow2(15) == 32768
    ensures Pow2(16) == 0x1_0000 && Pow2(32) == 0x1_0000_0000 && Pow2(64) == 0x1_0000_0000_0000_0000
  {
    assert Pow2(16) == 0x1_0000;
    Pow2Add(16, 16);
    Pow2Add(32, 32);
  }

  // ----- Division facts used to peel bits off a product

  lemma DivMul(a: nat, m: nat)
    requires 0 < m
    ensures (a * m) / m == a && (a * m) % m == 0
  {
    DivUnique(a * m, m, a, 0);
  }

  lemma MulMonotone(a: int, b: int, c: nat)
    requires a <= b
    ensures a * c <= b * c
  {
  }

  lemma DoubleProduct(a: nat, b: nat)
    ensures a * (2 * b) == 2 * (a * b)
  {
  }

  /** `q * m <= x < k * m` bounds the quotient. */
  lemma QuotientBelow(x: nat, m: nat, k: nat)
    requires 0 < m && x < k * m
    ensures x / m < k
  {
    var q := x / m;
    assert q * m <= x;
    if k <= q {
      MulMonotone(k, q, m);
    }
  }

  /** Euclidean quotient and remainder are unique. */
  lemma DivUnique(x: int, m: int, q: int, r: int)
    requires 0 < m && 0 <= r < m && x == q * m + r
    ensures x / m == q && x % m == r
  {
    var q', r' := x / m, x % m;
    assert x == q' * m + r';
    assert (q - q') * m == r' - r;
    SmallMultiple(q - q', m);
  }

  lemma SmallMultiple(k: int, m: int)
    requires -m < k * m < m
    ensures k == 0
  {
  }

  /** Dividing by a product is dividing twice. */
  lemma DivDiv(x: nat, a: nat, b: nat)
    requires 0 < a && 0 < b
    ensures 0 < a * b && x / (a * b) == (x / a) / b
    ensures x % (a * b) == x % a + a * ((x / a) % b)
  {
    var q, r := x / a, x % a;
    var q2, r2 := q / b, q % b;
    EuclidParts(x, a);
    EuclidParts(q, b);
    ExpandQuotient(q2, b, r2, a);
    DigitsBelow(r2, r, a, b);
    MulCommute(a, r2);
    DivUnique(x, a * b, q2, r2 * a + r);
  }

  lemma EuclidParts(x: nat, m: nat)
    requires 0 < m
    ensures x == x / m * m + x % m && 0 <= x % m < m && 0 <= x / m
  {
  }

  lemma MulCommute(a: int, b: int)
    ensures a * b == b * a
  {
  }

  lemma ExpandQuotient(q: int, b: int, r: int, a: int)
    ensures (q * b + r) * a == q * (a * b) + r * a
  {
    MulSum(q * b, r, a);
    MulRegroup(q, b, a);
  }

  lemma MulSum(x: int, y: int, a: int)
    ensures (x + y) * a == x * a + y * a
  {
  }

  lemma MulRegroup(q: int, b: int, a: int)
    ensures (q * b) * a == q * (a * b)
  {
  }

  /** Two digits make less than the product of their bases. */
  lemma DigitsBelow(high: nat, low: nat, a: nat, b: nat)
    requires low < a && high < b
    ensures high * a + low < a * b && 0 < a * b
  {
    MulMonotone(high + 1, b, a);
    MulSum(high, 1, a);
    MulCommute(a, b);
  }

  /** Shifting in `k` and then one more bit. */
  lemma HalfMod(x: nat, k: nat)
    ensures x % Pow2(k + 1) == x % 2 + 2 * ((x / 2) % Pow2(k))
    ensures x / Pow2(k + 1) == (x / 2) / Pow2(k)
  {
    DivDiv(x, 2, Pow2(k));
  }

  /** `x >> k`, one bit at a time. */
  function Shr(x: nat, k: nat): (r: nat) {
    if k == 0 then x else Shr(x / 2, k - 1)
  }

  lemma {:induction false} ShrIsDivision(x: nat, k: nat)
    ensures Shr(x, k) == x / Pow2(k)
  {
    if k == 0 {
      DivMul(x, 1);
    } else {
      HalfMod(x, k - 1);
      ShrIsDivision(x / 2, k - 1);
    }
  }

  lemma {:induction false} ShrShr(x: nat, j: nat, k: nat)
    ensures Shr(Shr(x, j), k) == Shr(x, j + k)
  {
    if j != 0 {
      ShrShr(x / 2, j - 1, k);
    }
  }

  lemma ShrBound(x: nat, k: nat, n: nat)
    requires k <= n && x < Pow2(n)
    ensures Shr(x, k) < Pow2(n - k)
  {
    ShrIsDivision(x, k);
    Pow2Add(n - k, k);
    QuotientBelow(x, Pow2(k), Pow2(n - k));
  }

  lemma ModSmall(x: nat, m: nat)
    requires x < m
    ensures x % m == x
  {
  }

  /** Shifting a byte up inside a word loses no bits as long as it fits. */
  lemma ShlByte(b: byte, k: nat, width: nat)
    requires k + 8 <= width
    ensures Shl(b, k, width) == b * Pow2(k)
  {
    ByteAbove(b, k);
    Pow2Monotone(k + 8, width);
    ModSmall(b * Pow2(k), Pow2(width));
  }

  lemma ByteAbove(b: byte, k: nat)
    ensures b * Pow2(k) + Pow2(k) <= Pow2(k + 8)
  {
    Pow2Add(8, k);
    assert Pow2(8) == 256;
    MulMonotone(b + 1, 256, Pow2(k));
  }

  /** The low `k` bits of `x`, one bit at a time. */
  function Low(x: nat, k: nat): (r: nat) {
    if k == 0 then 0 else x % 2 + 2 * Low(x / 2, k - 1)
  }

  lemma {:induction false} LowIsMod(x: nat, k: nat)
    ensures Low(x, k) == x % Pow2(k)
  {
    if k == 0 {
      DivMul(x, 1);
    } else {
      HalfMod(x, k - 1);
      LowIsMod(x / 2, k - 1);
    }
  }

  lemma {:induction false} LowSmall(x: nat, k: nat)
    requires x < Pow2(k)
    ensures Low(x, k) == x
  {
    if k != 0 {
      LowSmall(x / 2, k - 1);
    }
  }

  // ----- Bitwise operators

  lemma {:induction false} OrZero(a: nat)
    ensures Or(0, a) == a && Or(a, 0) == a
  {
    if a != 0 {
      OrZero(a / 2);
    }
  }

  /** OR-ing a word below `2^k` with a multiple of `2^k` is addition. */
  lemma {:induction false} OrDisjoint(a: nat, b: nat, k: nat)
    requires a < Pow2(k)
    ensures Or(a, b * Pow2(k)) == a + b * Pow2(k)
  {
    if k == 0 {
      OrZero(b);
    } else {
      var h := b * Pow2(k - 1);
      assert b * Pow2(k) == 2 * h;
      if a != 0 || h != 0 {
        OrDisjoint(a / 2, b, k - 1);
        assert Or(a, 2 * h) == (if a % 2 == 1 || (2 * h) % 2 == 1 then 1 else 0) + 2 * Or(a / 2, (2 * h) / 2);
      }
    }
  }

  lemma {:induction false} OrComm(a: nat, b: nat)
    ensures Or(a, b) == Or(b, a)
    decreases a + b
  {
    if a != 0 || b != 0 {
      OrComm(a / 2, b / 2);
    }
  }

  lemma {:induction false} AndZero(a: nat)
    ensures And(0, a) == 0 && And(a, 0) == 0
  {
    if a != 0 {
      AndZero(a / 2);
    }
  }

  lemma AndEven(a: nat, m: nat)
    ensures And(a, 2 * m) == 2 * And(a / 2, m)
  {
    assert 2 * m / 2 == m;
    if a == 0 && m == 0 {
      AndZero(0);
    }
  }

  lemma AndOdd(a: nat, m: nat)
    ensures And(a, 2 * m + 1) == a % 2 + 2 * And(a / 2, m)
  {
  }

  /** Masking with `k` ones keeps the low `k` bits. */
  lemma {:induction false} AndMask(a: nat, k: nat)
    ensures And(a, Pow2(k) - 1) == Low(a, k)
  {
    if k == 0 {
      AndZero(a);
    } else {
      AndMask(a / 2, k - 1);
      AndOdd(a, Pow2(k - 1) - 1);
    }
  }

  /** `x & ((1 << n) - 1)`. */
  function LowBits(x: nat, n: nat): nat {
    And(x, Pow2(n) - 1)
  }

  lemma {:induction false} XorZero(a: nat)
    ensures Xor(a, 0) == a && Xor(0, a) == a
  {
    if a != 0 {
      XorZero(a / 2);
    }
  }

  /** `Xor` peels off the low bit of both operands. */
  lemma XorParts(a: nat, b: nat)
    ensures Xor(a, b) / 2 == Xor(a / 2, b / 2)
    ensures Xor(a, b) % 2 == if a % 2 != b % 2 then 1 else 0
  {
    if a == 0 && b == 0 {
      XorZero(0);
    }
  }

  lemma {:induction false} XorAssoc(a: nat, b: nat, c: nat)
    ensures Xor(Xor(a, b), c) == Xor(a, Xor(b, c))
    decreases a + b + c
  {
    if a == 0 && b == 0 && c == 0 {
      XorZero(0);
    } else {
      XorParts(a, b);
      XorParts(b, c);
      XorParts(Xor(a, b), c);
      XorParts(a, Xor(b, c));
      XorAssoc(a / 2, b / 2, c / 2);
    }
  }

  lemma {:induction false} XorBound(a: nat, b: nat, n: nat)
    requires a < Pow2(n) && b < Pow2(n)
    ensures Xor(a, b) < Pow2(n)
  {
    if n == 0 {
      XorZero(0);
    } else {
      XorParts(a, b);
      XorBound(a / 2, b / 2, n - 1);
    }
  }

  lemma {:induction false} XorShr(a: nat, b: nat, n: nat)
    ensures Shr(Xor(a, b), n) == Xor(Shr(a, n), Shr(b, n))
  {
    if n != 0 {
      XorParts(a, b);
      XorShr(a / 2, b / 2, n - 1);
    }
  }

  /** Bit `i` of a word. */
  predicate Bit(x: nat, i: nat) {
    Shr(x, i) % 2 == 1
  }

  /** The bitwise operators work bit by bit. */
  lemma {:induction false} BitsOf(a: nat, b: nat, i: nat)
    ensures Bit(Xor(a, b), i) <==> Bit(a, i) != Bit(b, i)
    ensures Bit(Or(a, b), i) <==> Bit(a, i) || Bit(b, i)
    ensures Bit(And(a, b), i) <==> Bit(a, i) && Bit(b, i)
    decreases i
  {
    XorParts(a, b);
    HalvesOf(a, b);
    if i > 0 {
      BitsOf(a / 2, b / 2, i - 1);
    }
  }

  lemma HalvesOf(a: nat, b: nat)
    ensures Or(a, b) / 2 == Or(a / 2, b / 2) && (Or(a, b) % 2 == 1 <==> a % 2 == 1 || b % 2 == 1)
    ensures And(a, b) / 2 == And(a / 2, b / 2) && (And(a, b) % 2 == 1 <==> a % 2 == 1 && b % 2 == 1)
  {
  }
}
