// GF(2^8) with the QR polynomial x^8 + x^4 + x^3 + x^2 + 1 (0x11d): multiplication by shifting and
// reducing, its field laws, and the powers of the generator.
module Galois {
  import opened Finite
  import opened Indices

  /** A field element; addition is `^`. */
  type gf = bv8

  function Add(a: gf, b: gf): gf {
    a ^ b
  }

  /** Multiplication by x, modulo the field polynomial. */
  function XTime(a: gf): gf {
    if a & 0x80 == 0 then a << 1 else (a << 1) ^ 0x1d
  }

  /** The source's step on a 16-bit word: shift, and subtract 0x11d on overflow into bit 8. */
  lemma XTimeWord(a: gf)
    ensures var x: bv16 := (a as bv16) << 1;
            (if x & 0x100 != 0 then x ^ 0x11d else x) == XTime(a) as bv16
  {
  }

  /** The product of `a` with the low `n` bits of `b`. */
  function MulN(a: gf, b: gf, n: nat): gf
    decreases n, a, b
  {
    if n == 0 then 0 else Add(if b & 1 == 1 then a else 0, MulN(XTime(a), b >> 1, n - 1))
  }

  /** The product of two polynomials modulo the field polynomial. */
  function Mul(a: gf, b: gf): gf {
    MulN(a, b, 8)
  }

  function Times(a: gf, k: nat): gf
    decreases k, a
  {
    if k == 0 then a else XTime(Times(a, k - 1))
  }

  /** The powers of x. */
  function Alpha(k: nat): gf {
    Times(1, k)
  }

  // ----- Multiplication by x

  lemma XTimeLinear(a: gf, b: gf)
    ensures XTime(Add(a, b)) == Add(XTime(a), XTime(b))
  {
    ShiftXor(a, b);
    TopXor(a, b);
    var x, y := a << 1, b << 1;
    if a & 0x80 == 0 && b & 0x80 == 0 {
    } else if a & 0x80 == 0 {
      XorAssoc(x, y, 0x1d);
    } else if b & 0x80 == 0 {
      XorSwap(x, y, 0x1d, 0);
    } else {
      XorSwap(x, 0x1d, y, 0x1d);
    }
  }

  lemma ShiftXor(a: gf, b: gf)
    ensures (a ^ b) << 1 == (a << 1) ^ (b << 1) && (a ^ b) >> 1 == (a >> 1) ^ (b >> 1)
  {
  }

  lemma TopXor(a: gf, b: gf)
    ensures (a ^ b) & 0x80 == 0 <==> (a & 0x80 == 0) == (b & 0x80 == 0)
  {
  }

  lemma XorAssoc(a: gf, b: gf, c: gf)
    ensures (a ^ b) ^ c == a ^ (b ^ c)
  {
  }

  lemma XorSwap(a: gf, b: gf, c: gf, d: gf)
    ensures (a ^ b) ^ (c ^ d) == (a ^ c) ^ (b ^ d)
  {
  }

  lemma AddLaws(a: gf, b: gf, c: gf)
    ensures Add(Add(a, b), c) == Add(a, Add(b, c)) && Add(a, b) == Add(b, a)
    ensures Add(a, 0) == a && Add(0, a) == a && Add(a, a) == 0
    ensures Add(a, b) == 0 <==> a == b
  {
    XorAssoc(a, b, c);
  }

  lemma AddSwap(a: gf, b: gf, c: gf, d: gf)
    ensures Add(Add(a, b), Add(c, d)) == Add(Add(a, c), Add(b, d))
  {
    hide Add;
    AddLaws(a, b, Add(c, d));
    AddLaws(b, c, d);
    AddLaws(c, b, d);
    AddLaws(a, c, Add(b, d));
  }

  lemma XTimeInjective(a: gf, b: gf)
    ensures XTime(a) == XTime(b) <==> a == b
  {
  }

  lemma {:induction false} TimesAdd(a: gf, j: nat, k: nat)
    ensures Times(Times(a, j), k) == Times(a, j + k)
    decreases k
  {
    if k != 0 {
      TimesAdd(a, j, k - 1);
    }
  }

  lemma {:induction false} TimesInjective(a: gf, b: gf, k: nat)
    ensures Times(a, k) == Times(b, k) <==> a == b
    decreases k
  {
    if k != 0 {
      TimesInjective(a, b, k - 1);
      XTimeInjective(Times(a, k - 1), Times(b, k - 1));
    }
  }

  lemma {:induction false} TimesZero(k: nat)
    ensures Times(0, k) == 0
    decreases k
  {
    if k != 0 {
      TimesZero(k - 1);
    }
  }

  // ----- Multiplication is bilinear

  lemma {:induction false} MulNAddLeft(a: gf, c: gf, b: gf, n: nat)
    ensures MulN(Add(a, c), b, n) == Add(MulN(a, b, n), MulN(c, b, n))
    decreases n
  {
    hide XTime, Add;
    AddLaws(0, 0, 0);
    if n != 0 {
      XTimeLinear(a, c);
      MulNAddLeft(XTime(a), XTime(c), b >> 1, n - 1);
      AddSwap(if b & 1 == 1 then a else 0, MulN(XTime(a), b >> 1, n - 1),
              if b & 1 == 1 then c else 0, MulN(XTime(c), b >> 1, n - 1));
    }
  }

  /** Half of a sum, and its low bit. */
  lemma HalfAdd(b: gf, c: gf)
    ensures Add(b, c) >> 1 == Add(b >> 1, c >> 1)
    ensures Add(b, c) & 1 == 1 <==> (b & 1 == 1) != (c & 1 == 1)
  {
  }

  lemma {:induction false} MulNAddRight(a: gf, b: gf, c: gf, n: nat)
    ensures MulN(a, Add(b, c), n) == Add(MulN(a, b, n), MulN(a, c, n))
    decreases n
  {
    hide XTime, Add;
    AddLaws(0, 0, 0);
    if n != 0 {
      HalfAdd(b, c);
      MulNAddRight(XTime(a), b >> 1, c >> 1, n - 1);
      AddSwap(if b & 1 == 1 then a else 0, MulN(XTime(a), b >> 1, n - 1),
              if c & 1 == 1 then a else 0, MulN(XTime(a), c >> 1, n - 1));
      AddLaws(a, 0, 0);
    }
  }

  lemma {:induction false} MulNXTime(a: gf, b: gf, n: nat)
    ensures MulN(XTime(a), b, n) == XTime(MulN(a, b, n))
    decreases n
  {
    hide XTime, Add;
    XTimeOfZero();
    if n != 0 {
      MulNXTime(XTime(a), b >> 1, n - 1);
      XTimeLinear(if b & 1 == 1 then a else 0, MulN(XTime(a), b >> 1, n - 1));
    }
  }

  lemma XTimeOfZero()
    ensures XTime(0) == 0
  {
  }

  lemma MulAddLeft(a: gf, b: gf, c: gf)
    ensures Mul(Add(a, b), c) == Add(Mul(a, c), Mul(b, c))
  {
    hide Add;
    MulNAddLeft(a, b, c, 8);
  }

  lemma MulAddRight(a: gf, b: gf, c: gf)
    ensures Mul(a, Add(b, c)) == Add(Mul(a, b), Mul(a, c))
  {
    hide Add;
    MulNAddRight(a, b, c, 8);
  }

  lemma MulXTimeLeft(a: gf, b: gf)
    ensures Mul(XTime(a), b) == XTime(Mul(a, b))
  {
    MulNXTime(a, b, 8);
  }

  lemma {:induction false} MulNZero(a: gf, n: nat)
    ensures MulN(a, 0, n) == 0
    decreases n
  {
    if n != 0 {
      assert (0 as gf) >> 1 == 0;
      MulNZero(XTime(a), n - 1);
    }
  }

  lemma Unroll(a: gf, b: gf, n: nat)
    requires n > 0
    ensures MulN(a, b, n) == Add(if b & 1 == 1 then a else 0, MulN(XTime(a), b >> 1, n - 1))
  {
  }

  lemma MulOne(a: gf)
    ensures Mul(a, 1) == a
  {
    assert (1 as gf) >> 1 == 0;
    MulNZero(XTime(a), 7);
  }

  /** The top bit of `b` contributes `a` shifted seven times. */
  lemma {:induction false} TopBitOnly(a: gf, n: nat)
    requires n < 8
    ensures MulN(a, 1 << n, n + 1) == Times(a, n)
    decreases n
  {
    if n == 0 {
      MulNZero(XTime(a), 0);
    } else {
      assert ((1 as gf) << n) >> 1 == (1 as gf) << (n - 1) && ((1 as gf) << n) & 1 == 0;
      TopBitOnly(XTime(a), n - 1);
      TimesAdd(a, 1, n - 1);
    }
  }

  /** Shifting `a` eight times is the reduction by 0x1d. */
  lemma EightShifts(a: gf)
    ensures Mul(a, 0x1d) == Times(a, 8)
  {
    var a1 := XTime(a);
    var a2 := XTime(a1);
    var a3 := XTime(a2);
    var a4 := XTime(a3);
    ProductBy1d(a, a1, a2, a3, a4);
    FourShifts(a);
    FourShifts(a4);
    TimesAdd(a, 4, 4);
    Reduced(a, a1, a2, a3, a4);
  }

  lemma FourShifts(a: gf)
    ensures Times(a, 4) == XTime(XTime(XTime(XTime(a))))
  {
    hide XTime;
    assert Times(a, 0) == a;
    assert Times(a, 1) == XTime(a);
    assert Times(a, 2) == XTime(XTime(a));
    assert Times(a, 3) == XTime(XTime(XTime(a)));
  }

  /** What the bits shifted out at the top, `h`, come back as. */
  function Folded(h: gf): gf {
    h ^ (h << 2) ^ (h << 3) ^ (h << 4)
  }

  function Two(a: gf): gf {
    (a << 2) ^ Folded(a >> 6)
  }

  function Three(a: gf): gf {
    (a << 3) ^ Folded(a >> 5)
  }

  function Four(a: gf): gf {
    (a << 4) ^ Folded(a >> 4)
  }

  lemma TwoFolded(a: gf)
    ensures XTime(XTime(a)) == Two(a)
  {
  }

  lemma ThreeFolded(a: gf)
    ensures XTime(XTime(XTime(a))) == Three(a)
  {
  }

  lemma FourFolded(a: gf)
    ensures XTime(XTime(XTime(XTime(a)))) == Four(a)
  {
  }

  lemma EightFolded(a: gf, a2: gf, a3: gf, a4: gf)
    requires a2 == Two(a) && a3 == Three(a) && a4 == Four(a)
    ensures Four(a4) == a ^ a2 ^ a3 ^ a4
  {
  }

  /** x^8 = x^4 + x^3 + x^2 + 1. */
  lemma Reduced(a: gf, a1: gf, a2: gf, a3: gf, a4: gf)
    requires a1 == XTime(a) && a2 == XTime(a1) && a3 == XTime(a2) && a4 == XTime(a3)
    ensures XTime(XTime(XTime(XTime(a4)))) == a ^ a2 ^ a3 ^ a4
  {
    hide XTime, Two, Three, Four;
    TwoFolded(a);
    ThreeFolded(a);
    FourFolded(a);
    FourFolded(a4);
    EightFolded(a, a2, a3, a4);
  }

  lemma ProductBy1d(a: gf, a1: gf, a2: gf, a3: gf, a4: gf)
    requires a1 == XTime(a) && a2 == XTime(a1) && a3 == XTime(a2) && a4 == XTime(a3)
    ensures Mul(a, 0x1d) == a ^ a2 ^ a3 ^ a4
  {
    hide XTime, MulN;
    Unroll(a, 0x1d, 8);
    Unroll(a1, 0x0e, 7);
    Unroll(a2, 0x07, 6);
    Unroll(a3, 0x03, 5);
    Unroll(a4, 0x01, 4);
    MulNZero(XTime(a4), 3);
  }

  /** Bits above the `n`-th do not matter when they are zero. */
  lemma {:induction false} MulNExtend(a: gf, b: gf, n: nat)
    requires n < 8 && b >> n == 0
    ensures MulN(a, b, n + 1) == MulN(a, b, n)
    decreases n
  {
    if n == 0 {
      assert b == 0;
      MulNZero(a, 1);
    } else {
      assert (b >> 1) >> (n - 1) == 0;
      MulNExtend(XTime(a), b >> 1, n - 1);
    }
  }

  lemma UnshiftHigh(b: gf)
    requires b & 0x80 == 0
    ensures (b << 1) & 1 == 0 && (b << 1) >> 1 == b && b >> 7 == 0
  {
  }

  lemma SplitTop(b: gf)
    requires b & 0x80 != 0
    ensures var low := b ^ 0x80; low & 0x80 == 0 && XTime(b) == Add(low << 1, 0x1d) && b == Add(low, 0x80)
  {
  }

  lemma MulShifted(a: gf, b: gf)
    requires b & 0x80 == 0
    ensures Mul(a, b << 1) == XTime(Mul(a, b))
  {
    hide XTime, MulN, Add;
    UnshiftHigh(b);
    Unroll(a, b << 1, 8);
    AddLaws(MulN(XTime(a), b, 7), 0, 0);
    MulNExtend(XTime(a), b, 7);
    MulXTimeLeft(a, b);
  }

  lemma TimesTop(a: gf)
    ensures Mul(a, 0x80) == Times(a, 7) && Times(a, 8) == XTime(Times(a, 7))
  {
    TopBitOnly(a, 7);
    assert (1 as gf) << 7 == 0x80;
  }

  lemma MulXTimeRight(a: gf, b: gf)
    ensures Mul(a, XTime(b)) == XTime(Mul(a, b))
  {
    if b & 0x80 == 0 {
      MulShifted(a, b);
    } else {
      hide MulN, Mul, XTime, Add;
      var low := b ^ 0x80;
      SplitTop(b);
      MulShifted(a, low);
      MulAddRight(a, low << 1, 0x1d);
      EightShifts(a);
      MulAddRight(a, low, 0x80);
      TimesTop(a);
      XTimeLinear(Mul(a, low), Mul(a, 0x80));
    }
  }

  /** Every element is 1, twice a smaller one, or one more than a smaller one: induction over the field. */
  lemma Halve(a: gf)
    ensures a != 0 && a & 1 == 0 ==> XTime(a >> 1) == a && a >> 1 < a
    ensures a & 1 == 1 ==> a == Add(1, a ^ 1) && a ^ 1 < a
  {
  }

  lemma MulZeroLeft(b: gf)
    ensures Mul(0, b) == 0
  {
    MulAddLeft(0, 0, b);
    AddLaws(Mul(0, b), 0, 0);
    AddLaws(0, 0, 0);
  }

  lemma MulZeroRight(a: gf)
    ensures Mul(a, 0) == 0
  {
    MulNZero(a, 8);
  }

  lemma {:induction false} OneMul(b: gf)
    ensures Mul(1, b) == b
    decreases b
  {
    hide Mul, XTime, Add;
    Halve(b);
    if b == 0 {
      MulZeroRight(1);
    } else if b & 1 == 0 {
      OneMul(b >> 1);
      MulXTimeRight(1, b >> 1);
    } else {
      OneMul(b ^ 1);
      MulAddRight(1, 1, b ^ 1);
      MulOne(1);
    }
  }

  lemma {:induction false} MulComm(a: gf, b: gf)
    ensures Mul(a, b) == Mul(b, a)
    decreases a
  {
    hide Mul, XTime, Add;
    Halve(a);
    if a == 0 {
      MulZeroRight(b);
      MulZeroLeft(b);
    } else if a & 1 == 0 {
      MulComm(a >> 1, b);
      MulXTimeRight(b, a >> 1);
      MulXTimeLeft(a >> 1, b);
    } else {
      MulComm(a ^ 1, b);
      MulAddLeft(1, a ^ 1, b);
      MulAddRight(b, 1, a ^ 1);
      MulOne(b);
      OneMul(b);
    }
  }

  lemma ZeroProducts(a: gf, b: gf)
    ensures Mul(Mul(a, b), 0) == 0 && Mul(a, Mul(b, 0)) == 0
  {
    hide Mul;
    MulZeroRight(a);
    MulZeroRight(b);
    MulZeroRight(Mul(a, b));
  }

  lemma {:induction false} MulAssoc(a: gf, b: gf, c: gf)
    ensures Mul(Mul(a, b), c) == Mul(a, Mul(b, c))
    decreases c
  {
    hide Mul, XTime, Add;
    Halve(c);
    if c == 0 {
      ZeroProducts(a, b);
    } else if c & 1 == 0 {
      MulAssoc(a, b, c >> 1);
      MulXTimeRight(Mul(a, b), c >> 1);
      MulXTimeRight(b, c >> 1);
      MulXTimeRight(a, Mul(b, c >> 1));
    } else {
      MulAssoc(a, b, c ^ 1);
      MulAddRight(Mul(a, b), 1, c ^ 1);
      MulAddRight(b, 1, c ^ 1);
      MulAddRight(a, Mul(b, 1), Mul(b, c ^ 1));
      MulOne(Mul(a, b));
      MulOne(b);
    }
  }

  // ----- Powers of the generator

  /** Multiplying by a power of x is shifting that many times. */
  lemma {:induction false} MulAlpha(a: gf, k: nat)
    ensures Mul(a, Alpha(k)) == Times(a, k)
    decreases k
  {
    hide Mul, XTime, Add;
    if k == 0 {
      MulOne(a);
    } else {
      MulAlpha(a, k - 1);
      MulXTimeRight(a, Alpha(k - 1));
    }
  }

  lemma AlphaAdd(j: nat, k: nat)
    ensures Mul(Alpha(j), Alpha(k)) == Alpha(j + k)
  {
    MulAlpha(Alpha(j), k);
    TimesAdd(1, j, k);
  }

  lemma AlphaNonzero(k: nat)
    ensures Alpha(k) != 0
  {
    TimesZero(k);
    TimesInjective(0, 1, k);
  }

  lemma AlphaPlus(j: nat, k: nat, a: gf, b: gf, c: gf)
    requires Alpha(j) == a && Alpha(k) == b && Mul(a, b) == c
    ensures Alpha(j + k) == c
  {
    AlphaAdd(j, k);
  }

  lemma SmallPowers()
    ensures Alpha(1) == 2 && Alpha(2) == 4 && Alpha(4) == 16 && Alpha(8) == 29
  {
    assert Alpha(0) == 1;
    assert Alpha(3) == 8 && Alpha(5) == 32 && Alpha(6) == 64 && Alpha(7) == 128;
  }

  function Term(a: gf, b: gf, i: nat): gf
    requires i < 8
  {
    if (b >> i) & 1 == 1 then a else 0
  }

  lemma ShiftOnce(b: gf, i: nat)
    requires i < 8
    ensures (b >> i) >> 1 == b >> (i + 1)
  {
  }

  /** The terms of the product from the `i`-th bit of `b` on. */
  function TermsFrom(a: gf, b: gf, i: nat): gf
    requires i <= 8
  {
    MulN(a, b >> i, 8 - i)
  }

  lemma TermsStep(a: gf, b: gf, i: nat)
    requires i < 8
    ensures TermsFrom(a, b, i) == Add(Term(a, b, i), TermsFrom(XTime(a), b, i + 1))
  {
    hide XTime, Add;
    Unroll(a, b >> i, 8 - i);
    ShiftOnce(b, i);
  }

  lemma TermsEnds(a: gf, b: gf, c: gf)
    ensures TermsFrom(a, b, 0) == Mul(a, b) && Add(c, TermsFrom(a, b, 8)) == c
  {
    hide XTime;
    assert b >> 0 == b;
  }

  /** The product written out over all eight bits. */
  lemma MulUnrolled(a: gf, b: gf)
    ensures var a1 := XTime(a); var a2 := XTime(a1); var a3 := XTime(a2);
            var a4 := XTime(a3); var a5 := XTime(a4); var a6 := XTime(a5); var a7 := XTime(a6);
            Mul(a, b) == Add(Term(a, b, 0), Add(Term(a1, b, 1), Add(Term(a2, b, 2), Add(Term(a3, b, 3),
                         Add(Term(a4, b, 4), Add(Term(a5, b, 5), Add(Term(a6, b, 6), Term(a7, b, 7))))))))
  {
    hide XTime, Add, Mul, Term, TermsFrom;
    var a1 := XTime(a);
    var a2 := XTime(a1);
    var a3 := XTime(a2);
    var a4 := XTime(a3);
    var a5 := XTime(a4);
    var a6 := XTime(a5);
    var a7 := XTime(a6);
    TermsEnds(a, b, 0);
    TermsStep(a, b, 0);
    TermsStep(a1, b, 1);
    TermsStep(a2, b, 2);
    TermsStep(a3, b, 3);
    TermsStep(a4, b, 4);
    TermsStep(a5, b, 5);
    TermsStep(a6, b, 6);
    TermsStep(a7, b, 7);
    TermsEnds(XTime(a7), b, Term(a7, b, 7));
  }

  lemma MulLiteral(a: gf, b: gf, c: gf)
    requires c == var a1 := XTime(a); var a2 := XTime(a1); var a3 := XTime(a2);
                  var a4 := XTime(a3); var a5 := XTime(a4); var a6 := XTime(a5); var a7 := XTime(a6);
                  Add(Term(a, b, 0), Add(Term(a1, b, 1), Add(Term(a2, b, 2), Add(Term(a3, b, 3),
                  Add(Term(a4, b, 4), Add(Term(a5, b, 5), Add(Term(a6, b, 6), Term(a7, b, 7))))))))
    ensures Mul(a, b) == c
  {
    hide XTime, Add, Term, Mul;
    MulUnrolled(a, b);
  }

  lemma Products()
    ensures Mul(16, 4) == 64 && Mul(64, 2) == 128 && Mul(29, 128) == 38
    ensures Mul(38, 4) == 152 && Mul(152, 152) == 78 && Mul(78, 152) == 10
    ensures Mul(10, 78) == 214 && Mul(214, 214) == 215 && Mul(215, 214) == 1
  {
    hide Mul;
    MulLiteral(16, 4, 64);
    MulLiteral(64, 2, 128);
    MulLiteral(29, 128, 38);
    MulLiteral(38, 4, 152);
    MulLiteral(152, 152, 78);
    MulLiteral(78, 152, 10);
    MulLiteral(10, 78, 214);
    MulLiteral(214, 214, 215);
    MulLiteral(215, 214, 1);
  }

  /** x^255 = 1, and no smaller exponent dividing 255 gives 1. */
  lemma AlphaValues()
    ensures Alpha(15) == 38 && Alpha(51) == 10 && Alpha(85) == 214 && Alpha(255) == 1
  {
    hide Alpha, Mul;
    SmallPowers();
    Products();
    AlphaPlus(4, 2, 16, 4, 64);
    AlphaPlus(6, 1, 64, 2, 128);
    AlphaPlus(8, 7, 29, 128, 38);
    AlphaPlus(15, 2, 38, 4, 152);
    AlphaPlus(17, 17, 152, 152, 78);
    AlphaPlus(34, 17, 78, 152, 10);
    AlphaPlus(51, 34, 10, 78, 214);
    AlphaPlus(85, 85, 214, 214, 215);
    AlphaPlus(170, 85, 215, 214, 1);
  }

  lemma {:induction false} AlphaMultiple(d: nat, q: nat)
    requires Alpha(d) == 1
    ensures Alpha(q * d) == 1
    decreases q
  {
    if q != 0 {
      AlphaMultiple(d, q - 1);
      assert q * d == (q - 1) * d + d;
      TimesAdd(1, (q - 1) * d, d);
    }
  }

  /** Exponents count modulo any period. */
  lemma AlphaMod(d: nat, k: nat)
    requires d > 0 && Alpha(d) == 1
    ensures Alpha(k % d) == Alpha(k)
  {
    AlphaMultiple(d, k / d);
    assert k == (k / d) * d + k % d;
    TimesAdd(1, (k / d) * d, k % d);
  }

  lemma {:induction false} LeastPeriod(n: nat) returns (d: nat)
    requires n > 0 && Alpha(n) == 1
    ensures 0 < d <= n && Alpha(d) == 1 && forall k :: 0 < k < d ==> Alpha(k) != 1
  {
    hide Alpha;
    if k :| 0 < k < n && Alpha(k) == 1 {
      d := LeastPeriod(k);
    } else {
      d := n;
    }
  }

  lemma DivisorsOf255(d: nat, q: nat)
    requires d * q == 255 && d < 255
    ensures 15 % d == 0 || 51 % d == 0 || 85 % d == 0
  {
    if d <= 15 {
      SmallDivisor(d, q);
    } else if q <= 15 {
      SmallDivisor(q, d);
    } else {
      ProductBound(d, q);
    }
  }

  lemma ProductBound(d: nat, q: nat)
    requires d >= 16 && q >= 16
    ensures d * q >= 256
  {
  }

  lemma SmallDivisor(a: nat, b: nat)
    requires a <= 15 && a * b == 255
    ensures (a == 1 && b == 255) || (a == 3 && b == 85) || (a == 5 && b == 51) || (a == 15 && b == 17)
  {
    if a == 0 {
    } else if a == 2 {
    } else if a == 4 {
    } else if a == 6 {
    } else if a == 7 {
    } else if a == 8 {
    } else if a == 9 {
    } else if a == 10 {
    } else if a == 11 {
    } else if a == 12 {
    } else if a == 13 {
    } else if a == 14 {
    }
  }

  /** x generates: its order is exactly 255. */
  lemma OrderIs255(k: nat)
    requires 0 < k < 255
    ensures Alpha(k) != 1
  {
    hide Alpha;
    AlphaValues();
    var d := LeastPeriod(255);
    AlphaMod(d, 255);
    assert 255 % d == 0;
    if d < 255 {
      DivisorsOf255(d, 255 / d);
      AlphaMod(d, 15);
      AlphaMod(d, 51);
      AlphaMod(d, 85);
      AlphaZero();
      assert false;
    }
  }

  lemma AlphaZero()
    ensures Alpha(0) == 1
  {
  }

  /** Below 255, different exponents give different elements. */
  lemma AlphaInjective(j: nat, k: nat)
    requires j < 255 && k < 255 && Alpha(j) == Alpha(k)
    ensures j == k
  {
    if j < k {
      AlphaDistinct(j, k);
    } else if k < j {
      AlphaDistinct(k, j);
    }
  }

  lemma AlphaDistinct(j: nat, k: nat)
    requires j < k < 255
    ensures Alpha(j) != Alpha(k)
  {
    OrderIs255(k - j);
    TimesAdd(1, k - j, j);
    TimesInjective(1, Alpha(k - j), j);
  }

  // ----- Logarithms

  /** The elements met by the first `n` powers. */
  ghost function PowersBelow(n: nat): set<gf> {
    if n == 0 then {} else PowersBelow(n - 1) + {Alpha(n - 1)}
  }

  lemma {:induction false} PowersBelowSize(n: nat)
    requires n <= 255
    ensures |PowersBelow(n)| == n
    ensures forall a :: a in PowersBelow(n) <==> exists k :: 0 <= k < n && Alpha(k) == a
  {
    hide Alpha;
    if n != 0 {
      PowersBelowSize(n - 1);
      assert Alpha(n - 1) !in PowersBelow(n - 1) by {
        if k :| 0 <= k < n - 1 && Alpha(k) == Alpha(n - 1) {
          AlphaDistinct(k, n - 1);
        }
      }
    }
  }

  /** At most `n` elements are below `n`. */
  lemma {:induction false} ElementCount(s: set<gf>, n: nat)
    requires n <= 256 && forall a :: a in s ==> a as int < n
    ensures |s| <= n
    decreases n
  {
    if n == 0 {
      forall a | a in s
        ensures false
      {
        IndexRange(a);
      }
    } else {
      var top: gf := (n - 1) as gf;
      forall a | a in s - {top}
        ensures a as int < n - 1
      {
        IndexOf(a, n - 1);
      }
      ElementCount(s - {top}, n - 1);
      assert |s| <= |s - {top}| + 1 by {
        assert s <= (s - {top}) + {top};
        SubsetSize(s, (s - {top}) + {top});
      }
    }
  }

  /** Every nonzero element is a power of x. */
  lemma LogExists(a: gf)
    requires a != 0
    ensures exists k: nat :: k < 255 && Alpha(k) == a
  {
    hide Alpha;
    PowersBelowSize(255);
    var powers := PowersBelow(255);
    assert 0 !in powers by {
      if k :| 0 <= k < 255 && Alpha(k) == 0 {
        AlphaNonzero(k);
      }
    }
    if a !in powers {
      var all := powers + {0} + {a};
      assert |all| == 257;
      forall x | x in all
        ensures x as int < 256
      {
        IndexRange(x);
      }
      ElementCount(all, 256);
      assert false;
    }
  }

  ghost function Log(a: gf): (k: nat)
    requires a != 0
    ensures k < 255 && Alpha(k) == a
  {
    LogExists(a);
    var k: nat :| k < 255 && Alpha(k) == a;
    k
  }

  lemma LogOfAlpha(k: nat)
    requires k < 255
    ensures Alpha(k) != 0 && Log(Alpha(k)) == k
  {
    AlphaNonzero(k);
    AlphaInjective(Log(Alpha(k)), k);
  }

  /** The product of nonzero elements adds their logarithms modulo 255; nothing nonzero multiplies to zero. */
  lemma MulByLogs(a: gf, b: gf)
    requires a != 0 && b != 0
    ensures Mul(a, b) == Alpha((Log(a) + Log(b)) % 255) && Mul(a, b) != 0
  {
    hide Alpha, Mul;
    AlphaAdd(Log(a), Log(b));
    AlphaValues();
    AlphaMod(255, Log(a) + Log(b));
    AlphaNonzero(Log(a) + Log(b));
  }
}
