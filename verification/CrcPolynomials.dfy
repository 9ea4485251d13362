// CRC-32 as polynomial division over GF(2): the register is the remainder by the generator of RFC 1952, section 8,
// given by its exponents, and the only one.
module CrcPolynomials {
  import opened Words
  import opened BitLists
  import opened Crc32s

  /** A polynomial over GF(2): the exponents whose coefficient is one. */
  type Poly = set<nat>

  const GENERATOR: Poly := {32, 26, 23, 22, 16, 12, 11, 10, 8, 7, 5, 4, 2, 1, 0}

  function Plus(p: Poly, q: Poly): Poly {
    (p - q) + (q - p)
  }

  ghost function TimesX(p: Poly): Poly {
    set e | e in p :: e + 1
  }

  /** The register holds the coefficient of x^31 in its lowest bit. */
  predicate Coefficient(c: nat, e: nat) {
    e < 32 && Bit(c, 31 - e)
  }

  ghost function Register(c: nat): Poly {
    set e: nat | e < 32 && Coefficient(c, e)
  }

  // The start polynomial times x to the number of bits, plus the message, first bit highest, times x^32.
  ghost function Dividend(start: Poly, bits: Bits): Poly {
    if bits == [] then start
    else
      var n := |bits| - 1;
      Plus(TimesX(Dividend(start, bits[..n])), if bits[n] then {32} else {})
  }

  /** The generator times the polynomial with coefficients `q`, highest power first. */
  ghost function Multiple(q: Bits): Poly {
    if q == [] then {}
    else
      var n := |q| - 1;
      Plus(TimesX(Multiple(q[..n])), if q[n] then GENERATOR else {})
  }

  // ----- Laws of addition

  lemma PlusLaws(p: Poly, q: Poly, r: Poly)
    ensures Plus(Plus(p, q), r) == Plus(p, Plus(q, r)) && Plus(p, q) == Plus(q, p)
    ensures Plus(p, p) == {} && Plus(p, {}) == p
  {
  }

  lemma PlusSwap(p: Poly, q: Poly, r: Poly, s: Poly)
    ensures Plus(Plus(p, q), Plus(r, s)) == Plus(Plus(p, r), Plus(q, s))
  {
  }

  lemma TimesXPlus(p: Poly, q: Poly)
    ensures TimesX(Plus(p, q)) == Plus(TimesX(p), TimesX(q))
  {
  }

  // ----- One step of the register

  lemma TopOfPoly(k: nat, b: nat, i: nat)
    requires k % 8 == 0 && k < 32 && i < 8
    requires b == if k == 24 then 0xed else if k == 16 then 0xedb8 else if k == 8 then 0xed_b883 else 0xedb8_8320
    ensures Bit(POLY, k + i) == Bit(b, i)
  {
    hide Pow2, Low;
    Pow2Values();
    ShrShr(POLY, k, i);
    ShrIsDivision(POLY, k);
    assert Shr(POLY, k) == b by {
      if k == 24 {
        Pow2Add(8, 16);
        assert Pow2(24) == 0x100_0000;
      }
    }
  }

  lemma Highest(i: nat)
    requires i < 8
    ensures Bit(0xed, i) <==> i !in {1, 4}
  {
    assert Bit(0xed, 0) && !Bit(0xed, 1) && Bit(0xed, 2) && Bit(0xed, 3);
    assert !Bit(0xed, 4) && Bit(0xed, 5) && Bit(0xed, 6) && Bit(0xed, 7);
    hide Bit;
    assert i == 0 || i == 1 || i == 2 || i == 3 || i == 4 || i == 5 || i == 6 || i == 7;
  }

  lemma Higher(i: nat)
    requires i < 8
    ensures Bit(0xedb8, i) <==> i in {3, 4, 5, 7}
  {
    assert !Bit(0xedb8, 0) && !Bit(0xedb8, 1) && !Bit(0xedb8, 2) && Bit(0xedb8, 3);
    assert Bit(0xedb8, 4) && Bit(0xedb8, 5) && !Bit(0xedb8, 6) && Bit(0xedb8, 7);
    hide Bit;
    assert i == 0 || i == 1 || i == 2 || i == 3 || i == 4 || i == 5 || i == 6 || i == 7;
  }

  lemma Lower(i: nat)
    requires i < 8
    ensures Bit(0xed_b883, i) <==> i in {0, 1, 7}
  {
    assert Bit(0xed_b883, 0) && Bit(0xed_b883, 1) && !Bit(0xed_b883, 2) && !Bit(0xed_b883, 3);
    assert !Bit(0xed_b883, 4) && !Bit(0xed_b883, 5) && !Bit(0xed_b883, 6) && Bit(0xed_b883, 7);
    hide Bit;
    assert i == 0 || i == 1 || i == 2 || i == 3 || i == 4 || i == 5 || i == 6 || i == 7;
  }

  lemma Lowest(i: nat)
    requires i < 8
    ensures Bit(0xedb8_8320, i) <==> i == 5
  {
    assert !Bit(0xedb8_8320, 0) && !Bit(0xedb8_8320, 1) && !Bit(0xedb8_8320, 2) && !Bit(0xedb8_8320, 3);
    assert !Bit(0xedb8_8320, 4) && Bit(0xedb8_8320, 5) && !Bit(0xedb8_8320, 6) && !Bit(0xedb8_8320, 7);
    hide Bit;
    assert i == 0 || i == 1 || i == 2 || i == 3 || i == 4 || i == 5 || i == 6 || i == 7;
  }

  lemma GeneratorExponent(e: nat)
    requires e < 32
    ensures Coefficient(POLY, e) <==> e in GENERATOR
  {
    hide Bit;
    var i := 31 - e;
    if i >= 24 {
      Highest(i - 24);
      TopOfPoly(24, 0xed, i - 24);
    } else if i >= 16 {
      Higher(i - 16);
      TopOfPoly(16, 0xedb8, i - 16);
    } else if i >= 8 {
      Lower(i - 8);
      TopOfPoly(8, 0xed_b883, i - 8);
    } else {
      Lowest(i);
      TopOfPoly(0, 0xedb8_8320, i);
    }
  }

  lemma PolyIsGenerator()
    ensures Register(POLY) == GENERATOR - {32}
  {
    hide Coefficient;
    forall e: nat
      ensures e in Register(POLY) <==> e in GENERATOR - {32}
    {
      if e < 32 {
        GeneratorExponent(e);
      }
    }
  }

  lemma CoefficientXor(a: nat, b: nat, e: nat)
    requires e < 32
    ensures Coefficient(Xor(a, b), e) <==> Coefficient(a, e) != Coefficient(b, e)
  {
    hide Bit;
    BitsOf(a, b, 31 - e);
  }

  lemma RegisterXor(a: nat, b: nat)
    ensures Register(Xor(a, b)) == Plus(Register(a), Register(b))
  {
    hide Coefficient;
    forall e: nat | e < 32
      ensures Coefficient(Xor(a, b), e) <==> Coefficient(a, e) != Coefficient(b, e)
    {
      CoefficientXor(a, b, e);
    }
  }

  lemma NextBit(c: nat, i: nat)
    ensures Bit(c / 2, i) == Bit(c, i + 1) && (Bit(c, 0) <==> c % 2 == 1)
  {
  }

  lemma NoBitAbove(c: nat)
    requires c < U32
    ensures !Bit(c, 32)
  {
    Pow2Values();
    ShrBound(c, 32, 32);
  }

  /** Shifting right is multiplying by x; what leaves at the low end would be x^32. */
  lemma RegisterHalf(c: nat)
    requires c < U32
    ensures Register(c / 2) == TimesX(Register(c)) - {32}
    ensures 31 in Register(c) <==> c % 2 == 1
  {
    hide Bit;
    NextBit(c, 0);
    NoBitAbove(c);
    forall e: nat
      ensures e in Register(c / 2) <==> e in TimesX(Register(c)) - {32}
    {
      if e < 32 {
        NextBit(c, 31 - e);
        if e > 0 {
          assert e - 1 in Register(c) <==> Bit(c, 31 - (e - 1));
        }
      }
    }
  }

  /** A step multiplies by x and subtracts the generator if x^32 appears. */
  lemma StepReduces(c: nat)
    requires c < U32
    ensures Register(Step(c)) == Plus(TimesX(Register(c)), if 31 in Register(c) then GENERATOR else {})
  {
    hide Bit;
    var r := Register(c);
    RegisterHalf(c);
    if 31 in r {
      assert 31 + 1 in TimesX(r);
      RegisterXor(POLY, c / 2);
      PolyIsGenerator();
      CancelTop(TimesX(r));
    } else {
      assert 32 !in TimesX(r);
    }
  }

  lemma CancelTop(p: Poly)
    requires 32 in p
    ensures Plus(GENERATOR - {32}, p - {32}) == Plus(p, GENERATOR)
  {
  }

  lemma RegisterOfBit(bit: bool)
    ensures Register(if bit then 1 else 0) == if bit then {31} else {}
  {
    hide Bit;
    var c := if bit then 1 else 0;
    forall e: nat | e < 32
      ensures Coefficient(c, e) <==> bit && e == 31
    {
      BitOfBit(bit, 31 - e);
    }
  }

  lemma BitOfBit(bit: bool, i: nat)
    ensures Bit(if bit then 1 else 0, i) <==> bit && i == 0
  {
    if i > 0 {
      ShrZero(i - 1);
    }
  }

  lemma {:induction false} ShrZero(i: nat)
    ensures Shr(0, i) == 0
  {
    if i > 0 {
      ShrZero(i - 1);
    }
  }

  lemma XorSmall(c: nat, bit: bool)
    requires c < U32
    ensures Xor(c, if bit then 1 else 0) < U32
  {
    Pow2Values();
    XorBound(c, if bit then 1 else 0, 32);
  }

  /** Whether feeding a bit makes x^32 appear. */
  ghost predicate Overflows(r: Poly, bit: bool) {
    (31 in r) != bit
  }

  lemma FeedReduces(c: nat, bit: bool)
    requires c < U32
    ensures Feed(c, bit) < U32
    ensures Register(Feed(c, bit))
            == Plus(Plus(TimesX(Register(c)), if bit then {32} else {}), if Overflows(Register(c), bit) then GENERATOR else {})
  {
    hide Bit, Step, TimesX;
    var x := Xor(c, if bit then 1 else 0);
    XorSmall(c, bit);
    CodedStep(x);
    RegisterXor(c, if bit then 1 else 0);
    RegisterOfBit(bit);
    StepReduces(x);
    TimesXPlus(Register(c), if bit then {31} else {});
    TimesXOfBit(bit);
  }

  lemma TimesXOfBit(bit: bool)
    ensures TimesX(if bit then {31} else {}) == if bit then {32} else {}
  {
  }

  // ----- The register is the remainder

  lemma CrcSnoc(c: nat, bits: Bits)
    requires bits != []
    ensures CrcBits(c, bits) == Feed(CrcBits(c, bits[..|bits| - 1]), bits[|bits| - 1])
  {
    var n := |bits| - 1;
    assert bits == bits[..n] + [bits[n]];
    CrcBitsAppend(c, bits[..n], [bits[n]]);
    assert [bits[n]][1..] == [];
  }

  /** Dividend and register differ by a multiple of the generator. */
  lemma {:induction false} RegisterIsRemainder(c: nat, bits: Bits) returns (q: Bits)
    requires c < U32
    ensures CrcBits(c, bits) < U32
    ensures |q| == |bits| && Plus(Dividend(Register(c), bits), Register(CrcBits(c, bits))) == Multiple(q)
    decreases |bits|
  {
    hide Register, Feed, TimesX, Plus, GENERATOR;
    if bits == [] {
      q := [];
      PlusLaws(Register(c), {}, {});
    } else {
      var n := |bits| - 1;
      var before := CrcBits(c, bits[..n]);
      var q0 := RegisterIsRemainder(c, bits[..n]);
      CrcSnoc(c, bits);
      FeedReduces(before, bits[n]);
      q := q0 + [Overflows(Register(before), bits[n])];
      assert q[..n] == q0;
      DivideStep(Dividend(Register(c), bits[..n]), Register(before), if bits[n] then {32} else {},
                 if Overflows(Register(before), bits[n]) then GENERATOR else {});
    }
  }

  lemma DivideStep(d: Poly, r: Poly, b: Poly, g: Poly)
    ensures Plus(Plus(TimesX(d), b), Plus(Plus(TimesX(r), b), g)) == Plus(TimesX(Plus(d, r)), g)
  {
    hide TimesX, Plus;
    TimesXPlus(d, r);
    PlusSixth(TimesX(d), TimesX(r), b, g);
  }

  lemma PlusSixth(d: Poly, r: Poly, b: Poly, g: Poly)
    ensures Plus(Plus(d, b), Plus(Plus(r, b), g)) == Plus(Plus(d, r), g)
  {
  }

  // ----- And no other polynomial of degree below 32 is

  predicate Below32(p: Poly) {
    forall e :: e in p ==> e < 32
  }

  /** `h` is the degree of `p`. */
  predicate Degree(p: Poly, h: nat) {
    h in p && forall e :: e in p ==> e <= h
  }

  lemma DegreeShifts(p: Poly, h: nat, g: Poly)
    requires Degree(p, h) && h >= 32 && forall e :: e in g ==> e <= 32
    ensures Degree(Plus(TimesX(p), g), h + 1)
  {
    assert h + 1 in TimesX(p) && h + 1 !in g;
  }

  lemma DegreeStarts(bit: bool)
    ensures Plus(TimesX({}), if bit then GENERATOR else {}) == if bit then GENERATOR else {}
    ensures Degree(GENERATOR, 32)
  {
  }

  /** A multiple of the generator is zero or has degree 32 or more. */
  lemma {:induction false} MultipleDegree(q: Bits)
    ensures Multiple(q) == {} || exists h: nat :: Degree(Multiple(q), h) && h >= 32
    decreases |q|
  {
    hide TimesX, Plus, GENERATOR, Degree;
    if q != [] {
      var n := |q| - 1;
      var m := Multiple(q[..n]);
      MultipleDegree(q[..n]);
      DegreeStarts(q[n]);
      if h: nat :| Degree(m, h) && h >= 32 {
        GeneratorBelow();
        DegreeShifts(m, h, if q[n] then GENERATOR else {});
      }
    }
  }

  lemma GeneratorBelow()
    ensures forall e :: e in GENERATOR ==> e <= 32
  {
  }

  function XorBits(a: Bits, b: Bits): (r: Bits)
    requires |a| == |b|
    ensures |r| == |a|
  {
    seq(|a|, i requires 0 <= i < |a| => a[i] != b[i])
  }

  lemma {:induction false} MultiplePlus(a: Bits, b: Bits)
    requires |a| == |b|
    ensures Plus(Multiple(a), Multiple(b)) == Multiple(XorBits(a, b))
    decreases |a|
  {
    hide TimesX, Plus, GENERATOR;
    if a == [] {
      PlusLaws({}, {}, {});
    } else {
      var n := |a| - 1;
      MultiplePlus(a[..n], b[..n]);
      assert XorBits(a, b)[..n] == XorBits(a[..n], b[..n]);
      TimesXPlus(Multiple(a[..n]), Multiple(b[..n]));
      PlusSwap(TimesX(Multiple(a[..n])), if a[n] then GENERATOR else {}, TimesX(Multiple(b[..n])), if b[n] then GENERATOR else {});
      PlusLaws(GENERATOR, {}, {});
      PlusLaws({}, GENERATOR, {});
    }
  }

  /** Two polynomials of degree below 32 that leave the same dividend a multiple are the same. */
  lemma RemainderUnique(d: Poly, r: Poly, s: Poly, a: Bits, b: Bits)
    requires Below32(r) && Below32(s) && |a| == |b|
    requires Plus(d, r) == Multiple(a) && Plus(d, s) == Multiple(b)
    ensures r == s
  {
    hide Multiple;
    MultiplePlus(a, b);
    PlusCancel(d, r, s);
    MultipleDegree(XorBits(a, b));
    assert Below32(Plus(r, s));
    PlusNothing(r, s);
  }

  lemma PlusCancel(d: Poly, r: Poly, s: Poly)
    ensures Plus(Plus(d, r), Plus(d, s)) == Plus(r, s)
  {
  }

  lemma PlusNothing(r: Poly, s: Poly)
    requires Plus(r, s) == {}
    ensures r == s
  {
    forall e
      ensures e in r <==> e in s
    {
      assert e !in Plus(r, s);
    }
  }

  // ----- The checksum

  /** The exponents below `n`. */
  function Ones(n: nat): Poly {
    if n == 0 then {} else Ones(n - 1) + {n - 1}
  }

  lemma {:induction false} OnesAre(n: nat)
    ensures forall e: nat :: e in Ones(n) <==> e < n
  {
    if n > 0 {
      OnesAre(n - 1);
    }
  }

  lemma BitOfOnes(i: nat)
    requires i < 32
    ensures Bit(ONES, i)
  {
    OnesShifted(32, i);
    Pow2Values();
  }

  lemma {:induction false} OnesShifted(n: nat, i: nat)
    requires i < n
    ensures Bit(Pow2(n) - 1, i)
    decreases i
  {
    assert Pow2(n) - 1 == 2 * (Pow2(n - 1) - 1) + 1;
    if i > 0 {
      OnesShifted(n - 1, i - 1);
    }
  }

  lemma RegisterOfOnes()
    ensures Register(ONES) == Ones(32)
  {
    hide Bit, Ones;
    OnesAre(32);
    forall e: nat | e < 32
      ensures Coefficient(ONES, e)
    {
      BitOfOnes(31 - e);
    }
  }

  // The checksum of the gzip convention, complemented, is the one polynomial of degree below 32 that makes a multiple of
  // the generator of: 32 ones in front of the message, times x to its length in bits, plus the message times x^32.
  lemma ChecksumIsRemainder(data: seq<byte>, r: Poly)
    requires Below32(r)
    ensures (exists q: Bits :: |q| == 8 * |data| && Plus(Dividend(Ones(32), ByteBits(data)), r) == Multiple(q))
            <==> r == Plus(Register(Checksum(data)), Ones(32))
  {
    hide Dividend, Multiple, ByteBits, Plus, Ones;
    var bits := ByteBits(data);
    RegisterOfOnes();
    var q := RegisterIsRemainder(ONES, bits);
    var c := Register(CrcBits(ONES, bits));
    RegisterXor(CrcBits(ONES, bits), ONES);
    PlusLaws(c, Ones(32), Ones(32));
    PlusLaws(Ones(32), Ones(32), c);
    assert Plus(Register(Checksum(data)), Ones(32)) == c;
    RegisterBelow(CrcBits(ONES, bits));
    if p: Bits :| |p| == 8 * |data| && Plus(Dividend(Ones(32), bits), r) == Multiple(p) {
      RemainderUnique(Dividend(Ones(32), bits), c, r, q, p);
    }
  }

  lemma RegisterBelow(c: nat)
    ensures Below32(Register(c))
  {
  }
}
