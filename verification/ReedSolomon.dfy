// Reed-Solomon codewords over GF(2^8) (ISO/IEC 18004:2006, section 6.5): the log/exp tables, the
// generator polynomial, the shift-register remainder, and what makes the result an error-correcting code.
// Polynomials are coefficient lists, highest power first.
module ReedSolomon {
  import opened Sequences
  import opened Indices
  import opened Galois

  // ----- Tables

  datatype Tables = Tables(exp: seq<gf>, log: seq<nat>) {
    ghost predicate Valid() {
      && |exp| == 256 && |log| == 256
      && (forall k :: 0 <= k < 256 ==> exp[k] == Alpha(k))
      && forall a: gf :: a != 0 ==> 0 <= a as int < 256 && log[a as int] == Log(a)
    }
  }

  lemma NextPower(x: bv16, k: nat)
    requires x == Alpha(k) as bv16
    ensures NextWord(x) == Alpha(k + 1) as bv16
  {
    XTimeWord(Alpha(k));
  }

  lemma LowByte(x: bv16, a: gf)
    requires x == a as bv16
    ensures x < 256 && x as gf == a && x as int == a as int
  {
  }

  /** Shift, and reduce on overflow. */
  function NextWord(x: bv16): bv16 {
    if (x << 1) & 0x100 != 0 then (x << 1) ^ 0x11d else x << 1
  }

  /** Powers of x in order; each element's logarithm is written when its power is met. */
  method GfTables() returns (t: Tables)
    ensures t.Valid()
  {
    hide Alpha, XTime, NextWord;
    var exp := new gf[256](_ => 0);
    var log := new nat[256](_ => 0);
    var x: bv16 := 1;
    AlphaZero();
    for i := 0 to 256
      invariant x == Alpha(i) as bv16
      invariant forall k :: 0 <= k < i ==> exp[k] == Alpha(k)
      invariant forall k :: 1 <= k < i && k < 255 ==> Alpha(k) as int < 256 && log[Alpha(k) as int] == k
    {
      LowByte(x, Alpha(i));
      IndexRange(Alpha(i));
      NewSlot(i);
      exp[i] := x as gf;
      log[x as int] := i;
      NextPower(x, i);
      x := NextWord(x);
    }
    NotOne();
    log[1] := 0;
    t := Tables(exp[..], log[..]);
    AllLogs(t.log);
  }

  lemma AllLogs(log: seq<nat>)
    requires |log| == 256 && log[1] == 0
    requires forall k :: 1 <= k < 255 ==> Alpha(k) as int < 256 && log[Alpha(k) as int] == k
    ensures forall a: gf :: a != 0 ==> 0 <= a as int < 256 && log[a as int] == Log(a)
  {
    hide Alpha, XTime;
    forall a: gf | a != 0
      ensures 0 <= a as int < 256 && log[a as int] == Log(a)
    {
      IndexRange(a);
      LogOfAlpha(0);
      AlphaZero();
      if Log(a) == 0 {
        assert a == 1;
      }
    }
  }

  /** Below 255 no power lands in an earlier one's slot, and power 255 lands in slot 1. */
  lemma NewSlot(i: nat)
    requires i < 256
    ensures forall k :: 1 <= k < i && k < 255 ==> Alpha(k) as int != Alpha(i) as int
  {
    hide Alpha;
    forall k | 1 <= k < i && k < 255
      ensures Alpha(k) as int != Alpha(i) as int
    {
      if Alpha(k) as int == Alpha(i) as int {
        IndexDistinct(Alpha(k), Alpha(i));
        if i == 255 {
          AlphaValues();
          OrderIs255(k);
        } else {
          AlphaDistinct(k, i);
        }
        assert false;
      }
    }
  }

  lemma NotOne()
    ensures forall k :: 1 <= k < 255 ==> Alpha(k) as int != 1
  {
    hide Alpha;
    forall k | 1 <= k < 255
      ensures Alpha(k) as int != 1
    {
      OrderIs255(k);
      assert (1 as gf) as int == 1;
      if Alpha(k) as int == 1 {
        IndexDistinct(Alpha(k), 1);
      }
    }
  }

  /** The table-driven product is the product. */
  function GfMul(t: Tables, a: gf, b: gf): (r: gf)
    requires t.Valid()
    ensures r == Mul(a, b)
  {
    if a == 0 || b == 0 then
      MulZeroLeft(b);
      MulZeroRight(a);
      0
    else
      MulByLogs(a, b);
      t.exp[(t.log[a as int] + t.log[b as int]) % 255]
  }

  // ----- Polynomials

  /** The value of a polynomial, by Horner's rule. */
  function Eval(p: seq<gf>, x: gf): gf {
    if p == [] then 0 else Add(Mul(Eval(p[..|p| - 1], x), x), p[|p| - 1])
  }

  function Sum(p: seq<gf>, q: seq<gf>): (r: seq<gf>)
    requires |p| == |q|
    ensures |r| == |p|
  {
    seq(|p|, i requires 0 <= i < |p| => Add(p[i], q[i]))
  }

  function Scale(p: seq<gf>, c: gf): (r: seq<gf>)
    ensures |r| == |p|
  {
    seq(|p|, i requires 0 <= i < |p| => Mul(p[i], c))
  }

  lemma EvalSnoc(p: seq<gf>, c: gf, x: gf)
    ensures Eval(p + [c], x) == Add(Mul(Eval(p, x), x), c)
  {
    assert (p + [c])[..|p|] == p;
  }

  lemma {:induction false} EvalSum(p: seq<gf>, q: seq<gf>, x: gf)
    requires |p| == |q|
    ensures Eval(Sum(p, q), x) == Add(Eval(p, x), Eval(q, x))
  {
    hide Add, Mul;
    if p == [] {
      AddLaws(0, 0, 0);
    } else {
      var n := |p| - 1;
      var s := Sum(p, q);
      assert s[..n] == Sum(p[..n], q[..n]);
      EvalSum(p[..n], q[..n], x);
      MulAddLeft(Eval(p[..n], x), Eval(q[..n], x), x);
      AddSwap(Mul(Eval(p[..n], x), x), Mul(Eval(q[..n], x), x), p[n], q[n]);
    }
  }

  lemma {:induction false} EvalScale(p: seq<gf>, c: gf, x: gf)
    ensures Eval(Scale(p, c), x) == Mul(Eval(p, x), c)
  {
    hide Add, Mul;
    if p == [] {
      MulZeroLeft(c);
    } else {
      var n := |p| - 1;
      assert Scale(p, c)[..n] == Scale(p[..n], c);
      EvalScale(p[..n], c, x);
      var e := Eval(p[..n], x);
      MulAssoc(e, c, x);
      MulComm(c, x);
      MulAssoc(e, x, c);
      MulAddLeft(Mul(e, x), p[n], c);
    }
  }

  lemma {:induction false} EvalZeros(n: nat, x: gf)
    ensures Eval(Fill<gf>(0, n), x) == 0
  {
    if n != 0 {
      assert Fill<gf>(0, n)[..n - 1] == Fill<gf>(0, n - 1);
      EvalZeros(n - 1, x);
      MulZeroLeft(x);
      AddLaws(0, 0, 0);
    }
  }

  /** Leading zeros do not change the value. */
  lemma {:induction false} EvalLeadingZero(p: seq<gf>, x: gf)
    ensures Eval([0] + p, x) == Eval(p, x)
  {
    hide Add, Mul;
    if p == [] {
      assert [0] + p == [0];
      assert Eval([0], x) == Add(Mul(Eval([], x), x), 0);
      MulZeroLeft(x);
      AddLaws(0, 0, 0);
    } else {
      var n := |p| - 1;
      assert ([0] + p)[..n + 1] == [0] + p[..n];
      EvalLeadingZero(p[..n], x);
    }
  }

  // ----- The generator polynomial

  /** `p` times (x - r). */
  function TimesLinear(p: seq<gf>, r: gf): (q: seq<gf>)
    ensures |q| == |p| + 1
  {
    Sum(p + [0], [0] + Scale(p, r))
  }

  lemma EvalTimesLinear(p: seq<gf>, r: gf, x: gf)
    ensures Eval(TimesLinear(p, r), x) == Mul(Eval(p, x), Add(x, r))
  {
    hide Add, Mul, Eval;
    EvalSum(p + [0], [0] + Scale(p, r), x);
    EvalSnoc(p, 0, x);
    AddLaws(Mul(Eval(p, x), x), 0, 0);
    EvalLeadingZero(Scale(p, r), x);
    EvalScale(p, r, x);
    MulAddRight(Eval(p, x), x, r);
  }

  /** The product of (x - a^i) for i below `n`. */
  function Generator(n: nat): (g: seq<gf>)
    ensures |g| == n + 1
  {
    if n == 0 then [1] else TimesLinear(Generator(n - 1), Alpha(n - 1))
  }

  lemma {:induction false} GeneratorMonic(n: nat)
    ensures Generator(n)[0] == 1
  {
    if n != 0 {
      GeneratorMonic(n - 1);
      var g := Generator(n - 1);
      assert (g + [0])[0] == 1;
      AddLaws(1, 0, 0);
    }
  }

  /** The generator vanishes at the first `n` powers of x, and nowhere else. */
  lemma {:induction false} GeneratorRoots(n: nat, x: gf)
    ensures Eval(Generator(n), x) == 0 <==> exists i :: 0 <= i < n && x == Alpha(i)
  {
    hide Add, Mul, Alpha, TimesLinear;
    if n == 0 {
      EvalSnoc([], 1, x);
      assert [] + [1 as gf] == [1];
      MulZeroLeft(x);
      AddLaws(0, 1, 0);
    } else {
      GeneratorRoots(n - 1, x);
      EvalTimesLinear(Generator(n - 1), Alpha(n - 1), x);
      var e, d := Eval(Generator(n - 1), x), Add(x, Alpha(n - 1));
      AddLaws(x, Alpha(n - 1), 0);
      MulZeroRight(e);
      MulZeroLeft(d);
      if e != 0 && d != 0 {
        MulByLogs(e, d);
      }
    }
  }

  /** Multiplies out the linear factors, one array pass each. */
  method GeneratorPoly(t: Tables, degree: nat) returns (poly: seq<gf>)
    requires t.Valid()
    ensures poly == Generator(degree)
  {
    hide Add, Mul, Alpha, TimesLinear, Log;
    poly := [1];
    for i := 0 to degree
      invariant poly == Generator(i)
    {
      AlphaValues();
      AlphaMod(255, i);
      poly := MultiplyLinear(t, poly, t.exp[i % 255]);
    }
  }

  method MultiplyLinear(t: Tables, poly: seq<gf>, root: gf) returns (product: seq<gf>)
    requires t.Valid()
    ensures product == TimesLinear(poly, root)
  {
    hide Add, Mul, Alpha, Log;
    var next := new gf[|poly| + 1](_ => 0);
    for j := 0 to |poly|
      invariant forall k :: 0 <= k < j ==> next[k] == TimesLinear(poly, root)[k]
      invariant next[j] == if j == 0 then 0 else Mul(poly[j - 1], root)
      invariant forall k :: j < k <= |poly| ==> next[k] == 0
    {
      var c := poly[j];
      AddLaws(next[j], c, 0);
      AddLaws(Mul(c, root), 0, 0);
      LinearCoefficient(poly, root, j);
      next[j] := Add(next[j], c);
      next[j + 1] := Add(next[j + 1], GfMul(t, c, root));
    }
    LinearCoefficient(poly, root, |poly|);
    product := next[..];
  }

  lemma LinearCoefficient(p: seq<gf>, r: gf, j: nat)
    requires j <= |p|
    ensures TimesLinear(p, r)[j] ==
            if j == |p| then (if j == 0 then 0 else Mul(p[j - 1], r))
            else Add(p[j], if j == 0 then 0 else Mul(p[j - 1], r))
  {
    hide Add, Mul;
    AddLaws(if j == 0 then 0 else Mul(p[j - 1], r), 0, 0);
    AddLaws(0, 0, 0);
    assert ([0] + Scale(p, r))[j] == if j == 0 then 0 else Mul(p[j - 1], r);
    assert (p + [0])[j] == if j == |p| then 0 else p[j];
  }

  // ----- The remainder

  /** One turn of the shift register: shift in a zero and subtract a multiple of the generator. */
  function Turn(rem: seq<gf>, b: gf, gen: seq<gf>): (r: seq<gf>)
    requires |rem| > 0 && |gen| == |rem| + 1
    ensures |r| == |rem|
  {
    Sum(rem[1..] + [0], Scale(gen[1..], Add(b, rem[0])))
  }

  function Remainder(block: seq<gf>, gen: seq<gf>): (r: seq<gf>)
    requires |gen| > 1
    ensures |r| == |gen| - 1
  {
    if block == [] then Fill<gf>(0, |gen| - 1)
    else Turn(Remainder(block[..|block| - 1], gen), block[|block| - 1], gen)
  }

  function EcCodewords(block: seq<gf>, ecLen: nat): (r: seq<gf>)
    requires ecLen > 0
    ensures |r| == ecLen
  {
    Remainder(block, Generator(ecLen))
  }

  /** The error-correction codewords of one block; at least one must be asked for. */
  method ComputeEcCodewords(t: Tables, block: seq<gf>, ecLen: nat) returns (rem: seq<gf>)
    requires t.Valid() && ecLen > 0
    ensures rem == EcCodewords(block, ecLen)
  {
    hide Add, Mul, Generator, Turn, Log, Alpha;
    var gen := GeneratorPoly(t, ecLen);
    rem := seq(ecLen, _ => 0);
    assert block[..0] == [];
    for n := 0 to |block|
      invariant rem == Remainder(block[..n], gen)
    {
      assert block[..n + 1][..n] == block[..n];
      rem := RegisterTurn(t, rem, block[n], gen);
    }
    assert block[..|block|] == block;
  }

  method RegisterTurn(t: Tables, before: seq<gf>, byte: gf, gen: seq<gf>) returns (rem: seq<gf>)
    requires t.Valid() && |before| > 0 && |gen| == |before| + 1
    ensures rem == Turn(before, byte, gen)
  {
    hide Mul, Log, Alpha;
    var factor := byte ^ before[0];
    rem := before[1..] + [0];
    ghost var shifted := rem;
    for i := 0 to |before|
      invariant |rem| == |before|
      invariant forall k :: 0 <= k < i ==> rem[k] == Add(shifted[k], Mul(gen[k + 1], factor))
      invariant forall k :: i <= k < |before| ==> rem[k] == shifted[k]
    {
      rem := rem[i := rem[i] ^ GfMul(t, gen[i + 1], factor)];
    }
    TurnCoefficients(before, byte, gen);
  }

  lemma TurnCoefficients(rem: seq<gf>, b: gf, gen: seq<gf>)
    requires |rem| > 0 && |gen| == |rem| + 1
    ensures forall k :: 0 <= k < |rem| ==> Turn(rem, b, gen)[k] == Add((rem[1..] + [0])[k], Mul(gen[k + 1], Add(b, rem[0])))
  {
    hide Add, Mul;
  }

  function Power(x: gf, n: nat): gf {
    if n == 0 then 1 else Mul(Power(x, n - 1), x)
  }

  /** Appending coefficients shifts the polynomial before them. */
  lemma {:induction false} EvalAppend(p: seq<gf>, q: seq<gf>, x: gf)
    ensures Eval(p + q, x) == Add(Mul(Eval(p, x), Power(x, |q|)), Eval(q, x))
    decreases |q|
  {
    hide Add, Mul;
    var e := Eval(p, x);
    if q == [] {
      assert p + q == p;
      MulOne(e);
      AddLaws(e, 0, 0);
    } else {
      var n := |q| - 1;
      var q0, c, w := q[..n], q[n], Power(x, n);
      assert q == q0 + [c] && p + q == (p + q0) + [c];
      EvalSnoc(p + q0, c, x);
      EvalAppend(p, q0, x);
      MulAddLeft(Mul(e, w), Eval(q0, x), x);
      MulAssoc(e, w, x);
      AddLaws(Mul(e, Mul(w, x)), Mul(Eval(q0, x), x), c);
    }
  }

  lemma EvalLead(c: gf, p: seq<gf>, x: gf)
    ensures Eval([c] + p, x) == Add(Mul(c, Power(x, |p|)), Eval(p, x))
  {
    hide Add, Mul;
    EvalAppend([c], p, x);
    EvalSnoc([], c, x);
    assert [] + [c] == [c];
    MulZeroLeft(x);
    AddLaws(c, 0, 0);
  }

  /** At a root of a monic generator, its lower part equals the leading power. */
  lemma MonicTail(gen: seq<gf>, x: gf)
    requires |gen| > 0 && gen[0] == 1 && Eval(gen, x) == 0
    ensures Eval(gen[1..], x) == Power(x, |gen| - 1)
  {
    hide Add, Mul;
    var w := Power(x, |gen| - 1);
    assert gen == [1] + gen[1..];
    EvalLead(1, gen[1..], x);
    OneMul(w);
    AddLaws(w, Eval(gen[1..], x), 0);
  }

  /** One turn at a root of the generator: multiply by x and bring the new coefficient in at the top. */
  lemma TurnAtRoot(rem: seq<gf>, b: gf, gen: seq<gf>, x: gf)
    requires |rem| > 0 && |gen| == |rem| + 1 && gen[0] == 1 && Eval(gen, x) == 0
    ensures Eval(Turn(rem, b, gen), x) == Add(Mul(Eval(rem, x), x), Mul(b, Power(x, |rem|)))
  {
    hide Add, Mul, Eval;
    var n, h, t := |rem|, rem[0], rem[1..];
    var w := Power(x, n);
    var f := Add(b, h);
    EvalSum(t + [0], Scale(gen[1..], f), x);
    EvalSnoc(t, 0, x);
    var tx := Mul(Eval(t, x), x);
    AddLaws(tx, 0, 0);
    EvalScale(gen[1..], f, x);
    MonicTail(gen, x);
    MulComm(w, f);
    MulAddLeft(b, h, w);
    assert rem == [h] + t;
    EvalLead(h, t, x);
    var v := Power(x, n - 1);
    MulAddLeft(Mul(h, v), Eval(t, x), x);
    MulAssoc(h, v, x);
    var hw, bw := Mul(h, w), Mul(b, w);
    assert Mul(Eval(rem, x), x) == Add(hw, tx);
    assert Eval(Turn(rem, b, gen), x) == Add(tx, Mul(f, w));
    assert Mul(f, w) == Add(bw, hw);
    AddLaws(bw, hw, 0);
    AddLaws(tx, hw, bw);
  }

  lemma {:induction false} RemainderAtRoot(block: seq<gf>, gen: seq<gf>, x: gf)
    requires |gen| > 1 && gen[0] == 1 && Eval(gen, x) == 0
    ensures Eval(Remainder(block, gen), x) == Mul(Eval(block, x), Power(x, |gen| - 1))
  {
    hide Add, Mul, Turn, Power;
    var n := |gen| - 1;
    var w := Power(x, n);
    if block == [] {
      EvalZeros(n, x);
      MulZeroLeft(w);
    } else {
      var init, b := block[..|block| - 1], block[|block| - 1];
      RemainderAtRoot(init, gen, x);
      TurnAtRoot(Remainder(init, gen), b, gen, x);
      var e := Eval(init, x);
      MulAssoc(e, w, x);
      MulComm(w, x);
      MulAssoc(e, x, w);
      MulAddLeft(Mul(e, x), b, w);
    }
  }

  /** A data block followed by its error-correction codewords vanishes at every root of the generator. */
  lemma CodewordRoots(block: seq<gf>, ecLen: nat, i: nat)
    requires i < ecLen
    ensures Eval(block + EcCodewords(block, ecLen), Alpha(i)) == 0
  {
    hide Add, Mul, Eval, Alpha, Generator, Remainder;
    var gen, x := Generator(ecLen), Alpha(i);
    GeneratorRoots(ecLen, x);
    GeneratorMonic(ecLen);
    RemainderAtRoot(block, gen, x);
    EvalAppend(block, EcCodewords(block, ecLen), x);
    AddLaws(Eval(EcCodewords(block, ecLen), x), 0, 0);
  }

  // ----- Minimum distance

  /** Multiplies the coefficient of each power x^e by a^e. */
  function Dilate(p: seq<gf>): (r: seq<gf>)
    ensures |r| == |p|
  {
    seq(|p|, i requires 0 <= i < |p| => Mul(p[i], Alpha(|p| - 1 - i)))
  }

  lemma {:induction false} EvalDilate(p: seq<gf>, x: gf)
    ensures Eval(Dilate(p), x) == Eval(p, Mul(Alpha(1), x))
  {
    hide Add, Mul, Alpha;
    if p != [] {
      var n := |p| - 1;
      var a := Alpha(1);
      EvalDilate(p[..n], x);
      var d := Dilate(p[..n]);
      forall i | 0 <= i < n
        ensures Dilate(p)[i] == Scale(d, a)[i]
      {
        AlphaAdd(n - 1 - i, 1);
        MulAssoc(p[i], Alpha(n - 1 - i), a);
      }
      assert Dilate(p)[..n] == Scale(d, a);
      EvalScale(d, a, x);
      MulAssoc(Eval(d, x), a, x);
      AlphaZero();
      MulOne(p[n]);
    }
  }

  /** The number of nonzero coefficients. */
  function Weight(p: seq<gf>): nat {
    if p == [] then 0 else Weight(p[..|p| - 1]) + if p[|p| - 1] == 0 then 0 else 1
  }

  lemma {:induction false} WeightZero(p: seq<gf>)
    ensures Weight(p) == 0 <==> forall i :: 0 <= i < |p| ==> p[i] == 0
  {
    if p != [] {
      WeightZero(p[..|p| - 1]);
    }
  }

  /** Losing one nonzero position and gaining none lowers the weight. */
  lemma {:induction false} WeightDrops(p: seq<gf>, q: seq<gf>, k: nat)
    requires |p| == |q| && k < |p| && p[k] != 0 && q[k] == 0
    requires forall i :: 0 <= i < |p| && p[i] == 0 ==> q[i] == 0
    ensures Weight(q) < Weight(p)
  {
    var n := |p| - 1;
    if k < n {
      WeightDrops(p[..n], q[..n], k);
    } else {
      WeightNoMore(p[..n], q[..n]);
    }
  }

  lemma {:induction false} WeightNoMore(p: seq<gf>, q: seq<gf>)
    requires |p| == |q| && forall i :: 0 <= i < |p| && p[i] == 0 ==> q[i] == 0
    ensures Weight(q) <= Weight(p)
  {
    if p != [] {
      WeightNoMore(p[..|p| - 1], q[..|p| - 1]);
    }
  }

  /** Removes the coefficient at `k`, scaling the others by nonzero factors. */
  function Annihilate(p: seq<gf>, k: nat): (r: seq<gf>)
    requires k < |p|
    ensures |r| == |p|
  {
    Sum(Dilate(p), Scale(p, Alpha(|p| - 1 - k)))
  }

  lemma AnnihilateAt(p: seq<gf>, k: nat, i: nat)
    requires k < |p| <= 255 && i < |p|
    ensures Annihilate(p, k)[i] == 0 <==> p[i] == 0 || i == k
  {
    hide Add, Mul, Alpha;
    var a, b := Alpha(|p| - 1 - i), Alpha(|p| - 1 - k);
    MulAddRight(p[i], a, b);
    AddLaws(a, b, 0);
    if a == b {
      AlphaInjective(|p| - 1 - i, |p| - 1 - k);
    }
    MulZeroLeft(Add(a, b));
    MulZeroRight(p[i]);
    if p[i] != 0 && Add(a, b) != 0 {
      MulByLogs(p[i], Add(a, b));
    }
  }

  /** A polynomial of length at most 255 with no more nonzero coefficients than consecutive roots is zero. */
  lemma {:induction false} SparseIsZero(p: seq<gf>, n: nat)
    requires |p| <= 255 && Weight(p) <= n
    requires forall i :: 0 <= i < n ==> Eval(p, Alpha(i)) == 0
    ensures Weight(p) == 0
    decreases n
  {
    hide Add, Mul, Alpha, Eval;
    WeightZero(p);
    if k :| 0 <= k < |p| && p[k] != 0 {
      var q := Annihilate(p, k);
      forall i | 0 <= i < |p|
        ensures q[i] == 0 <==> p[i] == 0 || i == k
      {
        AnnihilateAt(p, k, i);
      }
      WeightDrops(p, q, k);
      forall i | 0 <= i < n - 1
        ensures Eval(q, Alpha(i)) == 0
      {
        AnnihilatedRoot(p, k, i);
      }
      SparseIsZero(q, n - 1);
      WeightZero(q);
      OnlyCoefficient(p, k);
      assert false;
    }
  }

  lemma AnnihilatedRoot(p: seq<gf>, k: nat, i: nat)
    requires k < |p| && Eval(p, Alpha(i)) == 0 && Eval(p, Alpha(i + 1)) == 0
    ensures Eval(Annihilate(p, k), Alpha(i)) == 0
  {
    hide Add, Mul, Alpha, Eval;
    EvalSum(Dilate(p), Scale(p, Alpha(|p| - 1 - k)), Alpha(i));
    EvalDilate(p, Alpha(i));
    AlphaAdd(1, i);
    EvalScale(p, Alpha(|p| - 1 - k), Alpha(i));
    MulZeroLeft(Alpha(|p| - 1 - k));
    AddLaws(0, 0, 0);
  }

  /** A single coefficient does not vanish at 1. */
  lemma OnlyCoefficient(p: seq<gf>, k: nat)
    requires k < |p| && p[k] != 0 && forall i :: 0 <= i < |p| && i != k ==> p[i] == 0
    ensures Eval(p, Alpha(0)) != 0
  {
    hide Add, Mul, Alpha;
    AlphaZero();
    var n := |p| - 1;
    var e := Eval(p[..n], 1);
    MulOne(e);
    if k == n {
      assert p[..n] == Fill<gf>(0, n);
      EvalZeros(n, 1);
      AddLaws(0, p[n], 0);
    } else {
      OnlyCoefficient(p[..n], k);
      AddLaws(e, 0, 0);
    }
  }

  // Codewords of two different data blocks of equal length differ in more than `ecLen` places, so
  // any `ecLen / 2` wrong codewords leave the nearest codeword unique.
  lemma CodewordDistance(a: seq<gf>, b: seq<gf>, ecLen: nat)
    requires |a| == |b| && a != b && ecLen > 0 && |a| + ecLen <= 255
    ensures Weight(Sum(a + EcCodewords(a, ecLen), b + EcCodewords(b, ecLen))) > ecLen
  {
    hide Add, Mul, Alpha, Eval, EcCodewords;
    var ca, cb := a + EcCodewords(a, ecLen), b + EcCodewords(b, ecLen);
    var d := Sum(ca, cb);
    if Weight(d) <= ecLen {
      forall i | 0 <= i < ecLen
        ensures Eval(d, Alpha(i)) == 0
      {
        CodewordRoots(a, ecLen, i);
        CodewordRoots(b, ecLen, i);
        EvalSum(ca, cb, Alpha(i));
        AddLaws(0, 0, 0);
      }
      SparseIsZero(d, ecLen);
      WeightZero(d);
      forall i | 0 <= i < |a|
        ensures a[i] == b[i]
      {
        assert d[i] == Add(a[i], b[i]);
        AddLaws(a[i], b[i], 0);
      }
      assert false;
    }
  }

  /** The root property determines the error-correction codewords: no other choice of `ecLen` symbols has it. */
  lemma CodewordsUnique(block: seq<gf>, other: seq<gf>, ecLen: nat)
    requires 0 < ecLen == |other| && |block| + ecLen <= 255
    requires forall i :: 0 <= i < ecLen ==> Eval(block + other, Alpha(i)) == 0
    ensures other == EcCodewords(block, ecLen)
  {
    hide Add, Mul, Alpha, Eval, EcCodewords;
    var ec := EcCodewords(block, ecLen);
    var d := Sum(block + ec, block + other);
    forall i | 0 <= i < ecLen
      ensures Eval(d, Alpha(i)) == 0
    {
      CodewordRoots(block, ecLen, i);
      EvalSum(block + ec, block + other, Alpha(i));
      AddLaws(0, 0, 0);
    }
    forall i | 0 <= i < |block|
      ensures d[i] == 0
    {
      AddLaws(block[i], 0, 0);
    }
    WeightOfTail(d, |block|);
    SparseIsZero(d, ecLen);
    WeightZero(d);
    forall i | 0 <= i < ecLen
      ensures ec[i] == other[i]
    {
      assert d[|block| + i] == Add(ec[i], other[i]);
      AddLaws(ec[i], other[i], 0);
    }
  }

  lemma {:induction false} WeightOfTail(p: seq<gf>, k: nat)
    requires k <= |p| && forall i :: 0 <= i < k ==> p[i] == 0
    ensures Weight(p) <= |p| - k
    decreases |p|
  {
    if |p| > k {
      WeightOfTail(p[..|p| - 1], k);
    } else {
      WeightZero(p);
    }
  }
}
