/** The BCH-protected words of ISO/IEC 18004:2006, sections 6.9 and 6.10, and reading the format back. */
module QrFormat {
  import opened BitLists
  import opened QrTables

  type word = bv32

  /** The two-bit code of a level. */
  function LevelCode(ec: EcLevel): word {
    match ec case L => 1 case M => 0 case Q => 3 case H => 2
  }

  function MaskCode(mask: nat): word
    requires mask < 8
  {
    match mask case 0 => 0 case 1 => 1 case 2 => 2 case 3 => 3 case 4 => 4 case 5 => 5 case 6 => 6 case _ => 7
  }

  function FormatData(ec: EcLevel, mask: nat): word
    requires mask < 8
  {
    (LevelCode(ec) << 3) | MaskCode(mask)
  }

  /** One step of long division: clears bit `top` with the generator shifted to it. */
  function Divide(x: word, generator: word, degree: nat, i: nat): word
    requires degree + i < 32
  {
    if x & (1 << (degree + i)) != 0 then x ^ (generator << i) else x
  }

  /** The remaining `n` division steps, from bit `degree + n - 1` down. */
  function Remainder(x: word, generator: word, degree: nat, n: nat): word
    requires degree + n <= 32
    decreases n, x
  {
    if n == 0 then x else Remainder(Divide(x, generator, degree, n - 1), generator, degree, n - 1)
  }

  /** Data moved up to make room for its remainder. */
  function Raised(data: word, degree: nat): word
    requires degree < 32
  {
    data << degree
  }

  function Both(data: word, rem: word): word {
    data | rem
  }

  function Stamped(x: word): word {
    x ^ 0x5412
  }

  function FormatWord(ec: EcLevel, mask: nat): word
    requires mask < 8
  {
    var data := Raised(FormatData(ec, mask), 10);
    Stamped(Both(data, Remainder(data, 0x537, 10, 5)))
  }

  function VersionWord(v: word): word {
    var data := Raised(v, 12);
    Both(data, Remainder(data, 0x1f25, 12, 6))
  }

  // ----- What a remainder is

  function Plus(a: word, b: word): word {
    a ^ b
  }

  lemma PlusLaws(a: word, b: word, c: word)
    ensures Plus(Plus(a, b), c) == Plus(a, Plus(b, c)) && Plus(a, b) == Plus(b, a)
    ensures Plus(a, a) == 0 && Plus(a, 0) == a
  {
    hide Plus;
    PlusAssoc(a, b, c);
    PlusComm(a, b);
    PlusSelf(a);
  }

  lemma PlusAssoc(a: word, b: word, c: word)
    ensures Plus(Plus(a, b), c) == Plus(a, Plus(b, c))
  {
  }

  lemma PlusComm(a: word, b: word)
    ensures Plus(a, b) == Plus(b, a)
  {
  }

  lemma PlusSelf(a: word)
    ensures Plus(a, a) == 0 && Plus(a, 0) == a
  {
  }

  /** The product of the generator and the polynomial whose coefficients are `q`, lowest power first. */
  function Times(generator: word, q: Bits): word
    requires |q| <= 32
  {
    if q == [] then 0
    else
      var n := |q| - 1;
      Plus(Times(generator, q[..n]), if q[n] then Raised(generator, n) else 0)
  }

  /** `x` is a multiple of the generator, by a polynomial of `n` coefficients. */
  ghost predicate Multiple(x: word, generator: word, n: nat)
    requires n <= 32
  {
    exists q: Bits :: |q| == n && Times(generator, q) == x
  }

  lemma DivideIs(x: word, generator: word, degree: nat, i: nat)
    requires degree + i < 32
    ensures Divide(x, generator, degree, i) == x || Divide(x, generator, degree, i) == Plus(x, Raised(generator, i))
  {
  }

  lemma {:induction false} RemainderIs(x: word, generator: word, degree: nat, n: nat) returns (q: Bits)
    requires degree + n <= 32
    ensures |q| == n && Times(generator, q) == Plus(x, Remainder(x, generator, degree, n))
    decreases n
  {
    hide Plus, Raised, Divide;
    PlusLaws(x, x, x);
    if n == 0 {
      q := [];
    } else {
      var y := Divide(x, generator, degree, n - 1);
      var rest := RemainderIs(y, generator, degree, n - 1);
      DivideIs(x, generator, degree, n - 1);
      q := rest + [y != x];
      assert q[..n - 1] == rest;
      var r, g := Remainder(y, generator, degree, n - 1), Raised(generator, n - 1);
      PlusSwap(x, g, r);
      PlusLaws(Plus(x, r), 0, 0);
    }
  }

  lemma PlusSwap(x: word, g: word, r: word)
    ensures Plus(Plus(Plus(x, g), r), g) == Plus(x, r)
  {
    hide Plus;
    PlusLaws(x, g, r);
    PlusLaws(g, r, r);
    PlusLaws(x, r, g);
    PlusLaws(Plus(x, r), g, g);
    PlusLaws(g, g, g);
    PlusLaws(Plus(x, r), 0, 0);
  }

  /** A dividend and its remainder differ by a multiple of the generator. */
  lemma RemainderCongruent(x: word, generator: word, degree: nat, n: nat)
    requires degree + n <= 32
    ensures Multiple(Plus(x, Remainder(x, generator, degree, n)), generator, n)
  {
    hide Plus, Remainder, Times;
    var q := RemainderIs(x, generator, degree, n);
  }

  method ComputeRemainder(x: word, generator: word, degree: nat, n: nat) returns (rem: word)
    requires degree + n <= 32
    ensures rem == Remainder(x, generator, degree, n) && Multiple(Plus(x, rem), generator, n)
  {
    hide Divide, Multiple, Plus;
    RemainderCongruent(x, generator, degree, n);
    rem := x;
    var i := n;
    while i > 0
      invariant 0 <= i <= n && Remainder(rem, generator, degree, i) == Remainder(x, generator, degree, n)
    {
      i := i - 1;
      rem := Divide(rem, generator, degree, i);
    }
  }

  // The level and mask with their remainder, under the standard mask: the mask taken off, the word is a multiple
  // of the generator whose high bits are the level and mask.
  method FormatInfoBits(ec: EcLevel, mask: nat) returns (bits: word)
    requires mask < 8
    ensures bits == FormatWord(ec, mask)
    ensures Multiple(Stamped(bits), 0x537, 5) && Lowered(Stamped(bits), 10) == FormatData(ec, mask)
  {
    hide FormatData, Raised, Both, Stamped, Lowered, Plus, Multiple, Remainder;
    var data := Raised(FormatData(ec, mask), 10);
    var rem := ComputeRemainder(data, 0x537, 10, 5);
    bits := Stamped(Both(data, rem));
    FormatDataBound(ec, mask);
    RemainderBounds(FormatData(ec, mask));
    FormatParts(FormatData(ec, mask), rem);
  }

  /** The version in the six high bits of a multiple of the generator. */
  method VersionInfoBits(v: word) returns (bits: word)
    ensures bits == VersionWord(v)
    ensures v < 64 ==> Multiple(bits, 0x1f25, 6) && Lowered(bits, 12) == v
  {
    hide Raised, Both, Lowered, Plus, Multiple, Remainder;
    var data := Raised(v, 12);
    var rem := ComputeRemainder(data, 0x1f25, 12, 6);
    bits := Both(data, rem);
    RemainderBounds(v);
    if v < 64 {
      VersionParts(v, rem);
    }
  }

  function Lowered(x: word, degree: nat): word
    requires degree < 32
  {
    x >> degree
  }

  lemma FormatParts(data: word, rem: word)
    requires data < 32 && rem < 1024
    ensures Stamped(Stamped(Both(Raised(data, 10), rem))) == Plus(Raised(data, 10), rem)
    ensures Lowered(Plus(Raised(data, 10), rem), 10) == data
  {
  }

  lemma VersionParts(v: word, rem: word)
    requires v < 64 && rem < 4096
    ensures Both(Raised(v, 12), rem) == Plus(Raised(v, 12), rem)
    ensures Lowered(Plus(Raised(v, 12), rem), 12) == v
  {
  }

  lemma FormatDataBound(ec: EcLevel, mask: nat)
    requires mask < 8
    ensures FormatData(ec, mask) < 32
  {
    hide LevelCode, MaskCode;
    LevelRead(ec);
    MaskRead(mask);
    DataBound(LevelCode(ec), MaskCode(mask));
  }

  /** `x` has at most `n` bits. */
  predicate Fits(x: word, n: nat)
    requires n < 32
  {
    x < (1 << n)
  }

  /** A step clears the top bit. */
  lemma VersionDivideFits(x: word, i: nat)
    requires i < 6 && Fits(x, 13 + i)
    ensures Fits(Divide(x, 0x1f25, 12, i), 12 + i)
  {
    match i case 0 => case 1 => case 2 => case 3 => case 4 => case _ =>
  }

  lemma FormatDivideFits(x: word, i: nat)
    requires i < 5 && Fits(x, 11 + i)
    ensures Fits(Divide(x, 0x537, 10, i), 10 + i)
  {
    match i case 0 => case 1 => case 2 => case 3 => case _ =>
  }

  lemma {:induction false} VersionRemainderFits(x: word, n: nat)
    requires n <= 6 && Fits(x, 12 + n)
    ensures Fits(Remainder(x, 0x1f25, 12, n), 12)
    decreases n
  {
    hide Divide, Fits;
    if n > 0 {
      VersionDivideFits(x, n - 1);
      VersionRemainderFits(Divide(x, 0x1f25, 12, n - 1), n - 1);
    }
  }

  lemma {:induction false} FormatRemainderFits(x: word, n: nat)
    requires n <= 5 && Fits(x, 10 + n)
    ensures Fits(Remainder(x, 0x537, 10, n), 10)
    decreases n
  {
    hide Divide, Fits;
    if n > 0 {
      FormatDivideFits(x, n - 1);
      FormatRemainderFits(Divide(x, 0x537, 10, n - 1), n - 1);
    }
  }

  lemma RaisedFits(data: word)
    ensures data < 64 ==> Fits(Raised(data, 12), 18)
    ensures data < 32 ==> Fits(Raised(data, 10), 15)
  {
  }

  lemma FitsBelow(x: word)
    ensures (Fits(x, 10) ==> x < 1024) && (Fits(x, 12) ==> x < 4096)
  {
  }

  lemma RemainderBounds(data: word)
    ensures data < 64 ==> Remainder(Raised(data, 12), 0x1f25, 12, 6) < 4096
    ensures data < 32 ==> Remainder(Raised(data, 10), 0x537, 10, 5) < 1024
  {
    hide Raised, Fits, Remainder;
    RaisedFits(data);
    if data < 64 {
      VersionRemainderFits(Raised(data, 12), 6);
      FitsBelow(Remainder(Raised(data, 12), 0x1f25, 12, 6));
    }
    if data < 32 {
      FormatRemainderFits(Raised(data, 10), 5);
      FitsBelow(Remainder(Raised(data, 10), 0x537, 10, 5));
    }
  }

  function BitOf(w: word, i: nat): bool
    requires i < 32
  {
    (w >> i) & 1 == 1
  }

  function WordBits(w: word, n: nat): (bits: Bits)
    requires n <= 32
    ensures |bits| == n
  {
    seq(n, i requires 0 <= i < n => BitOf(w, i))
  }

  function FormatBits(ec: EcLevel, mask: nat): (bits: Bits)
    requires mask < 8
    ensures |bits| == 15
  {
    WordBits(FormatWord(ec, mask), 15)
  }

  // ----- Reading the format

  function LevelOf(high: bool, low: bool): EcLevel {
    if high then (if low then Q else H) else if low then L else M
  }

  function MaskOf(four: bool, two: bool, one: bool): (mask: nat)
    ensures mask < 8
  {
    (if four then 4 else 0) + (if two then 2 else 0) + (if one then 1 else 0)
  }

  lemma LevelRead(ec: EcLevel)
    ensures LevelCode(ec) < 4 && LevelOf(BitOf(LevelCode(ec), 1), BitOf(LevelCode(ec), 0)) == ec
  {
  }

  lemma MaskRead(mask: nat)
    requires mask < 8
    ensures MaskCode(mask) < 8
    ensures MaskOf(BitOf(MaskCode(mask), 2), BitOf(MaskCode(mask), 1), BitOf(MaskCode(mask), 0)) == mask
  {
  }

  /** The top five bits are the data under the mask pattern, whatever the remainder is. */
  lemma TopBits(level: word, mask: word, rem: word)
    requires level < 4 && mask < 8 && rem < 1024
    ensures var w := Stamped(Both(Raised((level << 3) | mask, 10), rem));
            && BitOf(w, 14) == !BitOf(level, 1) && BitOf(w, 13) == BitOf(level, 0)
            && BitOf(w, 12) == !BitOf(mask, 2) && BitOf(w, 11) == BitOf(mask, 1) && BitOf(w, 10) == !BitOf(mask, 0)
  {
  }

  lemma DataBound(level: word, mask: word)
    requires level < 4 && mask < 8
    ensures (level << 3) | mask < 32
  {
  }

  lemma FormatWordTop(ec: EcLevel, mask: nat)
    requires mask < 8 && LevelCode(ec) < 4 && MaskCode(mask) < 8
    ensures var w, l, m := FormatWord(ec, mask), LevelCode(ec), MaskCode(mask);
            && BitOf(w, 14) == !BitOf(l, 1) && BitOf(w, 13) == BitOf(l, 0)
            && BitOf(w, 12) == !BitOf(m, 2) && BitOf(w, 11) == BitOf(m, 1) && BitOf(w, 10) == !BitOf(m, 0)
  {
    hide LevelCode, MaskCode, Raised, Both, Stamped, Remainder, BitOf;
    var l, m := LevelCode(ec), MaskCode(mask);
    DataBound(l, m);
    RemainderBounds(FormatData(ec, mask));
    TopBits(l, m, Remainder(Raised(FormatData(ec, mask), 10), 0x537, 10, 5));
  }

  lemma FormatBitAt(ec: EcLevel, mask: nat, i: nat)
    requires mask < 8 && i < 15
    ensures FormatBits(ec, mask)[i] == BitOf(FormatWord(ec, mask), i)
  {
    hide FormatWord, BitOf;
  }

  /** The level and the mask can be read from the five high bits of the format word. */
  lemma FormatRead(ec: EcLevel, mask: nat)
    requires mask < 8
    ensures var bits := FormatBits(ec, mask);
            && LevelOf(!bits[14], bits[13]) == ec
            && MaskOf(!bits[12], bits[11], !bits[10]) == mask
  {
    hide LevelCode, MaskCode, FormatWord, FormatBits, BitOf, LevelOf, MaskOf;
    LevelRead(ec);
    MaskRead(mask);
    FormatWordTop(ec, mask);
    FormatBitAt(ec, mask, 14);
    FormatBitAt(ec, mask, 13);
    FormatBitAt(ec, mask, 12);
    FormatBitAt(ec, mask, 11);
    FormatBitAt(ec, mask, 10);
  }
}
