// Canonical Huffman codes (RFC 1951, section 3.2.2), as a function of the code lengths alone.
//
// A symbol whose code of length `l` is `c` owns the interval `[c * 2^(m-l), (c+1) * 2^(m-l))` of
// `m`-bit strings. `Kraft(ls, l)` counts the `l`-bit strings owned by the codes of length at most
// `l`; canonical codes are handed out in order, so the intervals follow one another from zero.
module HuffmanCodes {
  import opened Wrappers
  import opened Words
  import opened BitLists

  const MAX_BITS: nat := 15

  /** How many of `ls` equal `l`. */
  function Count(ls: seq<nat>, l: nat): nat {
    if ls == [] then 0 else Count(ls[..|ls| - 1], l) + if ls[|ls| - 1] == l then 1 else 0
  }

  function Kraft(ls: seq<nat>, l: nat): nat {
    if l == 0 then 0 else 2 * Kraft(ls, l - 1) + Count(ls, l)
  }

  /** The longest code length; 0 when no symbol has a code. */
  function MaxLen(ls: seq<nat>): nat {
    if ls == [] then 0
    else
      var m := MaxLen(ls[..|ls| - 1]);
      if ls[|ls| - 1] > m then ls[|ls| - 1] else m
  }

  predicate HasCode(ls: seq<nat>, s: nat) {
    s < |ls| && ls[s] > 0
  }

  /** The code of `s`: those of shorter codes first, then those of equal length in symbol order. */
  function Code(ls: seq<nat>, s: nat): nat
    requires HasCode(ls, s)
  {
    2 * Kraft(ls, ls[s] - 1) + Count(ls[..s], ls[s])
  }

  /** The low `n` bits of `c`, most significant first: the order codes appear in the stream. */
  function MsbBits(c: nat, n: nat): (bits: Bits)
    ensures |bits| == n
  {
    if n == 0 then [] else [Shr(c, n - 1) % 2 == 1] + MsbBits(c, n - 1)
  }

  function CodeBits(ls: seq<nat>, s: nat): (bits: Bits)
    requires HasCode(ls, s)
    ensures |bits| == ls[s]
  {
    MsbBits(Code(ls, s), ls[s])
  }

  /** The codes do not claim more strings than exist. */
  predicate Fits(ls: seq<nat>) {
    Kraft(ls, MaxLen(ls)) <= Pow2(MaxLen(ls))
  }

  predicate Complete(ls: seq<nat>) {
    Kraft(ls, MaxLen(ls)) == Pow2(MaxLen(ls))
  }

  /** The length vectors the decoder takes: no codes at all, a complete code, or a single code. */
  predicate Accepts(ls: seq<nat>) {
    && (forall l :: l in ls ==> l <= MAX_BITS)
    && (MaxLen(ls) == 0 || Complete(ls) || (Fits(ls) && |ls| - Count(ls, 0) == 1))
  }

  /** The symbol whose code the stream starts with, if any. */
  ghost function Lookup(ls: seq<nat>, bits: Bits): (r: Option<nat>)
    ensures r.Some? ==> HasCode(ls, r.value) && CodeBits(ls, r.value) <= bits
    ensures r.None? ==> forall s :: HasCode(ls, s) ==> !(CodeBits(ls, s) <= bits)
  {
    if exists s :: HasCode(ls, s) && CodeBits(ls, s) <= bits
    then var s :| HasCode(ls, s) && CodeBits(ls, s) <= bits; Some(s)
    else None
  }

  // ----- Counting

  lemma {:induction false} CountPrefix(ls: seq<nat>, i: nat, l: nat)
    requires i <= |ls|
    ensures Count(ls[..i], l) <= Count(ls, l)
    ensures i < |ls| && ls[i] == l ==> Count(ls[..i], l) < Count(ls, l)
  {
    if i < |ls| {
      var init := ls[..|ls| - 1];
      assert init[..i] == ls[..i];
      CountPrefix(init, i, l);
    } else {
      assert ls[..i] == ls;
    }
  }

  /** Among symbols of equal length, the later one has the larger rank. */
  lemma RankIncreases(ls: seq<nat>, a: nat, b: nat)
    requires a < b <= |ls|
    ensures Count(ls[..a], ls[a]) < Count(ls[..b], ls[a])
  {
    assert ls[..b][..a] == ls[..a];
    CountPrefix(ls[..b], a, ls[a]);
  }

  lemma {:induction false} MaxLenBounds(ls: seq<nat>)
    ensures forall i :: 0 <= i < |ls| ==> ls[i] <= MaxLen(ls)
    ensures MaxLen(ls) > 0 ==> MaxLen(ls) in ls
  {
    if ls != [] {
      MaxLenBounds(ls[..|ls| - 1]);
    }
  }

  /** `Count` sees exactly the lengths that occur. */
  lemma {:induction false} CountZero(ls: seq<nat>, l: nat)
    ensures Count(ls, l) == 0 <==> l !in ls
  {
    if ls != [] {
      CountZero(ls[..|ls| - 1], l);
      assert ls == ls[..|ls| - 1] + [ls[|ls| - 1]];
    }
  }

  /** The `k`-th symbol of length `l`, in symbol order. */
  lemma {:induction false} NthSymbol(ls: seq<nat>, l: nat, k: nat) returns (s: nat)
    requires k < Count(ls, l)
    ensures s < |ls| && ls[s] == l && Count(ls[..s], l) == k
  {
    var n := |ls| - 1;
    if k < Count(ls[..n], l) {
      s := NthSymbol(ls[..n], l, k);
      assert ls[..n][..s] == ls[..s];
    } else {
      s := n;
    }
  }

  // ----- Most-significant-first bit strings

  lemma {:induction false} MsbSplit(c: nat, k: nat, j: nat)
    ensures MsbBits(c, k + j) == MsbBits(Shr(c, j), k) + MsbBits(c, j)
  {
    if k != 0 {
      MsbSplit(c, k - 1, j);
      ShrShr(c, j, k - 1);
      assert k + j - 1 == k - 1 + j;
    }
  }

  lemma MsbLast(c: nat, n: nat)
    ensures MsbBits(c, n + 1) == MsbBits(c / 2, n) + [c % 2 == 1]
  {
    MsbSplit(c, n, 1);
    assert Shr(c, 1) == c / 2;
    assert MsbBits(c, 1) == [c % 2 == 1];
  }

  lemma {:induction false} MsbInjective(a: nat, b: nat, n: nat)
    requires a < Pow2(n) && b < Pow2(n) && MsbBits(a, n) == MsbBits(b, n)
    ensures a == b
  {
    if n != 0 {
      MsbLast(a, n - 1);
      MsbLast(b, n - 1);
      LastEqual(MsbBits(a / 2, n - 1), a % 2 == 1, MsbBits(b / 2, n - 1), b % 2 == 1);
      MsbInjective(a / 2, b / 2, n - 1);
    }
  }

  lemma LastEqual<T>(s: seq<T>, x: T, t: seq<T>, y: T)
    requires s + [x] == t + [y] && |s| == |t|
    ensures s == t && x == y
  {
    assert (s + [x])[|s|] == (t + [y])[|s|];
    CutAppend(s + [x], s, [x], |s|);
    CutAppend(t + [y], t, [y], |s|);
  }

  // ----- The intervals fit, and follow one another

  lemma {:induction false} KraftGrows(ls: seq<nat>, l: nat, m: nat)
    requires l <= m
    ensures Kraft(ls, l) * Pow2(m - l) <= Kraft(ls, m)
  {
    if l < m {
      KraftGrows(ls, l, m - 1);
      assert Pow2(m - l) == 2 * Pow2(m - 1 - l);
      DoubleProduct(Kraft(ls, l), Pow2(m - 1 - l));
    }
  }

  lemma CancelFactor(a: nat, b: nat, c: nat)
    requires 0 < c && a * c <= b * c
    ensures a <= b
  {
    if b < a {
      MulMonotone(b + 1, a, c);
    }
  }

  lemma KraftFits(ls: seq<nat>, l: nat)
    requires Fits(ls) && l <= MaxLen(ls)
    ensures Kraft(ls, l) <= Pow2(l)
  {
    var m := MaxLen(ls);
    KraftGrows(ls, l, m);
    Pow2Add(l, m - l);
    CancelFactor(Kraft(ls, l), Pow2(l), Pow2(m - l));
  }

  lemma CodeBelowKraft(ls: seq<nat>, s: nat)
    requires HasCode(ls, s)
    ensures Code(ls, s) < Kraft(ls, ls[s])
  {
    CountPrefix(ls, s, ls[s]);
  }

  /** Every code fits in its length. */
  lemma CodeFits(ls: seq<nat>, s: nat)
    requires Fits(ls) && HasCode(ls, s)
    ensures Code(ls, s) < Pow2(ls[s])
  {
    CodeBelowKraft(ls, s);
    MaxLenBounds(ls);
    KraftFits(ls, ls[s]);
  }

  /** The interval of a longer code starts no earlier than the interval of a shorter one ends. */
  lemma IntervalsInOrder(ls: seq<nat>, a: nat, b: nat)
    requires HasCode(ls, a) && HasCode(ls, b) && ls[a] < ls[b]
    ensures (Code(ls, a) + 1) * Pow2(ls[b] - ls[a]) <= Code(ls, b)
  {
    var la, lb := ls[a], ls[b];
    CodeBelowKraft(ls, a);
    KraftGrows(ls, la, lb - 1);
    DoubleProduct(Kraft(ls, la), Pow2(lb - 1 - la));
    MulMonotone(Code(ls, a) + 1, Kraft(ls, la), Pow2(lb - la));
  }

  /** No code is a prefix of another symbol's code. */
  lemma PrefixFree(ls: seq<nat>, a: nat, b: nat)
    requires Fits(ls) && HasCode(ls, a) && HasCode(ls, b) && a != b
    ensures !(CodeBits(ls, a) <= CodeBits(ls, b))
  {
    var la, lb := ls[a], ls[b];
    var ca, cb := Code(ls, a), Code(ls, b);
    if CodeBits(ls, a) <= CodeBits(ls, b) {
      CodeFits(ls, a);
      CodeFits(ls, b);
      MsbSplit(cb, la, lb - la);
      CutAppend(CodeBits(ls, b), MsbBits(Shr(cb, lb - la), la), MsbBits(cb, lb - la), la);
      ShrBound(cb, lb - la, lb);
      MsbInjective(ca, Shr(cb, lb - la), la);
      if la == lb {
        if a < b { RankIncreases(ls, a, b); } else { RankIncreases(ls, b, a); }
      } else {
        IntervalsInOrder(ls, a, b);
        ShrIsDivision(cb, lb - la);
        QuotientAtLeast(cb, Pow2(lb - la), ca + 1);
      }
      assert false;
    }
  }

  lemma QuotientAtLeast(x: nat, m: nat, k: nat)
    requires 0 < m && k * m <= x
    ensures k <= x / m
  {
    var q := x / m;
    assert x < (q + 1) * m;
    if q < k {
      MulMonotone(q + 1, k, m);
    }
  }

  /** At most one symbol's code starts a given stream. */
  lemma LookupUnique(ls: seq<nat>, bits: Bits, s: nat)
    requires Fits(ls) && HasCode(ls, s) && CodeBits(ls, s) <= bits
    ensures Lookup(ls, bits) == Some(s)
  {
    var t := Lookup(ls, bits).value;
    if s != t {
      PrefixFree(ls, s, t);
      PrefixFree(ls, t, s);
      PrefixesCompare(CodeBits(ls, s), CodeBits(ls, t), bits);
      assert false;
    }
  }

  lemma PrefixesCompare<T>(p: seq<T>, q: seq<T>, s: seq<T>)
    requires p <= s && q <= s
    ensures p <= q || q <= p
  {
    if |p| <= |q| {
      assert p == q[..|p|];
    } else {
      assert q == p[..|q|];
    }
  }

  /** The stream that starts with a symbol's code decodes to that symbol, whatever follows. */
  lemma LookupOfCode(ls: seq<nat>, s: nat, rest: Bits)
    requires Fits(ls) && HasCode(ls, s)
    ensures Lookup(ls, CodeBits(ls, s) + rest) == Some(s)
    ensures (CodeBits(ls, s) + rest)[ls[s]..] == rest
  {
    LookupUnique(ls, CodeBits(ls, s) + rest, s);
  }

  // ----- A complete code leaves nothing undecodable

  function MsbValue(bits: Bits): nat {
    if bits == [] then 0
    else 2 * MsbValue(bits[..|bits| - 1]) + if bits[|bits| - 1] then 1 else 0
  }

  lemma {:induction false} MsbOfValue(bits: Bits)
    ensures MsbBits(MsbValue(bits), |bits|) == bits
    ensures MsbValue(bits) < Pow2(|bits|)
  {
    if bits != [] {
      var init := bits[..|bits| - 1];
      MsbOfValue(init);
      MsbLast(MsbValue(bits), |init|);
      assert bits == init + [bits[|bits| - 1]];
    }
  }

  /** Below the end of the intervals of length `l`, some code of length at most `l` has been passed. */
  lemma {:induction false} FindCode(ls: seq<nat>, bits: Bits, l: nat) returns (s: nat)
    requires l < MaxLen(ls) <= |bits|
    requires Kraft(ls, l) <= MsbValue(bits[..l])
    requires MsbValue(bits[..MaxLen(ls)]) < Kraft(ls, MaxLen(ls))
    ensures HasCode(ls, s) && CodeBits(ls, s) <= bits
    decreases MaxLen(ls) - l
  {
    var next := bits[..l + 1];
    assert next[..l] == bits[..l];
    var c := MsbValue(next);
    if c < Kraft(ls, l + 1) {
      s := NthSymbol(ls, l + 1, c - 2 * Kraft(ls, l));
      assert Code(ls, s) == c;
      MsbOfValue(next);
      assert CodeBits(ls, s) == next;
    } else {
      s := FindCode(ls, bits, l + 1);
    }
  }

  lemma {:induction false} StaysBelow(ls: seq<nat>, bits: Bits, l: nat)
    requires l <= MaxLen(ls) <= |bits|
    requires MsbValue(bits[..l]) < Kraft(ls, l)
    ensures MsbValue(bits[..MaxLen(ls)]) < Kraft(ls, MaxLen(ls))
    decreases MaxLen(ls) - l
  {
    if l < MaxLen(ls) {
      assert bits[..l + 1][..l] == bits[..l];
      StaysBelow(ls, bits, l + 1);
    }
  }

  /** A stream starts with a code exactly when its first `MaxLen` bits lie in the union of the intervals. */
  lemma DecodableIff(ls: seq<nat>, bits: Bits)
    requires Fits(ls) && 0 < MaxLen(ls) <= |bits|
    ensures Lookup(ls, bits).Some? <==> MsbValue(bits[..MaxLen(ls)]) < Kraft(ls, MaxLen(ls))
  {
    if MsbValue(bits[..MaxLen(ls)]) < Kraft(ls, MaxLen(ls)) {
      assert bits[..0] == [];
      var s := FindCode(ls, bits, 0);
    }
    if Lookup(ls, bits).Some? {
      var s := Lookup(ls, bits).value;
      CodeFits(ls, s);
      MsbOfValue(bits[..ls[s]]);
      MsbInjective(MsbValue(bits[..ls[s]]), Code(ls, s), ls[s]);
      CodeBelowKraft(ls, s);
      MaxLenBounds(ls);
      StaysBelow(ls, bits, ls[s]);
    }
  }

  /** Under a complete code every long enough stream starts with exactly one code. */
  lemma CompleteDecodes(ls: seq<nat>, bits: Bits)
    requires Complete(ls) && 0 < MaxLen(ls) <= |bits|
    ensures Lookup(ls, bits).Some?
  {
    MsbOfValue(bits[..MaxLen(ls)]);
    DecodableIff(ls, bits);
  }
}
