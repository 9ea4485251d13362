/** Bounded draws by rejection: which values come out, how often, and where the signed arithmetic overflows. */
module Rng {
  import opened Wrappers
  import opened Words

  const U64: int := 0x1_0000_0000_0000_0000
  const I64_LIMIT: int := 0x8000_0000_0000_0000

  predicate IsU64(x: int) {
    0 <= x < U64
  }

  predicate IsI64(x: int) {
    -I64_LIMIT <= x < I64_LIMIT
  }

  /** A value, an assertion or overflow panic, or no draw accepted before the source ran dry. */
  datatype Outcome = Value(v: int) | Panic | Exhausted

  /** The operating system's source, as the 64-bit words it will deliver. */
  class Source {
    var draws: seq<nat>

    ghost predicate Valid()
      reads this
    {
      forall x :: x in draws ==> IsU64(x)
    }

    constructor (draws: seq<nat>)
      requires forall x :: x in draws ==> IsU64(x)
      ensures Valid() && this.draws == draws
    {
      this.draws := draws;
    }
  }

  function WrappingNeg(x: nat): nat
    requires IsU64(x)
  {
    (U64 - x) % U64
  }

  /** The size of the biased zone at the bottom. */
  function RejectBelow(bound: nat): nat
    requires 0 < bound < U64
  {
    WrappingNeg(bound) % bound
  }

  /** The value of one draw, if it is accepted. */
  function FromDraw(x: nat, bound: nat): Option<nat>
    requires 0 < bound < U64
  {
    if x >= RejectBelow(bound) then Some(x % bound) else None
  }

  /** The value of the first accepted draw, and how many draws were taken. */
  function Below(draws: seq<nat>, bound: nat): (Option<nat>, nat)
    requires 0 < bound < U64
  {
    if draws == [] then (None, 0)
    else if FromDraw(draws[0], bound).Some? then (FromDraw(draws[0], bound), 1)
    else var (v, n) := Below(draws[1..], bound); (v, n + 1)
  }

  lemma {:induction false} BelowIs(draws: seq<nat>, bound: nat)
    requires 0 < bound < U64
    ensures var (v, n) := Below(draws, bound);
            && n <= |draws|
            && (v == None <==> forall k :: 0 <= k < |draws| ==> FromDraw(draws[k], bound) == None)
            && (v.Some? ==> n > 0 && v.value < bound && v == FromDraw(draws[n - 1], bound)
                            && forall k :: 0 <= k < n - 1 ==> FromDraw(draws[k], bound) == None)
    decreases |draws|
  {
    if draws != [] && FromDraw(draws[0], bound) == None {
      BelowIs(draws[1..], bound);
      assert draws == [draws[0]] + draws[1..];
      forall k | 0 < k < |draws|
        ensures draws[k] == draws[1..][k - 1]
      {
      }
    }
  }

  method U64Below(src: Source, bound: nat) returns (r: Outcome)
    requires src.Valid() && IsU64(bound)
    modifies src
    ensures src.Valid()
    ensures bound == 0 ==> r == Panic && src.draws == old(src.draws)
    ensures bound > 0 ==>
              var (v, n) := Below(old(src.draws), bound);
              && n <= |old(src.draws)| && src.draws == old(src.draws)[n..]
              && r == if v.Some? then Value(v.value) else Exhausted
  {
    if bound == 0 {
      return Panic;
    }
    var rejectBelow := WrappingNeg(bound) % bound;
    ghost var all := src.draws;
    ghost var taken := 0;
    BelowIs(all, bound);
    while src.draws != []
      invariant src.Valid() && taken <= |all| && src.draws == all[taken..]
      invariant Below(all, bound) == (Below(src.draws, bound).0, Below(src.draws, bound).1 + taken)
      decreases |src.draws|
    {
      var x := src.draws[0];
      assert all[taken..][1..] == all[taken + 1..];
      src.draws := src.draws[1..];
      taken := taken + 1;
      if x >= rejectBelow {
        return Value(x % bound);
      }
    }
    return Exhausted;
  }

  // ----- Uniformity

  /** What is left above the rejected zone is a whole number of bounds, and at least half of all draws. */
  lemma AcceptedZone(bound: nat)
    requires 0 < bound < U64
    ensures RejectBelow(bound) == 0x1_0000_0000_0000_0000 % bound && RejectBelow(bound) < bound
    ensures (U64 - RejectBelow(bound)) % bound == 0
    ensures 2 * (U64 - RejectBelow(bound)) > U64
  {
    var q, r := (U64 - bound) / bound, (U64 - bound) % bound;
    assert U64 - bound == q * bound + r;
    NextMultiple(q, bound);
    DivUnique(U64, bound, q + 1, r);
    DivMul(q + 1, bound);
  }

  lemma NextMultiple(q: nat, b: nat)
    ensures q * b + b == (q + 1) * b
  {
  }

  ghost function Residues(from: nat, to: int, bound: nat, r: nat): set<nat>
    requires bound > 0
  {
    set x: nat | from <= x < to && x % bound == r
  }

  /** A stretch of `bound` consecutive numbers has each residue once. */
  lemma OneEach(from: nat, bound: nat, r: nat) returns (x: nat)
    requires r < bound
    ensures from <= x < from + bound && x % bound == r
    ensures forall y :: from <= y < from + bound && y % bound == r ==> y == x
  {
    var s, q := from % bound, from / bound;
    assert from == q * bound + s;
    NextMultiple(q, bound);
    if r >= s {
      x := q * bound + r;
      DivUnique(x, bound, q, r);
    } else {
      x := (q + 1) * bound + r;
      DivUnique(x, bound, q + 1, r);
    }
    forall y | from <= y < from + bound && y % bound == r
      ensures y == x
    {
      SameResidue(y, x, bound);
    }
  }

  lemma SameResidue(y: nat, x: nat, m: int)
    requires m > 0 && -m < y - x < m && y % m == x % m
    ensures y == x
  {
    Difference(y / m, x / m, m);
    SmallMultiple(y / m - x / m, m);
  }

  lemma Difference(a: int, b: int, m: int)
    ensures (a - b) * m == a * m - b * m
  {
  }

  lemma {:induction false} ResidueCount(from: nat, n: nat, bound: nat, r: nat)
    requires r < bound
    ensures |Residues(from, from + n * bound, bound, r)| == n
    decreases n
  {
    if n == 0 {
      assert Residues(from, from + n * bound, bound, r) == {};
    } else {
      ResidueCount(from, n - 1, bound, r);
      MulMonotone(0, n - 1, bound);
      var mid := from + (n - 1) * bound;
      NextMultiple(n - 1, bound);
      var x := OneEach(mid, bound, r);
      assert Residues(from, mid + bound, bound, r) == Residues(from, mid, bound, r) + {x};
    }
  }

  /** The draws that yield `r`. */
  ghost function Yielding(bound: nat, r: nat): set<nat>
    requires 0 < bound < U64
  {
    set x: nat | x < U64 && FromDraw(x, bound) == Some(r)
  }

  /** Every value below the bound is yielded by equally many of the 2^64 draws. */
  lemma Uniform(bound: nat, r: nat)
    requires 0 < bound < U64 && r < bound
    ensures |Yielding(bound, r)| == (U64 - RejectBelow(bound)) / bound
  {
    AcceptedZone(bound);
    var n := (U64 - RejectBelow(bound)) / bound;
    assert U64 - RejectBelow(bound) == n * bound;
    ResidueCount(RejectBelow(bound), n, bound, r);
    assert Yielding(bound, r) == Residues(RejectBelow(bound), U64, bound, r);
  }

  // ----- Signed ranges

  /** `x as u64` and `x as i64` keep the low 64 bits. */
  function AsU64(x: int): nat {
    x % U64
  }

  function AsI64(x: int): int {
    var m := x % U64;
    if m < I64_LIMIT then m else m - U64
  }

  /** `lo + (v as i64)` where overflow panics. */
  function CheckedSum(lo: int, v: int): Outcome {
    if IsI64(lo + AsI64(v)) then Value(lo + AsI64(v)) else Panic
  }

  /** The same sum where it wraps. */
  function WrappedSum(lo: int, v: int): int {
    AsI64(lo + AsI64(v))
  }

  /** The sum overflows exactly for offsets of 2^63 and more; wrapping, it is right regardless. */
  lemma SumIs(lo: int, v: nat)
    requires IsI64(lo) && IsI64(lo + v)
    ensures CheckedSum(lo, v) == if v < 0x8000_0000_0000_0000 then Value(lo + v) else Panic
    ensures WrappedSum(lo, v) == lo + v
  {
    if v >= I64_LIMIT {
      DivUnique(v, U64, 0, v);
      var s := lo + (v - U64);
      if lo + v >= 0 {
        DivUnique(s, U64, -1, lo + v);
      } else {
        DivUnique(s, U64, -2, lo + v + U64);
      }
    } else {
      DivUnique(v, U64, 0, v);
      if lo + v >= 0 {
        DivUnique(lo + v, U64, 0, lo + v);
      } else {
        DivUnique(lo + v, U64, -1, lo + v + U64);
      }
    }
  }

  /** `lo + u64_below(span) as i64`, with overflow checks. */
  method Offset(src: Source, lo: int, span: nat) returns (r: Outcome)
    requires src.Valid() && IsI64(lo) && IsU64(span)
    modifies src
    ensures src.Valid()
    ensures span == 0 ==> r == Panic
    ensures span > 0 ==>
              r == match Below(old(src.draws), span).0 case None => Exhausted case Some(v) => CheckedSum(lo, v)
  {
    hide Below;
    var x := U64Below(src, span);
    match x {
      case Value(v) => r := CheckedSum(lo, v);
      case Panic => r := Panic;
      case Exhausted => r := Exhausted;
    }
  }

  /** What a range of `size` values starting at `lo` draws. */
  ghost predicate RangeOutcome(draws: seq<nat>, lo: int, size: nat, r: Outcome)
  {
    && 0 < size <= U64
    && r == if size == U64 then Panic
            else match Below(draws, size).0
                 case None => Exhausted
                 case Some(v) => if v < I64_LIMIT then Value(lo + v) else Panic
  }

  /** Uniform in `[lo, hi]`: panics on the full range, and on offsets of 2^63 and more. */
  method RangeInclI64(src: Source, lo: int, hi: int) returns (r: Outcome)
    requires src.Valid() && IsI64(lo) && IsI64(hi) && lo <= hi
    modifies src
    ensures src.Valid() && RangeOutcome(old(src.draws), lo, hi - lo + 1, r)
  {
    hide Below, CheckedSum;
    ghost var draws := src.draws;
    var span := AsU64(hi - lo + 1);
    SpanIs(hi - lo + 1);
    r := Offset(src, lo, span);
    if span > 0 {
      BelowIs(draws, span);
      if Below(draws, span).0.Some? {
        SumIs(lo, Below(draws, span).0.value);
      }
    }
  }

  lemma SpanIs(size: nat)
    requires 0 < size <= U64
    ensures AsU64(size) == if size == U64 then 0 else size
  {
  }

  /** Uniform in `[lo, hi)`. */
  method RangeExclI64(src: Source, lo: int, hi: int) returns (r: Outcome)
    requires src.Valid() && IsI64(lo) && IsI64(hi) && lo < hi
    modifies src
    ensures src.Valid() && RangeOutcome(old(src.draws), lo, hi - lo, r)
  {
    hide Below, CheckedSum;
    ghost var draws := src.draws;
    var span := AsU64(hi - lo);
    SpanIs(hi - lo);
    r := Offset(src, lo, span);
    BelowIs(draws, span);
    if Below(draws, span).0.Some? {
      SumIs(lo, Below(draws, span).0.value);
    }
  }

  /** Every value of a range narrower than 2^64 is drawn equally often, by draws that give nothing else. */
  lemma RangeUniform(lo: int, size: nat, value: int)
    requires 0 < size < U64 && lo <= value < lo + size
    ensures |set x: nat | x < U64 && FromDraw(x, size).Some? && lo + FromDraw(x, size).value == value|
            == (U64 - RejectBelow(size)) / size
  {
    Uniform(size, value - lo);
    assert (set x: nat | x < U64 && FromDraw(x, size).Some? && lo + FromDraw(x, size).value == value)
        == Yielding(size, value - lo);
  }

  /** A draw can panic exactly when the range holds more than 2^63 values. */
  lemma PanicIff(lo: int, size: nat)
    requires 0 < size <= U64
    ensures (exists draws: seq<nat> :: (forall x :: x in draws ==> IsU64(x)) && RangeOutcome(draws, lo, size, Panic))
            <==> size > I64_LIMIT
  {
    hide RejectBelow;
    if size == U64 {
      assert (forall x :: x in [] ==> IsU64(x)) && RangeOutcome([], lo, size, Panic);
    } else if size > I64_LIMIT {
      SmallReject(size);
      DivUnique(I64_LIMIT, size, 0, I64_LIMIT);
      var draws := [I64_LIMIT];
      assert FromDraw(draws[0], size) == Some(I64_LIMIT);
      assert RangeOutcome(draws, lo, size, Panic);
    } else {
      forall draws | RangeOutcome(draws, lo, size, Panic)
        ensures false
      {
        BelowIs(draws, size);
      }
    }
  }

  lemma SmallReject(size: nat)
    requires I64_LIMIT < size < U64
    ensures RejectBelow(size) <= I64_LIMIT
  {
    AcceptedZone(size);
    DivUnique(U64, size, 1, U64 - size);
  }
}
