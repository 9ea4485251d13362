/** Canonical Huffman codes compiled into one flat, bit-reversed lookup table. */
module Huffmans {
  import opened Wrappers
  import opened Words
  import opened BitLists
  import opened BitReaders
  import opened HuffmanCodes

  datatype CodeError = LengthTooLong | OverSubscribed | Incomplete | EmptyCode | InvalidCode | Truncated

  // ----- What a table slot must hold

  /** The low bits of table index `i` are the code of `s`. */
  ghost predicate Matches(ls: seq<nat>, s: nat, i: nat) {
    HasCode(ls, s) && ToBits(i, ls[s]) == CodeBits(ls, s)
  }

  /** `entry` packs the one symbol below `n` that slot `i` decodes to, or is 0 when there is none. */
  ghost predicate Slot(entry: nat, ls: seq<nat>, n: nat, i: nat) {
    if entry == 0 then forall s: nat :: s < n ==> !Matches(ls, s, i)
    else Shr(entry, 16) < n && Matches(ls, Shr(entry, 16), i) && LowBits(entry, 16) == ls[Shr(entry, 16)]
  }

  ghost predicate Slots(table: seq<nat>, ls: seq<nat>, n: nat) {
    forall i :: 0 <= i < |table| ==> Slot(table[i], ls, n, i)
  }

  function Entry(s: nat, len: nat): nat {
    Or(Shl(s, 16, 32), len)
  }

  datatype Huffman = Huffman(table: seq<nat>, bits: nat) {

    /** The table is the compiled form of the canonical code with lengths `ls`. */
    ghost predicate Represents(ls: seq<nat>) {
      && Accepts(ls)
      && bits == MaxLen(ls)
      && |table| == Pow2(bits)
      && Slots(table, ls, |ls|)
    }

    /** Decodes one symbol: the one whose code starts the stream, consuming exactly that code. */
    method Decode(br: BitReader, ghost ls: seq<nat>) returns (r: Result<nat, CodeError>)
      requires br.Valid() && Represents(ls)
      modifies br
      ensures br.Valid()
      ensures match Lookup(ls, old(br.unread))
              case Some(s) => r == Ok(s) && br.unread == old(br.unread)[ls[s]..]
              case None => r.Err? && br.unread == old(br.unread)
    {
      if bits == 0 {
        NoCodes(ls);
        return Err(EmptyCode);
      }
      ShortCodes(ls);
      var idx := br.Peek(bits);
      SlotOfWindow(this, ls, br.unread, idx);
      var entry := table[idx];
      var len := LowBits(entry, 16);
      if len == 0 {
        return Err(InvalidCode);
      }
      var c := br.Consume(len);
      if c.Err? {
        return Err(Truncated);
      }
      return Ok(Shr(entry, 16));
    }
  }

  lemma NoCodes(ls: seq<nat>)
    requires MaxLen(ls) == 0
    ensures forall s: nat :: !HasCode(ls, s)
  {
    MaxLenBounds(ls);
  }

  lemma ShortCodes(ls: seq<nat>)
    requires Accepts(ls)
    ensures MaxLen(ls) <= MAX_BITS && Fits(ls)
    ensures forall s: nat :: HasCode(ls, s) ==> ls[s] <= MaxLen(ls)
  {
    MaxLenBounds(ls);
    if MaxLen(ls) == 0 {
      assert Kraft(ls, 0) == 0;
    }
  }

  /** The slot a peeked window selects tells exactly which code, if any, starts the stream. */
  lemma SlotOfWindow(h: Huffman, ls: seq<nat>, unread: Bits, idx: nat)
    requires h.Represents(ls) && idx == FromBits(Window(unread, h.bits))
    ensures idx < |h.table|
    ensures var entry := h.table[idx]; var len := LowBits(entry, 16);
            match Lookup(ls, unread)
            case Some(s) => s == Shr(entry, 16) && len == ls[s] && 0 < len <= |unread|
            case None => len == 0 || |unread| < len <= 15
  {
    var w := Window(unread, h.bits);
    ToFromBits(w);
    ShortCodes(ls);
    var entry := h.table[idx];
    assert Slot(entry, ls, |ls|, idx);
    match Lookup(ls, unread)
    case Some(s) =>
      WindowPrefix(unread, h.bits, ls[s]);
      MatchIsPrefix(ls, s, idx, h.bits);
      if Shr(entry, 16) != s {
        LookupUnique(ls, w, s);
        MatchIsPrefix(ls, Shr(entry, 16), idx, h.bits);
        LookupUnique(ls, w, Shr(entry, 16));
      }
    case None =>
      if entry != 0 {
        var t := Shr(entry, 16);
        MatchIsPrefix(ls, t, idx, h.bits);
        PrefixOfWindow(CodeBits(ls, t), unread, h.bits);
      } else {
        AndZero(Pow2(16) - 1);
      }
  }

  /** Up to the end of the stream, a window shows the stream itself. */
  lemma WindowPrefix(bits: Bits, n: nat, k: nat)
    requires k <= n && k <= |bits|
    ensures Window(bits, n)[..k] == bits[..k]
  {
  }

  lemma PrefixOfWindow(p: Bits, bits: Bits, n: nat)
    requires p <= Window(bits, n)
    ensures |p| <= |bits| ==> p <= bits
  {
    if |p| <= |bits| {
      WindowPrefix(bits, n, |p|);
    }
  }

  lemma MatchIsPrefix(ls: seq<nat>, s: nat, i: nat, max: nat)
    requires HasCode(ls, s) && ls[s] <= max
    ensures Matches(ls, s, i) <==> CodeBits(ls, s) <= ToBits(i, max)
  {
    ToBitsSplit(i, ls[s], max - ls[s]);
    CutAppend(ToBits(i, max), ToBits(i, ls[s]), ToBits(Shr(i, ls[s]), max - ls[s]), ls[s]);
  }

  /** Two symbols never claim the same slot. */
  lemma SlotsDisjoint(ls: seq<nat>, a: nat, b: nat, i: nat)
    requires Accepts(ls) && Matches(ls, a, i) && Matches(ls, b, i)
    ensures a == b
  {
    ShortCodes(ls);
    var max := MaxLen(ls);
    MatchIsPrefix(ls, a, i, max);
    MatchIsPrefix(ls, b, i, max);
    LookupUnique(ls, ToBits(i, max), a);
    LookupUnique(ls, ToBits(i, max), b);
  }

  /** A complete code fills every slot of its table. */
  lemma CompleteFillsTable(h: Huffman, ls: seq<nat>, i: nat)
    requires h.Represents(ls) && Complete(ls) && h.bits > 0 && i < |h.table|
    ensures h.table[i] != 0
  {
    CompleteDecodes(ls, ToBits(i, h.bits));
    var s := Lookup(ls, ToBits(i, h.bits)).value;
    ShortCodes(ls);
    MatchIsPrefix(ls, s, i, h.bits);
    assert Slot(h.table[i], ls, |ls|, i);
  }

  // ----- Reversing a code

  /** Reverses the low `n` bits of `v`. */
  method ReverseBits(v: nat, n: nat) returns (out: nat)
    ensures ToBits(out, n) == MsbBits(v, n) && out < Pow2(n)
  {
    out := 0;
    ghost var high := 0;
    for i := 0 to n
      invariant high == FromBits(MsbBits(v, i))
      invariant out == high * Pow2(n - i)
    {
      ReverseStep(v, high, i, n);
      out := Or(out, (Shr(v, i) % 2) * Pow2(n - 1 - i));
      high := FromBits(MsbBits(v, i + 1));
    }
    ToFromBits(MsbBits(v, n));
  }

  lemma ReverseStep(v: nat, high: nat, i: nat, n: nat)
    requires i < n && high == FromBits(MsbBits(v, i))
    ensures Or(high * Pow2(n - i), (Shr(v, i) % 2) * Pow2(n - 1 - i)) == FromBits(MsbBits(v, i + 1)) * Pow2(n - 1 - i)
  {
    var bit, p := Shr(v, i) % 2, Pow2(n - 1 - i);
    assert MsbBits(v, i + 1)[1..] == MsbBits(v, i);
    assert FromBits(MsbBits(v, i + 1)) == bit + 2 * high;
    assert Pow2(n - i) == 2 * p;
    OrDisjoint(bit * p, high, n - i);
    OrComm(high * Pow2(n - i), bit * p);
    Distribute(high, bit, p);
  }

  lemma Distribute(high: nat, bit: nat, p: nat)
    ensures high * (2 * p) + bit * p == (bit + 2 * high) * p
  {
  }

  // ----- Building the table

  /** Counts the codes of each length; fails on a length above 15. */
  method CountLengths(lengths: seq<nat>) returns (ok: bool, counts: array<nat>)
    ensures fresh(counts) && counts.Length == MAX_BITS + 1
    ensures ok <==> forall l :: l in lengths ==> l <= MAX_BITS
    ensures ok ==> counts[0] == 0 && forall l :: 1 <= l <= MAX_BITS ==> counts[l] == Count(lengths, l)
  {
    counts := new nat[MAX_BITS + 1](_ => 0);
    for n := 0 to |lengths|
      invariant forall l :: 0 <= l <= MAX_BITS ==> counts[l] == Count(lengths[..n], l)
      invariant forall k :: 0 <= k < n ==> lengths[k] <= MAX_BITS
    {
      if lengths[n] > MAX_BITS {
        assert lengths[n] in lengths;
        return false, counts;
      }
      assert lengths[..n + 1][..n] == lengths[..n];
      counts[lengths[n]] := counts[lengths[n]] + 1;
    }
    assert lengths[..|lengths|] == lengths;
    counts[0] := 0;
    ok := true;
  }

  /** The longest length with a non-zero count. */
  method LongestLength(lengths: seq<nat>, counts: array<nat>) returns (max: nat)
    requires counts.Length == MAX_BITS + 1
    requires forall l :: l in lengths ==> l <= MAX_BITS
    requires forall l :: 1 <= l <= MAX_BITS ==> counts[l] == Count(lengths, l)
    ensures max == MaxLen(lengths) && max <= MAX_BITS
  {
    MaxLenBounds(lengths);
    max := MAX_BITS;
    while max > 0 && counts[max] == 0
      invariant MaxLen(lengths) <= max <= MAX_BITS
    {
      CountZero(lengths, max);
      max := max - 1;
    }
    if max > 0 {
      CountZero(lengths, max);
    }
  }

  /** Codes of length 1 to `l`. */
  function UsedUpTo(ls: seq<nat>, l: nat): nat {
    if l == 0 then 0 else UsedUpTo(ls, l - 1) + Count(ls, l)
  }

  lemma {:induction false} UsedEmpty(l: nat)
    ensures UsedUpTo([], l) == 0
  {
    if l > 0 { UsedEmpty(l - 1); }
  }

  lemma {:induction false} UsedStep(init: seq<nat>, x: nat, l: nat)
    ensures UsedUpTo(init + [x], l) == UsedUpTo(init, l) + if 1 <= x <= l then 1 else 0
  {
    if l > 0 {
      UsedStep(init, x, l - 1);
      assert (init + [x])[..|init|] == init;
    }
  }

  /** Summing the counts of all lengths leaves out only the symbols without a code. */
  lemma {:induction false} UsedIsAll(ls: seq<nat>, max: nat)
    requires forall i :: 0 <= i < |ls| ==> ls[i] <= max
    ensures UsedUpTo(ls, max) == |ls| - Count(ls, 0)
  {
    if ls == [] {
      UsedEmpty(max);
    } else {
      var n := |ls| - 1;
      UsedIsAll(ls[..n], max);
      UsedStep(ls[..n], ls[n], max);
      assert ls == ls[..n] + [ls[n]];
    }
  }

  /** The Kraft check, keeping the number of unclaimed strings in a signed counter. */
  method CheckKraft(lengths: seq<nat>, counts: array<nat>, max: nat) returns (error: Option<CodeError>)
    requires counts.Length == MAX_BITS + 1 && max == MaxLen(lengths) && 1 <= max <= MAX_BITS
    requires forall l :: l in lengths ==> l <= MAX_BITS
    requires forall l :: 1 <= l <= MAX_BITS ==> counts[l] == Count(lengths, l)
    ensures error.None? <==> Accepts(lengths)
    ensures error.Some? ==> error.value == if Fits(lengths) then Incomplete else OverSubscribed
  {
    var left: int := 1;
    var symbolTotal := 0;
    for l := 1 to max + 1
      invariant left == Pow2(l - 1) - Kraft(lengths, l - 1) && 0 <= left
    {
      left := 2 * left - counts[l];
      if left < 0 {
        NeverRecovers(lengths, l);
        return Some(OverSubscribed);
      }
    }
    for l := 1 to max + 1
      invariant symbolTotal == UsedUpTo(lengths, l - 1)
    {
      symbolTotal := symbolTotal + counts[l];
    }
    MaxLenBounds(lengths);
    UsedIsAll(lengths, max);
    if left > 0 && symbolTotal != 1 {
      return Some(Incomplete);
    }
    return None;
  }

  lemma NeverRecovers(ls: seq<nat>, l: nat)
    requires l <= MaxLen(ls) && Kraft(ls, l) > Pow2(l)
    ensures !Fits(ls)
  {
    if Fits(ls) {
      KraftFits(ls, l);
    }
  }

  /** The first code of each length. */
  method FirstCodes(lengths: seq<nat>, counts: array<nat>, max: nat) returns (nextCode: array<nat>)
    requires counts.Length == MAX_BITS + 1 && max == MaxLen(lengths) <= MAX_BITS && counts[0] == 0
    requires forall l :: 1 <= l <= MAX_BITS ==> counts[l] == Count(lengths, l)
    ensures fresh(nextCode) && NextCodes(nextCode[..], lengths, 0)
  {
    nextCode := new nat[MAX_BITS + 2](_ => 0);
    var code := 0;
    for l := 1 to max + 1
      invariant code == if l == 1 then 0 else 2 * Kraft(lengths, l - 2)
      invariant forall k :: 1 <= k < l ==> nextCode[k] == 2 * Kraft(lengths, k - 1)
    {
      code := (code + counts[l - 1]) * 2;
      nextCode[l] := code;
    }
  }

  /** Writes `entry` into every slot congruent to `rev` modulo `step`. */
  method Replicate(table: array<nat>, rev: nat, step: nat, entry: nat)
    requires rev < step
    modifies table
    ensures forall j :: 0 <= j < table.Length ==>
              table[j] == if j % step == rev then entry else old(table[j])
  {
    var i := rev;
    ModSmall(rev, step);
    forall j: nat | j < rev
      ensures j % step != rev
    {
      ModSmall(j, step);
    }
    while i < table.Length
      invariant i % step == rev
      invariant forall j :: i <= j < table.Length ==> table[j] == old(table[j])
      invariant forall j :: 0 <= j < table.Length && j < i ==>
        table[j] == if j % step == rev then entry else old(table[j])
      decreases table.Length - i
    {
      NextSlot(i, step, rev);
      table[i] := entry;
      i := i + step;
    }
  }

  /** The next index with the right residue is one step on, and none lies between. */
  lemma NextSlot(i: nat, step: nat, rev: nat)
    requires rev < step && i % step == rev
    ensures (i + step) % step == rev
    ensures forall j :: i < j < i + step ==> j % step != rev
  {
    var k := i / step;
    DivUnique(i + step, step, k + 1, rev);
    forall j | i < j < i + step
      ensures j % step != rev
    {
      if j % step == rev {
        var q := j / step;
        assert j == q * step + rev && i == k * step + rev;
        assert (q - k) * step == j - i;
        SmallMultiple(q - k, step);
      }
    }
  }

  lemma EntryFields(ls: seq<nat>, sym: nat)
    requires Accepts(ls) && HasCode(ls, sym) && sym < 0x1_0000
    ensures var e := Entry(sym, ls[sym]);
            e != 0 && Shr(e, 16) == sym && LowBits(e, 16) == ls[sym]
  {
    hide Pow2, And, Or, Shr, Low;
    var len := ls[sym];
    assert len in ls;
    Pow2Values();
    Pow2Add(16, 16);
    MulMonotone(sym + 1, Pow2(16), Pow2(16));
    ModSmall(sym * Pow2(16), Pow2(32));
    OrDisjoint(len, sym, 16);
    OrComm(len, sym * Pow2(16));
    var e := len + sym * Pow2(16);
    DivUnique(e, Pow2(16), sym, len);
    ShrIsDivision(e, 16);
    AndMask(e, 16);
    LowIsMod(e, 16);
  }

  lemma SlotsAfter(before: seq<nat>, after: seq<nat>, ls: seq<nat>, sym: nat, rev: nat)
    requires Accepts(ls) && HasCode(ls, sym) && sym < 0x1_0000
    requires ToBits(rev, ls[sym]) == CodeBits(ls, sym) && rev < Pow2(ls[sym])
    requires |before| == |after| && Slots(before, ls, sym)
    requires forall j :: 0 <= j < |after| ==>
               after[j] == if j % Pow2(ls[sym]) == rev then Entry(sym, ls[sym]) else before[j]
    ensures Slots(after, ls, sym + 1)
  {
    forall j | 0 <= j < |after|
      ensures Slot(after[j], ls, sym + 1, j)
    {
      assert Slot(before[j], ls, sym, j);
      SlotAfter(before[j], ls, sym, rev, j);
    }
  }

  /** What one symbol's writes do to a slot. */
  lemma SlotAfter(before: nat, ls: seq<nat>, sym: nat, rev: nat, j: nat)
    requires Accepts(ls) && HasCode(ls, sym) && sym < 0x1_0000
    requires ToBits(rev, ls[sym]) == CodeBits(ls, sym) && rev < Pow2(ls[sym])
    requires Slot(before, ls, sym, j)
    ensures Slot(if j % Pow2(ls[sym]) == rev then Entry(sym, ls[sym]) else before, ls, sym + 1, j)
  {
    var len := ls[sym];
    ToBitsLow(j, len);
    LowIsMod(j, len);
    if j % Pow2(len) == rev {
      EntryFields(ls, sym);
    } else {
      if Matches(ls, sym, j) {
        ToBitsInjective(j % Pow2(len), rev, len);
      }
    }
  }

  /** `next[l]` is the code the next symbol of length `l` gets once `n` symbols are done. */
  ghost predicate NextCodes(next: seq<nat>, ls: seq<nat>, n: nat) {
    && |next| == MAX_BITS + 2 && n <= |ls|
    && forall l :: 1 <= l <= MaxLen(ls) && l <= MAX_BITS ==> next[l] == 2 * Kraft(ls, l - 1) + Count(ls[..n], l)
  }

  lemma NextCodesStep(next: seq<nat>, ls: seq<nat>, n: nat)
    requires NextCodes(next, ls, n) && n < |ls| && ls[n] <= MAX_BITS
    ensures ls[n] == 0 ==> NextCodes(next, ls, n + 1)
    ensures NextCodes(next[ls[n] := next[ls[n]] + 1], ls, n + 1)
  {
    assert ls[..n + 1][..n] == ls[..n];
  }

  method WriteSymbol(table: array<nat>, ghost ls: seq<nat>, sym: nat, len: nat, code: nat)
    requires Accepts(ls) && HasCode(ls, sym) && len == ls[sym] && sym < 0x1_0000
    requires code == Code(ls, sym) && Slots(table[..], ls, sym)
    modifies table
    ensures Slots(table[..], ls, sym + 1)
  {
    var rev := ReverseBits(code, len);
    Replicate(table, rev, Pow2(len), Entry(sym, len));
    SlotsAfter(old(table[..]), table[..], ls, sym, rev);
  }

  /** Adds every symbol of the code to an empty table. */
  method FillTable(lengths: seq<nat>, nextCode: array<nat>, max: nat) returns (table: array<nat>)
    requires Accepts(lengths) && max == MaxLen(lengths) && |lengths| <= 0x1_0000
    requires NextCodes(nextCode[..], lengths, 0)
    modifies nextCode
    ensures fresh(table) && table.Length == Pow2(max) && Slots(table[..], lengths, |lengths|)
  {
    ShortCodes(lengths);
    table := new nat[Pow2(max)](_ => 0);
    for sym := 0 to |lengths|
      invariant Slots(table[..], lengths, sym)
      invariant NextCodes(nextCode[..], lengths, sym)
    {
      var len := lengths[sym];
      assert len in lengths;
      NextCodesStep(nextCode[..], lengths, sym);
      if len == 0 {
        WithoutCode(table[..], lengths, sym);
        continue;
      }
      assert HasCode(lengths, sym);
      var code := nextCode[len];
      nextCode[len] := nextCode[len] + 1;
      WriteSymbol(table, lengths, sym, len, code);
    }
  }

  lemma WithoutCode(table: seq<nat>, ls: seq<nat>, sym: nat)
    requires !HasCode(ls, sym) && Slots(table, ls, sym)
    ensures Slots(table, ls, sym + 1)
  {
    forall i | 0 <= i < |table|
      ensures Slot(table[i], ls, sym + 1, i)
    {
      assert Slot(table[i], ls, sym, i);
    }
  }

  // Compiles a code from its lengths. Symbols are packed into 16 bits and the length counters are
  // 16 bits wide, hence the bound on the number of symbols.
  method New(lengths: seq<nat>) returns (r: Result<Huffman, CodeError>)
    requires |lengths| < 0x1_0000
    ensures r.Ok? <==> Accepts(lengths)
    ensures r.Ok? ==> r.value.Represents(lengths)
    ensures r == Err(LengthTooLong) <==> exists l :: l in lengths && l > 15
    ensures r == Err(OverSubscribed) <==> (forall l :: l in lengths ==> l <= 15) && !Fits(lengths)
  {
    var ok, counts := CountLengths(lengths);
    if !ok {
      return Err(LengthTooLong);
    }
    var max := LongestLength(lengths, counts);
    if max == 0 {
      NoCodes(lengths);
      return Ok(Huffman([0], 0));
    }
    var e := CheckKraft(lengths, counts, max);
    if e.Some? {
      return Err(e.value);
    }
    var nextCode := FirstCodes(lengths, counts, max);
    var table := FillTable(lengths, nextCode, max);
    return Ok(Huffman(table[..], max));
  }
}
