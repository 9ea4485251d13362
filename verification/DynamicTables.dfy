/** The run-length-coded code tables of a dynamic block (RFC 1951, section 3.2.7). */
module DynamicTables {
  import opened Sequences
  import opened Wrappers
  import opened Words
  import opened BitLists
  import opened HuffmanCodes
  import opened Huffmans
  import opened Deflate

  const CLEN_ORDER: seq<nat> := [16, 17, 18, 0, 8, 7, 9, 6, 10, 5, 11, 4, 12, 3, 13, 2, 14, 1, 15]
  /** Where each code-length symbol stands in `CLEN_ORDER`. */
  const CLEN_PLACE: seq<nat> := [3, 17, 15, 13, 11, 9, 7, 5, 4, 6, 8, 10, 12, 14, 16, 18, 0, 1, 2]

  function Order(k: nat): (s: nat)
    requires k < 19
    ensures s < 19
  {
    CLEN_ORDER[k]
  }

  function Place(s: nat): (k: nat)
    requires s < 19
    ensures k < 19
  {
    CLEN_PLACE[s]
  }

  lemma OrderIsPermutation(i: nat)
    requires i < 19
    ensures Place(Order(i)) == i && Order(Place(i)) == i
  {
  }

  // The three repeat codes, then zero, then outwards from 8 by turns: one up, one down (RFC 1951, section 3.2.7).
  lemma OrderRule(k: nat)
    requires k < 19
    ensures k < 3 ==> Order(k) == 16 + k
    ensures k == 3 ==> Order(k) == 0
    ensures k >= 4 && k % 2 == 0 ==> Order(k) == 8 + (k - 4) / 2
    ensures k >= 4 && k % 2 == 1 ==> Order(k) == 8 - (k - 3) / 2
  {
    if k < 7 {
    } else if k < 13 {
    } else {
    }
  }

  // ----- Tokens of the run-length code

  datatype ClToken = Len(l: nat) | Repeat(n: nat) | Zeros(n: nat) | LongZeros(n: nat)

  predicate ClValid(t: ClToken) {
    match t
    case Len(l) => l <= 15
    case Repeat(n) => 3 <= n <= 6
    case Zeros(n) => 3 <= n <= 10
    case LongZeros(n) => 11 <= n <= 138
  }

  function ClSymbol(t: ClToken): nat {
    match t case Len(l) => l case Repeat(_) => 16 case Zeros(_) => 17 case LongZeros(_) => 18
  }

  function ClExtra(t: ClToken): Bits
    requires ClValid(t)
  {
    match t
    case Len(_) => []
    case Repeat(n) => ToBits(n - 3, 2)
    case Zeros(n) => ToBits(n - 3, 3)
    case LongZeros(n) => ToBits(n - 11, 7)
  }

  predicate ClEncodable(cl: seq<nat>, t: ClToken) {
    ClValid(t) && HasCode(cl, ClSymbol(t))
  }

  predicate AllClEncodable(cl: seq<nat>, ts: seq<ClToken>) {
    forall i :: 0 <= i < |ts| ==> ClEncodable(cl, ts[i])
  }

  function EncodeCl(cl: seq<nat>, ts: seq<ClToken>): Bits
    requires AllClEncodable(cl, ts)
  {
    if ts == [] then [] else (CodeBits(cl, ClSymbol(ts[0])) + ClExtra(ts[0])) + EncodeCl(cl, ts[1..])
  }

  /** What a token appends to the lengths; a repeat needs a previous length. */
  function ApplyCl(acc: seq<nat>, t: ClToken): (r: Option<seq<nat>>)
    ensures ClValid(t) && r.Some? ==> |acc| < |r.value|
  {
    match t
    case Len(l) => Some(acc + [l])
    case Repeat(n) => if acc == [] then None else Some(acc + Fill(acc[|acc| - 1], n))
    case Zeros(n) => Some(acc + Fill(0, n))
    case LongZeros(n) => Some(acc + Fill(0, n))
  }

  function ExpandCl(acc: seq<nat>, ts: seq<ClToken>): Option<seq<nat>>
    decreases |ts|
  {
    if ts == [] then Some(acc)
    else match ApplyCl(acc, ts[0])
      case None => None
      case Some(a) => ExpandCl(a, ts[1..])
  }

  // ----- The decoder

  ghost function NextCl(cl: seq<nat>, bits: Bits): (r: Option<(ClToken, Bits)>)
    ensures r.Some? ==> ClValid(r.value.0) && |r.value.1| <= |bits|
  {
    match Lookup(cl, bits)
    case None => None
    case Some(s) =>
      var rest := bits[cl[s]..];
      if s <= 15 then Some((Len(s), rest))
      else if s == 16 then TakeRun(rest, 2, 3)
      else if s == 17 then TakeRun(rest, 3, 3)
      else if s == 18 then TakeRun(rest, 7, 11)
      else None
  }

  function TakeRun(bits: Bits, width: nat, least: nat): (r: Option<(ClToken, Bits)>)
    requires (width, least) in {(2, 3), (3, 3), (7, 11)}
    ensures r.Some? ==> ClValid(r.value.0) && |r.value.1| <= |bits|
  {
    match TakeBits(bits, width)
    case None => None
    case Some((v, rest)) =>
      TakeSound(bits, width);
      Pow2Values();
      Some((RunToken(width, least + v), rest))
  }

  function RunToken(width: nat, n: nat): ClToken {
    if width == 2 then Repeat(n) else if width == 3 then Zeros(n) else LongZeros(n)
  }

  /** Reads tokens until exactly `total` lengths are known. */
  ghost function ReadLengths(cl: seq<nat>, bits: Bits, acc: seq<nat>, total: nat): (r: Option<(seq<nat>, Bits)>)
    requires |acc| <= total
    ensures r.Some? ==> |r.value.0| == total && |r.value.1| <= |bits|
    decreases total - |acc|
  {
    if |acc| == total then Some((acc, bits))
    else match NextCl(cl, bits)
      case None => None
      case Some((t, rest)) =>
        match ApplyCl(acc, t)
        case None => None
        case Some(a) => if |a| > total then None else ReadLengths(cl, rest, a, total)
  }

  ghost function ReadClens(bits: Bits, k: nat, hclen: nat, clens: seq<nat>): (r: Option<(seq<nat>, Bits)>)
    requires k <= hclen <= 19 && |clens| == 19
    ensures r.Some? ==> |r.value.0| == 19 && |r.value.1| <= |bits|
    decreases hclen - k
  {
    if k == hclen then Some((clens, bits))
    else match TakeBits(bits, 3)
      case None => None
      case Some((v, rest)) => ReadClens(rest, k + 1, hclen, clens[Order(k) := v])
  }

  /** The two codes after the three counts and the code-length code. */
  ghost function CountedTables(hlit: nat, hdist: nat, hclen: nat, bits: Bits): (r: Option<((seq<nat>, seq<nat>), Bits)>)
    requires hclen <= 19
    ensures r.Some? ==> |r.value.1| <= |bits| && Accepts(r.value.0.0) && Accepts(r.value.0.1)
    ensures r.Some? ==> |r.value.0.0| == hlit && |r.value.0.1| == hdist
  {
    match ReadClens(bits, 0, hclen, Fill(0, 19))
    case None => None
    case Some((clens, r1)) =>
      if !Accepts(clens) then None
      else match ReadLengths(clens, r1, [], hlit + hdist)
        case None => None
        case Some((ls, r2)) =>
          if Accepts(ls[..hlit]) && Accepts(ls[hlit..]) then Some(((ls[..hlit], ls[hlit..]), r2)) else None
  }

  ghost function ReadTables(bits: Bits): (r: Option<((seq<nat>, seq<nat>), Bits)>)
    ensures r.Some? ==> |r.value.1| <= |bits| && Accepts(r.value.0.0) && Accepts(r.value.0.1)
  {
    match TakeBits(bits, 5)
    case None => None
    case Some((a, r1)) =>
      match TakeBits(r1, 5)
      case None => None
      case Some((b, r2)) =>
        match TakeBits(r2, 4)
        case None => None
        case Some((c, r3)) =>
          if a + 257 > 286 || b + 1 > 30 then None
          else
            TakeSound(r2, 4);
            Pow2Values();
            CountedTables(a + 257, b + 1, c + 4, r3)
  }

  // ----- Headers and their bits

  /** A dynamic block header: the code-length code, the tokens, and the two codes they spell out. */
  datatype Header = Header(hclen: nat, clens: seq<nat>, tokens: seq<ClToken>, lit: seq<nat>, dist: seq<nat>)

  predicate ValidHeader(h: Header) {
    && 257 <= |h.lit| <= 286 && 1 <= |h.dist| <= 30 && 4 <= h.hclen <= 19
    && ValidClens(h.clens, h.hclen) && Accepts(h.clens)
    && AllClEncodable(h.clens, h.tokens)
    && ExpandCl([], h.tokens) == Some(h.lit + h.dist)
    && Accepts(h.lit) && Accepts(h.dist)
  }

  /** Three bits each, and zero for the symbols whose length is not transmitted. */
  predicate ValidClens(clens: seq<nat>, hclen: nat) {
    && |clens| == 19 && hclen <= 19
    && (forall k :: 0 <= k < hclen ==> clens[Order(k)] < 8)
    && forall k :: hclen <= k < 19 ==> clens[Order(k)] == 0
  }

  function ClenBits(clens: seq<nat>, k: nat, hclen: nat): Bits
    requires k <= hclen <= 19 && |clens| == 19
    decreases hclen - k
  {
    if k == hclen then [] else ToBits(clens[Order(k)], 3) + ClenBits(clens, k + 1, hclen)
  }

  function HeaderBits(h: Header): Bits
    requires ValidHeader(h)
  {
    ToBits(|h.lit| - 257, 5) + (ToBits(|h.dist| - 1, 5) + (ToBits(h.hclen - 4, 4) +
      (ClenBits(h.clens, 0, h.hclen) + EncodeCl(h.clens, h.tokens))))
  }

  // ----- Reading undoes writing

  lemma RunOfBits(v: nat, width: nat, least: nat, rest: Bits)
    requires (width, least) in {(2, 3), (3, 3), (7, 11)} && v < Pow2(width)
    ensures TakeRun(ToBits(v, width) + rest, width, least) == Some((RunToken(width, least + v), rest))
  {
    hide ToBits, TakeBits, Pow2, RunToken;
    TakeOfBits(v, width, rest);
  }

  lemma ExtraOfToken(t: ClToken, rest: Bits)
    requires ClValid(t) && !t.Len?
    ensures TakeRun(ClExtra(t) + rest, if t.Repeat? then 2 else if t.Zeros? then 3 else 7, if t.LongZeros? then 11 else 3)
            == Some((t, rest))
  {
    hide ToBits, TakeRun, Pow2;
    Pow2Values();
    match t
    case Repeat(n) => RunOfBits(n - 3, 2, 3, rest);
    case Zeros(n) => RunOfBits(n - 3, 3, 3, rest);
    case LongZeros(n) => RunOfBits(n - 11, 7, 11, rest);
  }

  lemma ClOfToken(cl: seq<nat>, t: ClToken, rest: Bits)
    requires Fits(cl) && ClEncodable(cl, t)
    ensures NextCl(cl, (CodeBits(cl, ClSymbol(t)) + ClExtra(t)) + rest) == Some((t, rest))
  {
    hide TakeRun, ToBits;
    AppendAssoc(CodeBits(cl, ClSymbol(t)), ClExtra(t), rest);
    LookupOfCode(cl, ClSymbol(t), ClExtra(t) + rest);
    if t.Len? {
      assert ClExtra(t) + rest == rest;
    } else {
      ExtraOfToken(t, rest);
    }
  }

  lemma ExtraSound(bits: Bits, width: nat, least: nat)
    requires (width, least) in {(2, 3), (3, 3), (7, 11)} && TakeRun(bits, width, least).Some?
    ensures var (t, rest) := TakeRun(bits, width, least).value;
            bits == ClExtra(t) + rest && ClSymbol(t) == if width == 2 then 16 else if width == 3 then 17 else 18
  {
    TakeSound(bits, width);
  }

  lemma ClSound(cl: seq<nat>, bits: Bits)
    requires NextCl(cl, bits).Some?
    ensures var (t, rest) := NextCl(cl, bits).value;
            ClEncodable(cl, t) && bits == (CodeBits(cl, ClSymbol(t)) + ClExtra(t)) + rest
  {
    hide TakeRun, ToBits;
    var s := Lookup(cl, bits).value;
    var tail := bits[cl[s]..];
    assert bits == CodeBits(cl, s) + tail;
    var (t, rest) := NextCl(cl, bits).value;
    if s == 16 {
      ExtraSound(tail, 2, 3);
    } else if s == 17 {
      ExtraSound(tail, 3, 3);
    } else if s == 18 {
      ExtraSound(tail, 7, 11);
    } else {
      assert tail == ClExtra(t) + rest;
    }
    AppendAssoc(CodeBits(cl, s), ClExtra(t), rest);
  }

  lemma {:induction false} ExpandClGrows(acc: seq<nat>, ts: seq<ClToken>)
    requires (forall i :: 0 <= i < |ts| ==> ClValid(ts[i])) && ExpandCl(acc, ts).Some?
    ensures |acc| + |ts| <= |ExpandCl(acc, ts).value|
    decreases |ts|
  {
    if ts != [] {
      assert ClValid(ts[0]);
      ExpandClGrows(ApplyCl(acc, ts[0]).value, ts[1..]);
    }
  }

  /** Any run-length encoding of exactly `total` lengths reads back as those lengths. */
  lemma {:induction false} LengthsOfTokens(cl: seq<nat>, ts: seq<ClToken>, acc: seq<nat>, total: nat, rest: Bits)
    requires Fits(cl) && AllClEncodable(cl, ts)
    requires ExpandCl(acc, ts).Some? && |ExpandCl(acc, ts).value| == total && |acc| <= total
    ensures ReadLengths(cl, EncodeCl(cl, ts) + rest, acc, total) == Some((ExpandCl(acc, ts).value, rest))
    decreases |ts|
  {
    ExpandClGrows(acc, ts);
    if ts == [] {
      assert EncodeCl(cl, ts) + rest == rest;
    } else {
      var head, tail := CodeBits(cl, ClSymbol(ts[0])) + ClExtra(ts[0]), EncodeCl(cl, ts[1..]);
      AppendAssoc(head, tail, rest);
      ClOfToken(cl, ts[0], tail + rest);
      var a := ApplyCl(acc, ts[0]).value;
      ExpandClGrows(a, ts[1..]);
      LengthsOfTokens(cl, ts[1..], a, total, rest);
    }
  }

  lemma {:induction false} LengthsSound(cl: seq<nat>, bits: Bits, acc: seq<nat>, total: nat) returns (ts: seq<ClToken>)
    requires |acc| <= total && ReadLengths(cl, bits, acc, total).Some?
    ensures AllClEncodable(cl, ts)
    ensures var (ls, rest) := ReadLengths(cl, bits, acc, total).value;
            ExpandCl(acc, ts) == Some(ls) && bits == EncodeCl(cl, ts) + rest
    decreases total - |acc|
  {
    if |acc| == total {
      ts := [];
      assert EncodeCl(cl, []) + bits == bits;
    } else {
      ClSound(cl, bits);
      var (t, next) := NextCl(cl, bits).value;
      var tail := LengthsSound(cl, next, ApplyCl(acc, t).value, total);
      ts := [t] + tail;
      assert ts[1..] == tail;
      AppendAssoc(CodeBits(cl, ClSymbol(t)) + ClExtra(t), EncodeCl(cl, tail), ReadLengths(cl, bits, acc, total).value.1);
    }
  }

  /** `acc` agrees with `clens` on the first `k` transmitted symbols and is zero elsewhere. */
  predicate ClensUpTo(acc: seq<nat>, clens: seq<nat>, k: nat) {
    && |acc| == |clens| == 19 && k <= 19
    && forall j :: 0 <= j < 19 ==> acc[Order(j)] == if j < k then clens[Order(j)] else 0
  }

  lemma ClensStep(acc: seq<nat>, clens: seq<nat>, k: nat)
    requires ClensUpTo(acc, clens, k) && k < 19
    ensures ClensUpTo(acc[Order(k) := clens[Order(k)]], clens, k + 1)
  {
    hide Order, Place;
    var next := acc[Order(k) := clens[Order(k)]];
    forall j | 0 <= j < 19
      ensures next[Order(j)] == if j < k + 1 then clens[Order(j)] else 0
    {
      OrderIsPermutation(j);
      OrderIsPermutation(k);
    }
  }

  lemma ClensComplete(acc: seq<nat>, clens: seq<nat>, hclen: nat)
    requires ClensUpTo(acc, clens, hclen) && ValidClens(clens, hclen)
    ensures acc == clens
  {
    hide Order, Place;
    forall i | 0 <= i < 19
      ensures acc[i] == clens[i]
    {
      OrderIsPermutation(i);
      assert acc[Order(Place(i))] == clens[Order(Place(i))];
    }
  }

  lemma {:induction false} ClensOfBits(clens: seq<nat>, k: nat, hclen: nat, acc: seq<nat>, rest: Bits)
    requires ValidClens(clens, hclen) && k <= hclen && ClensUpTo(acc, clens, k)
    ensures ReadClens(ClenBits(clens, k, hclen) + rest, k, hclen, acc) == Some((clens, rest))
    decreases hclen - k
  {
    hide Order, ToBits;
    if k == hclen {
      ClensComplete(acc, clens, hclen);
      assert ClenBits(clens, k, hclen) + rest == rest;
    } else {
      var tail := ClenBits(clens, k + 1, hclen);
      AppendAssoc(ToBits(clens[Order(k)], 3), tail, rest);
      assert Pow2(3) == 8;
      TakeOfBits(clens[Order(k)], 3, tail + rest);
      ClensStep(acc, clens, k);
      ClensOfBits(clens, k + 1, hclen, acc[Order(k) := clens[Order(k)]], rest);
    }
  }

  /** Slots outside the ones still to be read keep their value. */
  lemma {:induction false} ClensKept(bits: Bits, k: nat, hclen: nat, acc: seq<nat>)
    requires k <= hclen <= 19 && |acc| == 19 && ReadClens(bits, k, hclen, acc).Some?
    ensures forall j :: 0 <= j < k || hclen <= j < 19 ==> ReadClens(bits, k, hclen, acc).value.0[Order(j)] == acc[Order(j)]
    decreases hclen - k
  {
    hide Order, Place;
    if k < hclen {
      var (v, rest) := TakeBits(bits, 3).value;
      var next := acc[Order(k) := v];
      ClensKept(rest, k + 1, hclen, next);
      forall j | 0 <= j < k || hclen <= j < 19
        ensures next[Order(j)] == acc[Order(j)]
      {
        OrderIsPermutation(j);
        OrderIsPermutation(k);
      }
    }
  }

  lemma {:induction false} ClensSound(bits: Bits, k: nat, hclen: nat, acc: seq<nat>)
    requires k <= hclen <= 19 && |acc| == 19 && ReadClens(bits, k, hclen, acc).Some?
    ensures var (clens, rest) := ReadClens(bits, k, hclen, acc).value;
            && bits == ClenBits(clens, k, hclen) + rest
            && forall j :: k <= j < hclen ==> clens[Order(j)] < 8
    decreases hclen - k
  {
    hide Order, ToBits;
    var (clens, rest) := ReadClens(bits, k, hclen, acc).value;
    if k == hclen {
      assert ClenBits(clens, k, hclen) + rest == rest;
    } else {
      TakeSound(bits, 3);
      assert Pow2(3) == 8;
      var (v, next) := TakeBits(bits, 3).value;
      ClensKept(next, k + 1, hclen, acc[Order(k) := v]);
      assert clens[Order(k)] == v;
      ClensSound(next, k + 1, hclen, acc[Order(k) := v]);
      AppendAssoc(ToBits(v, 3), ClenBits(clens, k + 1, hclen), rest);
    }
  }

  lemma FitsOfAccepts(ls: seq<nat>)
    requires Accepts(ls)
    ensures Fits(ls)
  {
    ShortCodes(ls);
  }

  lemma NoClensYet(clens: seq<nat>)
    requires |clens| == 19
    ensures ClensUpTo(Fill(0, 19), clens, 0)
  {
  }

  /** What follows the counts in a header reads back as the two codes. */
  lemma CountedTablesOfHeader(h: Header, rest: Bits)
    requires ValidHeader(h)
    ensures CountedTables(|h.lit|, |h.dist|, h.hclen,
                          ClenBits(h.clens, 0, h.hclen) + (EncodeCl(h.clens, h.tokens) + rest))
            == Some(((h.lit, h.dist), rest))
  {
    hide Order, ToBits, Accepts, EncodeCl, ClenBits, ReadClens, ReadLengths, ExpandCl, Fill;
    FitsOfAccepts(h.clens);
    NoClensYet(h.clens);
    ClensOfBits(h.clens, 0, h.hclen, Fill(0, 19), EncodeCl(h.clens, h.tokens) + rest);
    LengthsOfTokens(h.clens, h.tokens, [], |h.lit| + |h.dist|, rest);
    CutAppend(h.lit + h.dist, h.lit, h.dist, |h.lit|);
  }

  lemma Append5<T>(a: seq<T>, b: seq<T>, c: seq<T>, d: seq<T>, e: seq<T>, f: seq<T>)
    ensures a + (b + (c + (d + e))) + f == a + (b + (c + (d + (e + f))))
  {
  }

  /** A dynamic header reads back as the two codes it describes, and nothing more is consumed. */
  lemma TablesOfHeader(h: Header, rest: Bits)
    requires ValidHeader(h)
    ensures ReadTables(HeaderBits(h) + rest) == Some(((h.lit, h.dist), rest))
  {
    hide ToBits, ClenBits, EncodeCl, CountedTables;
    CountedTablesOfHeader(h, rest);
    Pow2Values();
    var a, b, c := ToBits(|h.lit| - 257, 5), ToBits(|h.dist| - 1, 5), ToBits(h.hclen - 4, 4);
    var d, e := ClenBits(h.clens, 0, h.hclen), EncodeCl(h.clens, h.tokens);
    Append5(a, b, c, d, e, rest);
    TakeOfBits(|h.lit| - 257, 5, b + (c + (d + (e + rest))));
    TakeOfBits(|h.dist| - 1, 5, c + (d + (e + rest)));
    TakeOfBits(h.hclen - 4, 4, d + (e + rest));
  }

  lemma ZerosElsewhere(clens: seq<nat>, hclen: nat)
    requires |clens| == 19 && hclen <= 19
    requires forall j :: 0 <= j < hclen ==> clens[Order(j)] < 8
    requires forall j :: hclen <= j < 19 ==> clens[Order(j)] == Fill(0, 19)[Order(j)]
    ensures ValidClens(clens, hclen)
  {
    hide Order;
  }

  lemma CountedTablesSound(hlit: nat, hdist: nat, hclen: nat, bits: Bits) returns (h: Header)
    requires 257 <= hlit <= 286 && 1 <= hdist <= 30 && 4 <= hclen <= 19
    requires CountedTables(hlit, hdist, hclen, bits).Some?
    ensures ValidHeader(h) && h.hclen == hclen && |h.lit| == hlit && |h.dist| == hdist
    ensures var (codes, rest) := CountedTables(hlit, hdist, hclen, bits).value;
            (h.lit, h.dist) == codes &&
            bits == ClenBits(h.clens, 0, h.hclen) + (EncodeCl(h.clens, h.tokens) + rest)
  {
    hide Order, Fill, ToBits, Accepts, EncodeCl, ClenBits, ReadClens, ReadLengths, ExpandCl;
    ClensSound(bits, 0, hclen, Fill(0, 19));
    ClensKept(bits, 0, hclen, Fill(0, 19));
    var (clens, r1) := ReadClens(bits, 0, hclen, Fill(0, 19)).value;
    var tokens := LengthsSound(clens, r1, [], hlit + hdist);
    var ls := ReadLengths(clens, r1, [], hlit + hdist).value.0;
    assert ls == ls[..hlit] + ls[hlit..];
    ZerosElsewhere(clens, hclen);
    h := Header(hclen, clens, tokens, ls[..hlit], ls[hlit..]);
  }

  /** The three counts and what follows them. */
  lemma CountsSound(bits: Bits) returns (a: nat, b: nat, c: nat, rest: Bits)
    requires ReadTables(bits).Some?
    ensures a <= 29 && b <= 29 && c < 16
    ensures ReadTables(bits) == CountedTables(a + 257, b + 1, c + 4, rest)
    ensures bits == ToBits(a, 5) + (ToBits(b, 5) + (ToBits(c, 4) + rest))
  {
    hide ToBits, CountedTables, TakeBits;
    Pow2Values();
    TakeSound(bits, 5);
    var r1 := TakeBits(bits, 5).value.1;
    TakeSound(r1, 5);
    var r2 := TakeBits(r1, 5).value.1;
    TakeSound(r2, 4);
    a, b, c, rest := TakeBits(bits, 5).value.0, TakeBits(r1, 5).value.0, TakeBits(r2, 4).value.0, TakeBits(r2, 4).value.1;
  }

  /** Whatever is accepted as a dynamic header is one, for the codes returned. */
  lemma TablesSound(bits: Bits) returns (h: Header)
    requires ReadTables(bits).Some?
    ensures ValidHeader(h)
    ensures var (codes, rest) := ReadTables(bits).value;
            (h.lit, h.dist) == codes && bits == HeaderBits(h) + rest
  {
    hide ToBits, ClenBits, EncodeCl, CountedTables;
    var a, b, c, r3 := CountsSound(bits);
    h := CountedTablesSound(a + 257, b + 1, c + 4, r3);
    Append5(ToBits(a, 5), ToBits(b, 5), ToBits(c, 4), ClenBits(h.clens, 0, h.hclen), EncodeCl(h.clens, h.tokens),
            ReadTables(bits).value.1);
  }
}
