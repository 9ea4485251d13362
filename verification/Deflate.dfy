// DEFLATE symbols (RFC 1951, section 3.2.5): tokens, the bits that encode them, the output they
// stand for, and the decoder as a function of the unread bits and an unbounded output.
module Deflate {
  import opened Wrappers
  import opened Words
  import opened BitLists
  import opened HuffmanCodes
  import opened Lz77

  const LENGTH_BASE: seq<nat> := [
    3, 4, 5, 6, 7, 8, 9, 10, 11, 13, 15, 17, 19, 23, 27, 31, 35, 43, 51, 59, 67, 83, 99, 115, 131,
    163, 195, 227, 258]
  const LENGTH_EXTRA: seq<nat> := [
    0, 0, 0, 0, 0, 0, 0, 0, 1, 1, 1, 1, 2, 2, 2, 2, 3, 3, 3, 3, 4, 4, 4, 4, 5, 5, 5, 5, 0]
  const DIST_BASE: seq<nat> := [
    1, 2, 3, 4, 5, 7, 9, 13, 17, 25, 33, 49, 65, 97, 129, 193, 257, 385, 513, 769, 1025, 1537,
    2049, 3073, 4097, 6145, 8193, 12289, 16385, 24577]
  const DIST_EXTRA: seq<nat> := [
    0, 0, 0, 0, 1, 1, 2, 2, 3, 3, 4, 4, 5, 5, 6, 6, 7, 7, 8, 8, 9, 9, 10, 10, 11, 11, 12, 12, 13,
    13]

  function LengthBase(l: nat): nat
    requires l < 29
  {
    LENGTH_BASE[l]
  }

  function LengthExtra(l: nat): nat
    requires l < 29
  {
    LENGTH_EXTRA[l]
  }

  function DistBase(d: nat): nat
    requires d < 30
  {
    DIST_BASE[d]
  }

  function DistExtra(d: nat): nat
    requires d < 30
  {
    DIST_EXTRA[d]
  }

  const END: nat := 256
  const MAX_DISTANCE: nat := 32768

  // ----- Tokens

  /** A literal byte, or a match given by its two symbols and the values of their extra bits. */
  datatype Token = Literal(value: byte) | Match(lsym: nat, lextra: nat, dsym: nat, dextra: nat)

  predicate ValidToken(t: Token) {
    t.Match? ==>
      && t.lsym < 29 && t.lextra < Pow2(LengthExtra(t.lsym))
      && t.dsym < 30 && t.dextra < Pow2(DistExtra(t.dsym))
  }

  function Length(t: Token): nat
    requires t.Match? && ValidToken(t)
  {
    LengthBase(t.lsym) + t.lextra
  }

  function Distance(t: Token): nat
    requires t.Match? && ValidToken(t)
  {
    DistBase(t.dsym) + t.dextra
  }

  /** Both codes have a code for every symbol the token uses. */
  predicate Encodable(lit: seq<nat>, dist: seq<nat>, t: Token) {
    && ValidToken(t)
    && match t
       case Literal(b) => HasCode(lit, b)
       case Match(l, _, d, _) => HasCode(lit, 257 + l) && HasCode(dist, d)
  }

  function TokenBits(lit: seq<nat>, dist: seq<nat>, t: Token): (bits: Bits)
    requires Encodable(lit, dist, t)
  {
    match t
    case Literal(b) => CodeBits(lit, b)
    case Match(l, _, _, _) => CodeBits(lit, 257 + l) + MatchTail(dist, t)
  }

  /** Extra length bits, distance code, extra distance bits. */
  function MatchTail(dist: seq<nat>, t: Token): Bits
    requires t.Match? && ValidToken(t) && HasCode(dist, t.dsym)
  {
    ToBits(t.lextra, LengthExtra(t.lsym)) + (CodeBits(dist, t.dsym) + ToBits(t.dextra, DistExtra(t.dsym)))
  }

  predicate AllEncodable(lit: seq<nat>, dist: seq<nat>, ts: seq<Token>) {
    HasCode(lit, END) && forall t :: t in ts ==> Encodable(lit, dist, t)
  }

  /** A token list followed by the end-of-block symbol. */
  function EncodeTokens(lit: seq<nat>, dist: seq<nat>, ts: seq<Token>): Bits
    requires AllEncodable(lit, dist, ts)
  {
    if ts == [] then CodeBits(lit, END)
    else TokenBits(lit, dist, ts[0]) + EncodeTokens(lit, dist, ts[1..])
  }

  /** What a token appends to the output; a match may not reach before its start. */
  function Apply(out: seq<byte>, t: Token): Option<seq<byte>>
    requires ValidToken(t)
  {
    match t
    case Literal(b) => Some(out + [b])
    case Match(_, _, _, _) =>
      if 1 <= Distance(t) <= |out| then Some(CopyBytes(out, Distance(t), Length(t))) else None
  }

  function Expand(out: seq<byte>, ts: seq<Token>): Option<seq<byte>>
    requires forall t :: t in ts ==> ValidToken(t)
    decreases |ts|
  {
    if ts == [] then Some(out)
    else match Apply(out, ts[0])
      case None => None
      case Some(o) => Expand(o, ts[1..])
  }

  // ----- The decoder

  datatype Item = Tok(token: Token) | End

  function TakeBits(bits: Bits, n: nat): Option<(nat, Bits)> {
    if n <= |bits| then Some((FromBits(bits[..n]), bits[n..])) else None
  }

  /** The rest of a match once its length symbol has been read. */
  ghost function NextMatch(dist: seq<nat>, l: nat, bits: Bits): (r: Option<(Token, Bits)>)
    requires l < 29
    ensures r.Some? ==> ValidToken(r.value.0) && |r.value.1| <= |bits|
  {
    match TakeBits(bits, LengthExtra(l))
    case None => None
    case Some((le, r1)) =>
      match Lookup(dist, r1)
      case None => None
      case Some(d) =>
        var r2 := r1[dist[d]..];
        if d >= 30 then None
        else match TakeBits(r2, DistExtra(d))
          case None => None
          case Some((de, r3)) =>
            ToFromBits(bits[..LengthExtra(l)]);
            ToFromBits(r2[..DistExtra(d)]);
            Some((Match(l, le, d, de), r3))
  }

  ghost function NextItem(lit: seq<nat>, dist: seq<nat>, bits: Bits): (r: Option<(Item, Bits)>)
    ensures r.Some? ==> |r.value.1| < |bits| && (r.value.0.Tok? ==> ValidToken(r.value.0.token))
  {
    match Lookup(lit, bits)
    case None => None
    case Some(s) =>
      var rest := bits[lit[s]..];
      if s < 256 then Some((Tok(Literal(s)), rest))
      else if s == 256 then Some((End, rest))
      else if s > 285 then None
      else match NextMatch(dist, s - 257, rest)
        case None => None
        case Some((t, r)) => Some((Tok(t), r))
  }

  /** Decodes symbols until the end of the block, appending to `out`. */
  ghost function Symbols(lit: seq<nat>, dist: seq<nat>, bits: Bits, out: seq<byte>): Option<(seq<byte>, Bits)>
    decreases |bits|
  {
    match NextItem(lit, dist, bits)
    case None => None
    case Some((End, rest)) => Some((out, rest))
    case Some((Tok(t), rest)) =>
      match Apply(out, t)
      case None => None
      case Some(o) => Symbols(lit, dist, rest, o)
  }

  // ----- The tables

  const POWERS: seq<nat> := [1, 2, 4, 8, 16, 32, 64, 128, 256, 512, 1024, 2048, 4096, 8192]

  lemma SmallPowers(n: nat)
    requires n <= 13
    ensures Pow2(n) == POWERS[n]
  {
    assert Pow2(7) == 128;
    Pow2Add(7, if n <= 7 then 0 else n - 7);
  }

  /** The start of the row after the `i`-th. */
  function RowEnd(base: seq<nat>, limit: nat, i: nat): nat
    requires i < |base|
  {
    if i + 1 < |base| then base[i + 1] else limit + 1
  }

  // Each row of a table starts where the one before it ends: first with `first`, last ending at `limit`.
  predicate Tiles(base: seq<nat>, extra: seq<nat>, first: nat, limit: nat) {
    && |base| == |extra| > 0 && base[0] == first
    && forall i :: 0 <= i < |base| ==> base[i] + Pow2(extra[i]) == RowEnd(base, limit, i)
  }

  lemma LengthRow(i: nat)
    requires i < 28
    ensures LengthExtra(i) == (if i < 8 then 0 else i / 4 - 1) && LengthExtra(i) <= 5
    ensures LengthBase(i) == if i < 8 then i + 3 else (4 + i % 4) * POWERS[i / 4 - 1] + 3
  {
    if i < 8 {
    } else if i < 14 {
    } else if i < 21 {
    } else {
    }
  }

  lemma LengthNext(i: nat)
    requires i < 28
    ensures LengthExtra(i) <= 5 && LengthBase(i) + POWERS[LengthExtra(i)] == if i < 27 then LengthBase(i + 1) else 259
  {
    if i < 8 {
    } else if i < 14 {
    } else if i < 21 {
    } else {
    }
  }

  lemma DistExtraBits(i: nat)
    requires i < 30
    ensures DistExtra(i) == (if i < 4 then 0 else i / 2 - 1) && DistExtra(i) <= 13
  {
  }

  lemma DistRow(i: nat)
    requires i < 30
    ensures DistBase(i) == if i < 4 then i + 1 else (2 + i % 2) * POWERS[i / 2 - 1] + 1
  {
    if i < 8 {
    } else if i < 15 {
    } else if i < 22 {
    } else {
    }
  }

  lemma DistNext(i: nat)
    requires i < 30
    ensures DistExtra(i) <= 13 && DistBase(i) + POWERS[DistExtra(i)] == if i < 29 then DistBase(i + 1) else 32769
  {
    if i < 8 {
    } else if i < 15 {
    } else if i < 22 {
    } else {
    }
  }

  // Length symbols come four to a power of two: the first eight have no extra bits, the later ones as many as
  // double the step; the last is 258 alone.
  lemma LengthSymbol(l: nat)
    requires l < 29
    ensures l < 8 ==> LengthExtra(l) == 0 && LengthBase(l) == l + 3
    ensures 8 <= l < 28 ==> LengthExtra(l) == l / 4 - 1 && LengthBase(l) == (4 + l % 4) * Pow2(l / 4 - 1) + 3
    ensures l == 28 ==> LengthExtra(l) == 0 && LengthBase(l) == 258
  {
    if l < 28 {
      LengthRow(l);
    }
    if 8 <= l < 28 {
      SmallPowers(l / 4 - 1);
    }
  }

  /** Distance symbols come two to a power of two: the first four have no extra bits. */
  lemma DistSymbol(d: nat)
    requires d < 30
    ensures d < 4 ==> DistExtra(d) == 0 && DistBase(d) == d + 1
    ensures d >= 4 ==> DistExtra(d) == d / 2 - 1 && DistBase(d) == (2 + d % 2) * Pow2(d / 2 - 1) + 1
  {
    DistRow(d);
    DistExtraBits(d);
    if d >= 4 {
      SmallPowers(d / 2 - 1);
    }
  }

  lemma LengthRows()
    ensures Tiles(LENGTH_BASE[..28], LENGTH_EXTRA[..28], 3, 258)
    ensures |LENGTH_BASE| == |LENGTH_EXTRA| == 29 && LENGTH_BASE[28] == 258 && LENGTH_EXTRA[28] == 0
  {
    forall i: nat | i < 28
      ensures LENGTH_BASE[i] + Pow2(LENGTH_EXTRA[i]) == RowEnd(LENGTH_BASE[..28], 258, i)
    {
      LengthNext(i);
      SmallPowers(LENGTH_EXTRA[i]);
    }
  }

  lemma DistRows()
    ensures Tiles(DIST_BASE, DIST_EXTRA, 1, 32768) && |DIST_BASE| == 30
  {
    forall i: nat | i < 30
      ensures DIST_BASE[i] + Pow2(DIST_EXTRA[i]) == RowEnd(DIST_BASE, 32768, i)
    {
      DistNext(i);
      SmallPowers(DIST_EXTRA[i]);
    }
  }

  lemma {:induction false} TilesBounds(base: seq<nat>, extra: seq<nat>, first: nat, limit: nat, i: nat)
    requires Tiles(base, extra, first, limit) && i < |base|
    ensures first <= base[i] && base[i] + Pow2(extra[i]) <= limit + 1
  {
    TilesFrom(base, extra, first, limit, i);
    TilesTo(base, extra, first, limit, i);
  }

  lemma {:induction false} TilesFrom(base: seq<nat>, extra: seq<nat>, first: nat, limit: nat, i: nat)
    requires Tiles(base, extra, first, limit) && i < |base|
    ensures first <= base[i]
  {
    hide Pow2;
    if i > 0 {
      TilesFrom(base, extra, first, limit, i - 1);
    }
  }

  lemma {:induction false} TilesTo(base: seq<nat>, extra: seq<nat>, first: nat, limit: nat, i: nat)
    requires Tiles(base, extra, first, limit) && i < |base|
    ensures base[i] + Pow2(extra[i]) <= limit + 1
    decreases |base| - i
  {
    hide Pow2;
    if i + 1 < |base| {
      TilesTo(base, extra, first, limit, i + 1);
    }
  }

  /** Every match length is 3 to 258 and every distance 1 to 32768. */
  lemma MatchRanges(t: Token)
    requires t.Match? && ValidToken(t)
    ensures 3 <= Length(t) <= 258 && 1 <= Distance(t) <= MAX_DISTANCE
    ensures LengthExtra(t.lsym) <= 5 && DistExtra(t.dsym) <= 13
  {
    hide Pow2, Tiles;
    LengthRows();
    DistRows();
    DistExtraBits(t.dsym);
    TilesBounds(DIST_BASE, DIST_EXTRA, 1, 32768, t.dsym);
    if t.lsym < 28 {
      LengthRow(t.lsym);
      TilesBounds(LENGTH_BASE[..28], LENGTH_EXTRA[..28], 3, 258, t.lsym);
    } else {
      SmallPowers(0);
    }
  }

  lemma {:induction false} FindRow(base: seq<nat>, extra: seq<nat>, first: nat, limit: nat, v: nat, i: nat) returns (k: nat)
    requires Tiles(base, extra, first, limit) && i < |base| && base[i] <= v <= limit
    ensures k < |base| && base[k] <= v < base[k] + Pow2(extra[k])
    decreases |base| - i
  {
    if v < base[i] + Pow2(extra[i]) {
      k := i;
    } else {
      k := FindRow(base, extra, first, limit, v, i + 1);
    }
  }

  /** The tables leave no gap: every length 3..258 and distance 1..32768 has a token. */
  lemma TokenFor(length: nat, distance: nat) returns (t: Token)
    requires 3 <= length <= 258 && 1 <= distance <= MAX_DISTANCE
    ensures t.Match? && ValidToken(t) && Length(t) == length && Distance(t) == distance
  {
    hide Pow2;
    LengthRows();
    DistRows();
    var l := FindRow(LENGTH_BASE[..28], LENGTH_EXTRA[..28], 3, 258, length, 0);
    var d := FindRow(DIST_BASE, DIST_EXTRA, 1, 32768, distance, 0);
    t := Match(l, length - LengthBase(l), d, distance - DistBase(d));
  }

  // ----- Decoding undoes encoding

  lemma TakeOfBits(v: nat, n: nat, rest: Bits)
    requires v < Pow2(n)
    ensures TakeBits(ToBits(v, n) + rest, n) == Some((v, rest))
  {
    FromToBits(v, n);
    LowSmall(v, n);
    CutAppend(ToBits(v, n) + rest, ToBits(v, n), rest, n);
  }

  lemma TakeSound(bits: Bits, n: nat)
    requires TakeBits(bits, n).Some?
    ensures var (v, rest) := TakeBits(bits, n).value; v < Pow2(n) && bits == ToBits(v, n) + rest
  {
    hide ToBits, FromBits, Pow2;
    ToFromBits(bits[..n]);
    assert bits == bits[..n] + bits[n..];
  }

  lemma MatchOfBits(dist: seq<nat>, t: Token, rest: Bits)
    requires Fits(dist) && t.Match? && ValidToken(t) && HasCode(dist, t.dsym)
    ensures NextMatch(dist, t.lsym, MatchTail(dist, t) + rest) == Some((t, rest))
  {
    hide LengthExtra, DistExtra;
    var b1, b2, b3 := ToBits(t.lextra, LengthExtra(t.lsym)), CodeBits(dist, t.dsym), ToBits(t.dextra, DistExtra(t.dsym));
    Append3(b1, b2, b3, rest);
    TakeOfBits(t.lextra, LengthExtra(t.lsym), b2 + (b3 + rest));
    LookupOfCode(dist, t.dsym, b3 + rest);
    TakeOfBits(t.dextra, DistExtra(t.dsym), rest);
  }

  lemma Append3<T>(a: seq<T>, b: seq<T>, c: seq<T>, d: seq<T>)
    ensures a + (b + c) + d == a + (b + (c + d))
  {
  }

  lemma ItemOfMatch(lit: seq<nat>, dist: seq<nat>, l: nat, tail: Bits)
    requires Fits(lit) && HasCode(lit, 257 + l) && l < 29 && NextMatch(dist, l, tail).Some?
    ensures NextItem(lit, dist, CodeBits(lit, 257 + l) + tail)
            == Some((Tok(NextMatch(dist, l, tail).value.0), NextMatch(dist, l, tail).value.1))
  {
    LookupOfCode(lit, 257 + l, tail);
  }

  /** The decoder reads back the token whose bits start the stream. */
  lemma ItemOfToken(lit: seq<nat>, dist: seq<nat>, t: Token, rest: Bits)
    requires Fits(lit) && Fits(dist) && Encodable(lit, dist, t)
    ensures NextItem(lit, dist, TokenBits(lit, dist, t) + rest) == Some((Tok(t), rest))
  {
    hide LengthExtra, DistExtra;
    match t
    case Literal(b) =>
      LookupOfCode(lit, b, rest);
    case Match(l, _, _, _) =>
      MatchOfBits(dist, t, rest);
      AppendAssoc(CodeBits(lit, 257 + l), MatchTail(dist, t), rest);
      ItemOfMatch(lit, dist, l, MatchTail(dist, t) + rest);
  }

  lemma ItemOfEnd(lit: seq<nat>, dist: seq<nat>, rest: Bits)
    requires Fits(lit) && HasCode(lit, END)
    ensures NextItem(lit, dist, CodeBits(lit, END) + rest) == Some((End, rest))
  {
    LookupOfCode(lit, END, rest);
  }

  lemma MatchSound(dist: seq<nat>, l: nat, bits: Bits)
    requires l < 29 && NextMatch(dist, l, bits).Some?
    ensures var (t, rest) := NextMatch(dist, l, bits).value;
            && ValidToken(t) && t.Match? && t.lsym == l && HasCode(dist, t.dsym)
            && bits == MatchTail(dist, t) + rest
  {
    hide LengthExtra, DistExtra;
    TakeSound(bits, LengthExtra(l));
    var r1 := TakeBits(bits, LengthExtra(l)).value.1;
    var d := Lookup(dist, r1).value;
    TakeSound(r1[dist[d]..], DistExtra(d));
    var (t, rest) := NextMatch(dist, l, bits).value;
    Append3(ToBits(t.lextra, LengthExtra(l)), CodeBits(dist, d), ToBits(t.dextra, DistExtra(d)), rest);
    assert r1 == CodeBits(dist, d) + (ToBits(t.dextra, DistExtra(d)) + rest);
  }

  /** Whatever the decoder accepts was the encoding of the item it returns. */
  lemma ItemSound(lit: seq<nat>, dist: seq<nat>, bits: Bits)
    requires NextItem(lit, dist, bits).Some?
    ensures var (item, rest) := NextItem(lit, dist, bits).value;
            match item
            case Tok(t) => Encodable(lit, dist, t) && bits == TokenBits(lit, dist, t) + rest
            case End => HasCode(lit, END) && bits == CodeBits(lit, END) + rest
  {
    hide LengthExtra, DistExtra;
    var s := Lookup(lit, bits).value;
    var tail := bits[lit[s]..];
    assert bits == CodeBits(lit, s) + tail;
    if s > 256 {
      MatchSound(dist, s - 257, tail);
      var (t, rest) := NextMatch(dist, s - 257, tail).value;
      AppendAssoc(CodeBits(lit, s), MatchTail(dist, t), rest);
    }
  }

  function WithRest<T>(o: Option<T>, rest: Bits): Option<(T, Bits)> {
    match o case None => None case Some(x) => Some((x, rest))
  }

  /** Decoding an encoded token list appends exactly its expansion, or fails when that does. */
  lemma {:induction false} SymbolsOfTokens(lit: seq<nat>, dist: seq<nat>, ts: seq<Token>, out: seq<byte>, rest: Bits)
    requires Fits(lit) && Fits(dist) && AllEncodable(lit, dist, ts)
    ensures Symbols(lit, dist, EncodeTokens(lit, dist, ts) + rest, out) == WithRest(Expand(out, ts), rest)
    decreases |ts|
  {
    if ts == [] {
      ItemOfEnd(lit, dist, rest);
    } else {
      var tail := EncodeTokens(lit, dist, ts[1..]);
      AppendAssoc(TokenBits(lit, dist, ts[0]), tail, rest);
      ItemOfToken(lit, dist, ts[0], tail + rest);
      match Apply(out, ts[0])
      case None =>
      case Some(o) => SymbolsOfTokens(lit, dist, ts[1..], o, rest);
    }
  }

  /** What is decoded is always the expansion of tokens that encode the bits consumed. */
  lemma {:induction false} SymbolsSound(lit: seq<nat>, dist: seq<nat>, bits: Bits, out: seq<byte>) returns (ts: seq<Token>)
    requires Symbols(lit, dist, bits, out).Some?
    ensures AllEncodable(lit, dist, ts)
    ensures var (o, rest) := Symbols(lit, dist, bits, out).value;
            bits == EncodeTokens(lit, dist, ts) + rest && Expand(out, ts) == Some(o)
    decreases |bits|
  {
    ItemSound(lit, dist, bits);
    var (item, rest) := NextItem(lit, dist, bits).value;
    match item
    case End =>
      ts := [];
    case Tok(t) =>
      var tail := SymbolsSound(lit, dist, rest, Apply(out, t).value);
      ts := [t] + tail;
      assert ts[1..] == tail;
      AppendAssoc(TokenBits(lit, dist, t), EncodeTokens(lit, dist, tail), Symbols(lit, dist, bits, out).value.1);
  }

  lemma {:induction false} SymbolsShrink(lit: seq<nat>, dist: seq<nat>, bits: Bits, out: seq<byte>)
    ensures match Symbols(lit, dist, bits, out) case None => true case Some((o, rest)) => |rest| < |bits| && out <= o
    decreases |bits|
  {
    match NextItem(lit, dist, bits)
    case None =>
    case Some((End, rest)) =>
    case Some((Tok(t), rest)) =>
      match Apply(out, t)
      case None =>
      case Some(o) =>
        SymbolsShrink(lit, dist, rest, o);
        if t.Match? {
          CopyRepeats(out, Distance(t), Length(t));
        }
  }
}
