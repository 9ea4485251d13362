/** DEFLATE blocks (RFC 1951, section 3.2.3): their bits, their output, and the decoder as a function. */
module Blocks {
  import opened Sequences
  import opened Wrappers
  import opened Words
  import opened BitLists
  import opened BitReaders
  import opened HuffmanCodes
  import opened Deflate
  import opened DynamicTables

  /** The bytes whose bits are `bits`. */
  function BitsToBytes(bits: Bits): (data: seq<byte>)
    ensures |data| == |bits| / 8
    decreases |bits|
  {
    if |bits| < 8 then []
    else
      ToFromBits(bits[..8]);
      Pow2Values();
      [FromBits(bits[..8])] + BitsToBytes(bits[8..])
  }

  lemma {:induction false} BytesOfByteBits(data: seq<byte>)
    ensures BitsToBytes(ByteBits(data)) == data
  {
    if data != [] {
      var bits := ByteBits(data);
      CutAppend(bits, ToBits(data[0], 8), ByteBits(data[1..]), 8);
      FromToBits(data[0], 8);
      Pow2Values();
      LowSmall(data[0], 8);
      BytesOfByteBits(data[1..]);
    }
  }

  lemma {:induction false} ByteBitsOfBytes(bits: Bits)
    requires |bits| % 8 == 0
    ensures ByteBits(BitsToBytes(bits)) == bits
    decreases |bits|
  {
    if bits != [] {
      hide ToBits, FromBits;
      ToFromBits(bits[..8]);
      ByteBitsOfBytes(bits[8..]);
      var data := BitsToBytes(bits);
      assert data[1..] == BitsToBytes(bits[8..]);
    }
  }

  // ----- The fixed codes (RFC 1951, section 3.2.6)

  function FixedLit(): (ls: seq<nat>)
    ensures |ls| == 288
  {
    Fill(8, 144) + Fill(9, 112) + Fill(7, 24) + Fill(8, 8)
  }

  /** All 32 five-bit codes, the last two of which are never legal distances. */
  function FixedDist(): (ls: seq<nat>)
    ensures |ls| == 32
  {
    Fill(5, 32)
  }

  lemma {:induction false} CountAppend(a: seq<nat>, b: seq<nat>, l: nat)
    ensures Count(a + b, l) == Count(a, l) + Count(b, l)
  {
    if b == [] {
      assert a + b == a;
    } else {
      assert (a + b)[..|a + b| - 1] == a + b[..|b| - 1];
      CountAppend(a, b[..|b| - 1], l);
    }
  }

  lemma {:induction false} CountFill(v: nat, n: nat, l: nat)
    ensures Count(Fill(v, n), l) == if v == l then n else 0
  {
    if n != 0 {
      assert Fill(v, n)[..n - 1] == Fill(v, n - 1);
      CountFill(v, n - 1, l);
    }
  }

  lemma FixedLitCount(l: nat)
    ensures Count(FixedLit(), l) == if l == 8 then 152 else if l == 9 then 112 else if l == 7 then 24 else 0
  {
    hide Count, Fill;
    CountAppend(Fill(8, 144) + Fill(9, 112) + Fill(7, 24), Fill(8, 8), l);
    CountAppend(Fill(8, 144) + Fill(9, 112), Fill(7, 24), l);
    CountAppend(Fill(8, 144), Fill(9, 112), l);
    CountFill(8, 144, l);
    CountFill(9, 112, l);
    CountFill(7, 24, l);
    CountFill(8, 8, l);
  }

  lemma {:induction false} KraftOfZeros(ls: seq<nat>, l: nat)
    requires forall k :: 1 <= k <= l ==> Count(ls, k) == 0
    ensures Kraft(ls, l) == 0
  {
    if l != 0 {
      KraftOfZeros(ls, l - 1);
    }
  }

  lemma MaxLenIs(ls: seq<nat>, m: nat)
    requires m in ls && forall l :: l in ls ==> l <= m
    ensures MaxLen(ls) == m
  {
    MaxLenBounds(ls);
    var i :| 0 <= i < |ls| && ls[i] == m;
  }

  /** Both fixed codes are complete, and the literal code can end a block. */
  lemma FixedCodes()
    ensures Accepts(FixedLit()) && Accepts(FixedDist()) && HasCode(FixedLit(), END)
  {
    FixedLitAccepted();
    FixedDistAccepted();
  }

  lemma FixedLitAccepted()
    ensures Accepts(FixedLit()) && HasCode(FixedLit(), END)
  {
    var ls := FixedLit();
    assert ls[144] == 9;
    MaxLenIs(ls, 9);
    hide FixedLit, Count;
    forall l: nat
      ensures Count(ls, l) == if l == 8 then 152 else if l == 9 then 112 else if l == 7 then 24 else 0
    {
      FixedLitCount(l);
    }
    KraftOfZeros(ls, 6);
    assert Kraft(ls, 7) == 24;
    assert Kraft(ls, 8) == 200;
    assert Kraft(ls, 9) == 512;
    assert Pow2(9) == 512;
  }

  lemma FixedDistAccepted()
    ensures Accepts(FixedDist())
  {
    var ls := FixedDist();
    assert ls[0] == 5;
    MaxLenIs(ls, 5);
    hide Count;
    forall l: nat
      ensures Count(ls, l) == if l == 5 then 32 else 0
    {
      CountFill(5, 32, l);
    }
    KraftOfZeros(ls, 4);
    assert Kraft(ls, 5) == 32;
    assert Pow2(5) == 32;
  }

  /** How many of the fixed lengths before symbol `s` are its own. */
  lemma FixedLitBefore(s: nat)
    requires s < 288
    ensures Count(FixedLit()[..s], FixedLit()[s])
            == if s < 144 then s else if s < 256 then s - 144 else if s < 280 then s - 256 else 144 + (s - 280)
  {
    hide Count;
    var ls, l := FixedLit(), FixedLit()[s];
    var a, b, c := Fill<nat>(8, 144), Fill<nat>(9, 112), Fill<nat>(7, 24);
    CountFill(8, 144, l);
    CountFill(9, 112, l);
    CountFill(7, 24, l);
    CountAppend(a, b, l);
    CountAppend(a + b, c, l);
    if s < 144 {
      assert ls[..s] == Fill<nat>(8, s);
      CountFill(8, s, l);
    } else if s < 256 {
      assert ls[..s] == a + Fill<nat>(9, s - 144);
      CountAppend(a, Fill<nat>(9, s - 144), l);
      CountFill(9, s - 144, l);
    } else if s < 280 {
      assert ls[..s] == a + b + Fill<nat>(7, s - 256);
      CountAppend(a + b, Fill<nat>(7, s - 256), l);
      CountFill(7, s - 256, l);
    } else {
      assert ls[..s] == a + b + c + Fill<nat>(8, s - 280);
      CountAppend(a + b + c, Fill<nat>(8, s - 280), l);
      CountFill(8, s - 280, l);
    }
  }

  lemma FixedLitKraft()
    ensures Kraft(FixedLit(), 6) == 0 && Kraft(FixedLit(), 7) == 24 && Kraft(FixedLit(), 8) == 200
  {
    var ls := FixedLit();
    hide FixedLit, Count;
    forall l: nat
      ensures Count(ls, l) == if l == 8 then 152 else if l == 9 then 112 else if l == 7 then 24 else 0
    {
      FixedLitCount(l);
    }
    KraftOfZeros(ls, 6);
    assert Kraft(ls, 7) == 24;
  }

  // The fixed codes in their own bits: eight from 00110000 on for 0 to 143, nine from 110010000 on for 144 to 255,
  // seven from 0000000 on for 256 to 279, eight from 11000000 on for 280 to 287.
  lemma FixedLitCodes(s: nat)
    requires s < 288
    ensures HasCode(FixedLit(), s)
    ensures s < 144 ==> FixedLit()[s] == 8 && Code(FixedLit(), s) == 0x30 + s
    ensures 144 <= s < 256 ==> FixedLit()[s] == 9 && Code(FixedLit(), s) == 0x190 + (s - 144)
    ensures 256 <= s < 280 ==> FixedLit()[s] == 7 && Code(FixedLit(), s) == s - 256
    ensures 280 <= s ==> FixedLit()[s] == 8 && Code(FixedLit(), s) == 0xc0 + (s - 280)
  {
    FixedLitBefore(s);
    FixedLitKraft();
    hide Count, Kraft;
  }

  /** Every distance symbol's fixed code is its own number in five bits. */
  lemma FixedDistCodes(d: nat)
    requires d < 32
    ensures HasCode(FixedDist(), d) && FixedDist()[d] == 5 && Code(FixedDist(), d) == d
  {
    hide Count;
    assert FixedDist()[..d] == Fill<nat>(5, d);
    CountFill(5, d, 5);
    forall l: nat
      ensures Count(FixedDist(), l) == if l == 5 then 32 else 0
    {
      CountFill(5, 32, l);
    }
    KraftOfZeros(FixedDist(), 4);
  }

  // ----- Blocks

  /** A block; the padding of a stored block is whatever fills its last partial byte. */
  datatype Block =
    | Stored(pad: Bits, data: seq<byte>)
    | Fixed(tokens: seq<Token>)
    | Dynamic(header: Header, tokens: seq<Token>)

  predicate ValidBlock(b: Block) {
    match b
    case Stored(pad, data) => |pad| < 8 && |data| < 0x1_0000
    case Fixed(ts) => AllEncodable(FixedLit(), FixedDist(), ts)
    case Dynamic(h, ts) => ValidHeader(h) && AllEncodable(h.lit, h.dist, ts)
  }

  function BlockType(b: Block): nat {
    match b case Stored(_, _) => 0 case Fixed(_) => 1 case Dynamic(_, _) => 2
  }

  /** Length, its complement, and the bytes. */
  function StoredBits(data: seq<byte>): Bits
    requires |data| < 0x1_0000
  {
    ToBits(|data|, 16) + (ToBits(0xffff - |data|, 16) + ByteBits(data))
  }

  function BodyBits(b: Block): Bits
    requires ValidBlock(b)
  {
    match b
    case Stored(pad, data) => pad + StoredBits(data)
    case Fixed(ts) => EncodeTokens(FixedLit(), FixedDist(), ts)
    case Dynamic(h, ts) => HeaderBits(h) + EncodeTokens(h.lit, h.dist, ts)
  }

  function BlockBits(b: Block, last: bool): Bits
    requires ValidBlock(b)
  {
    ToBits(if last then 1 else 0, 1) + (ToBits(BlockType(b), 2) + BodyBits(b))
  }

  predicate AllValid(bs: seq<Block>) {
    forall i :: 0 <= i < |bs| ==> ValidBlock(bs[i])
  }

  /** A deflate stream: the blocks in order, the last one marked. */
  function EncodeBlocks(bs: seq<Block>): Bits
    requires AllValid(bs)
  {
    if bs == [] then [] else BlockBits(bs[0], |bs| == 1) + EncodeBlocks(bs[1..])
  }

  /** With `tail` bits behind the stream, every stored block's data starts on a byte boundary. */
  predicate WellPlaced(bs: seq<Block>, tail: nat)
    requires AllValid(bs)
  {
    bs == [] || ((bs[0].Stored? ==> (|EncodeBlocks(bs[1..])| + tail) % 8 == 0) && WellPlaced(bs[1..], tail))
  }

  function ApplyBlock(out: seq<byte>, b: Block): Option<seq<byte>>
    requires ValidBlock(b)
  {
    match b
    case Stored(_, data) => Some(out + data)
    case Fixed(ts) => Expand(out, ts)
    case Dynamic(_, ts) => Expand(out, ts)
  }

  function ExpandBlocks(out: seq<byte>, bs: seq<Block>): Option<seq<byte>>
    requires AllValid(bs)
    decreases |bs|
  {
    if bs == [] then Some(out)
    else match ApplyBlock(out, bs[0])
      case None => None
      case Some(o) => ExpandBlocks(o, bs[1..])
  }

  // ----- The decoder

  /** A stored block's length, complement check and data, from a byte boundary on. */
  function StoredBody(bits: Bits, out: seq<byte>): (r: Option<(seq<byte>, Bits)>)
    ensures r.Some? ==> |r.value.1| <= |bits|
  {
    if |bits| < 32 then None
    else
      var len, rest := FromBits(bits[..16]), bits[32..];
      if FromBits(bits[16..32]) != 0xffff - len || |rest| < 8 * len then None
      else Some((out + BitsToBytes(rest[..8 * len]), rest[8 * len..]))
  }

  ghost function DynamicBody(bits: Bits, out: seq<byte>): Option<(seq<byte>, Bits)> {
    match ReadTables(bits)
    case None => None
    case Some((codes, rest)) => Symbols(codes.0, codes.1, rest, out)
  }

  ghost function Body(btype: nat, bits: Bits, out: seq<byte>): (r: Option<(seq<byte>, Bits)>)
    ensures r.Some? ==> |r.value.1| <= |bits|
  {
    if btype == 0 then StoredBody(Aligned(bits), out)
    else if btype == 1 then
      SymbolsShrink(FixedLit(), FixedDist(), bits, out);
      Symbols(FixedLit(), FixedDist(), bits, out)
    else if btype == 2 then
      DynamicShrinks(bits, out);
      DynamicBody(bits, out)
    else None
  }

  lemma DynamicShrinks(bits: Bits, out: seq<byte>)
    ensures DynamicBody(bits, out).Some? ==> |DynamicBody(bits, out).value.1| <= |bits|
  {
    match ReadTables(bits)
    case None =>
    case Some((codes, rest)) => SymbolsShrink(codes.0, codes.1, rest, out);
  }

  /** Decodes blocks up to and including the one marked last. Every block takes at least three bits. */
  ghost function Inflate(bits: Bits, out: seq<byte>): (r: Option<(seq<byte>, Bits)>)
    ensures r.Some? ==> |r.value.1| + 3 <= |bits|
    decreases |bits|
  {
    if |bits| < 3 then None
    else match Body(FromBits(bits[1..3]), bits[3..], out)
      case None => None
      case Some((o, rest)) => if bits[0] then Some((o, rest)) else Inflate(rest, o)
  }

  // ----- Decoding undoes encoding

  lemma BoundedFromBits(bits: Bits, n: nat)
    requires |bits| == n
    ensures FromBits(bits) < Pow2(n) && ToBits(FromBits(bits), n) == bits
  {
    ToFromBits(bits);
  }

  lemma StoredOfBits(data: seq<byte>, rest: Bits, out: seq<byte>)
    requires |data| < 0x1_0000
    ensures StoredBody(StoredBits(data) + rest, out) == Some((out + data, rest))
  {
    hide ToBits, FromBits, ByteBits, BitsToBytes;
    var a, b, d := ToBits(|data|, 16), ToBits(0xffff - |data|, 16), ByteBits(data);
    Pow2Values();
    FromToBits(|data|, 16);
    LowSmall(|data|, 16);
    FromToBits(0xffff - |data|, 16);
    LowSmall(0xffff - |data|, 16);
    BytesOfByteBits(data);
    StoredLayout(a, b, d, rest);
  }

  lemma StoredLayout(a: Bits, b: Bits, d: Bits, rest: Bits)
    requires |a| == 16 && |b| == 16
    ensures var bits := (a + (b + d)) + rest;
            && bits[..16] == a && bits[16..32] == b
            && bits[32..][..|d|] == d && bits[32..][|d|..] == rest
  {
  }

  lemma StoredSound(bits: Bits, out: seq<byte>) returns (data: seq<byte>)
    requires StoredBody(bits, out).Some?
    ensures |data| < 0x1_0000
    ensures var (o, rest) := StoredBody(bits, out).value; o == out + data && bits == StoredBits(data) + rest
  {
    hide ToBits, FromBits, ByteBits, BitsToBytes, Pow2;
    Pow2Values();
    BoundedFromBits(bits[..16], 16);
    BoundedFromBits(bits[16..32], 16);
    var d := bits[32..][..8 * FromBits(bits[..16])];
    data := BitsToBytes(d);
    ByteBitsOfBytes(d);
    CutThree(bits, |d|);
  }

  lemma CutThree(bits: Bits, n: nat)
    requires 32 + n <= |bits|
    ensures bits == (bits[..16] + (bits[16..32] + bits[32..][..n])) + bits[32..][n..]
  {
  }

  /** The padding of a stored block is dropped, and nothing else. */
  lemma AlignedDropsPad(pad: Bits, body: Bits)
    requires |pad| < 8 && |body| % 8 == 0
    ensures Aligned(pad + body) == body
  {
  }

  lemma StoredBitsWhole(data: seq<byte>)
    requires |data| < 0x1_0000
    ensures |StoredBits(data)| == 32 + 8 * |data|
  {
  }

  lemma DynamicOfBits(h: Header, ts: seq<Token>, out: seq<byte>, rest: Bits)
    requires ValidHeader(h) && AllEncodable(h.lit, h.dist, ts)
    ensures DynamicBody((HeaderBits(h) + EncodeTokens(h.lit, h.dist, ts)) + rest, out) == WithRest(Expand(out, ts), rest)
  {
    hide HeaderBits, EncodeTokens, Symbols, ReadTables, Expand;
    FitsOfAccepts(h.lit);
    FitsOfAccepts(h.dist);
    AppendAssoc(HeaderBits(h), EncodeTokens(h.lit, h.dist, ts), rest);
    TablesOfHeader(h, EncodeTokens(h.lit, h.dist, ts) + rest);
    SymbolsOfTokens(h.lit, h.dist, ts, out, rest);
  }

  /** A block's body decodes to what the block stands for. */
  lemma BodyOfBlock(b: Block, out: seq<byte>, rest: Bits)
    requires ValidBlock(b) && (b.Stored? ==> |rest| % 8 == 0)
    ensures Body(BlockType(b), BodyBits(b) + rest, out) == WithRest(ApplyBlock(out, b), rest)
  {
    hide StoredBody, StoredBits, FixedLit, FixedDist, DynamicBody, HeaderBits, EncodeTokens, Symbols, Aligned;
    match b
    case Stored(pad, data) =>
      StoredBitsWhole(data);
      AppendAssoc(pad, StoredBits(data), rest);
      AlignedDropsPad(pad, StoredBits(data) + rest);
      StoredOfBits(data, rest, out);
    case Fixed(ts) =>
      FixedCodes();
      FitsOfAccepts(FixedLit());
      FitsOfAccepts(FixedDist());
      SymbolsOfTokens(FixedLit(), FixedDist(), ts, out, rest);
    case Dynamic(h, ts) =>
      DynamicOfBits(h, ts, out, rest);
  }

  lemma BlockLayout(b: Block, last: bool, rest: Bits)
    requires ValidBlock(b)
    ensures var bits := BlockBits(b, last) + rest;
            |bits| >= 3 && bits[0] == last && FromBits(bits[1..3]) == BlockType(b) && bits[3..] == BodyBits(b) + rest
  {
    hide BodyBits;
    var bits := BlockBits(b, last) + rest;
    assert ToBits(if last then 1 else 0, 1) == [last];
    assert bits[1..3] == ToBits(BlockType(b), 2);
    FromToBits(BlockType(b), 2);
    LowSmall(BlockType(b), 2);
  }

  /** An encoded stream decodes to exactly what its blocks stand for, leaving what follows it unread. */
  lemma {:induction false} InflateOfBlocks(bs: seq<Block>, out: seq<byte>, rest: Bits)
    requires bs != [] && AllValid(bs) && WellPlaced(bs, |rest|)
    ensures Inflate(EncodeBlocks(bs) + rest, out) == WithRest(ExpandBlocks(out, bs), rest)
    decreases |bs|
  {
    hide Body, BodyBits, BlockBits, ApplyBlock;
    var b, tail := bs[0], EncodeBlocks(bs[1..]);
    AppendAssoc(BlockBits(b, |bs| == 1), tail, rest);
    BlockLayout(b, |bs| == 1, tail + rest);
    BodyOfBlock(b, out, tail + rest);
    match ApplyBlock(out, b)
    case None =>
    case Some(o) =>
      if |bs| == 1 {
        assert tail + rest == rest;
      } else {
        InflateOfBlocks(bs[1..], o, rest);
      }
  }

  lemma BodySound(btype: nat, bits: Bits, out: seq<byte>) returns (b: Block)
    requires Body(btype, bits, out).Some?
    ensures ValidBlock(b) && BlockType(b) == btype
    ensures var (o, rest) := Body(btype, bits, out).value;
            && ApplyBlock(out, b) == Some(o) && bits == BodyBits(b) + rest
            && (b.Stored? ==> |rest| % 8 == 0)
  {
    hide StoredBits, FixedLit, FixedDist, HeaderBits, EncodeTokens, Symbols, ReadTables;
    var (o, rest) := Body(btype, bits, out).value;
    if btype == 0 {
      var data := StoredSound(Aligned(bits), out);
      StoredBitsWhole(data);
      b := Stored(bits[..|bits| % 8], data);
      assert bits == b.pad + Aligned(bits);
      AppendAssoc(b.pad, StoredBits(data), rest);
    } else if btype == 1 {
      var ts := SymbolsSound(FixedLit(), FixedDist(), bits, out);
      b := Fixed(ts);
    } else {
      var h := TablesSound(bits);
      var next := ReadTables(bits).value.1;
      var ts := SymbolsSound(h.lit, h.dist, next, out);
      b := Dynamic(h, ts);
      AppendAssoc(HeaderBits(h), EncodeTokens(h.lit, h.dist, ts), rest);
    }
  }

  lemma NoBlocks(out: seq<byte>, rest: nat)
    ensures EncodeBlocks([]) == [] && ExpandBlocks(out, []) == Some(out) && WellPlaced([], rest)
  {
  }

  lemma LastBlock(b: Block, out: seq<byte>, rest: nat)
    requires ValidBlock(b) && (b.Stored? ==> rest % 8 == 0)
    ensures AllValid([b]) && EncodeBlocks([b]) == BlockBits(b, true) && ExpandBlocks(out, [b]) == ApplyBlock(out, b)
    ensures WellPlaced([b], rest)
  {
    hide BlockBits, ApplyBlock, ValidBlock;
    assert [b][1..] == [];
    NoBlocks(out, rest);
    assert BlockBits(b, true) + [] == BlockBits(b, true);
    if ApplyBlock(out, b).Some? {
      NoBlocks(ApplyBlock(out, b).value, rest);
    }
  }

  lemma MoreBlocks(b: Block, tail: seq<Block>, out: seq<byte>, rest: nat)
    requires tail != [] && ValidBlock(b) && AllValid(tail) && WellPlaced(tail, rest)
    requires b.Stored? ==> (|EncodeBlocks(tail)| + rest) % 8 == 0
    ensures AllValid([b] + tail) && EncodeBlocks([b] + tail) == BlockBits(b, false) + EncodeBlocks(tail)
    ensures ApplyBlock(out, b).Some? ==> ExpandBlocks(out, [b] + tail) == ExpandBlocks(ApplyBlock(out, b).value, tail)
    ensures WellPlaced([b] + tail, rest)
  {
    hide BlockBits, ApplyBlock, ValidBlock;
    assert ([b] + tail)[1..] == tail;
  }

  /** Whatever inflates is the encoding of well-placed blocks standing for the output. */
  lemma {:induction false} InflateSound(bits: Bits, out: seq<byte>) returns (bs: seq<Block>)
    requires Inflate(bits, out).Some?
    ensures bs != [] && AllValid(bs)
    ensures var (o, rest) := Inflate(bits, out).value;
            WellPlaced(bs, |rest|) && bits == EncodeBlocks(bs) + rest && ExpandBlocks(out, bs) == Some(o)
    decreases |bits|
  {
    hide Body, BodyBits, ApplyBlock, EncodeBlocks, WellPlaced, ExpandBlocks, ValidBlock;
    var last, btype := bits[0], FromBits(bits[1..3]);
    var b := BodySound(btype, bits[3..], out);
    var (o, next) := Body(btype, bits[3..], out).value;
    var rest := Inflate(bits, out).value.1;
    BoundedFromBits(bits[1..3], 2);
    assert ToBits(if last then 1 else 0, 1) == [last];
    assert bits == BlockBits(b, last) + next;
    if last {
      bs := [b];
      LastBlock(b, out, |rest|);
    } else {
      var tail := InflateSound(next, o);
      bs := [b] + tail;
      MoreBlocks(b, tail, out, |rest|);
      AppendAssoc(BlockBits(b, false), EncodeBlocks(tail), rest);
    }
  }
}
