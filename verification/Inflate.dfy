/** The streaming DEFLATE decoder, method by method, against the decoder on bit lists. */
module Inflates {
  import opened Sequences
  import opened Wrappers
  import opened Words
  import opened BitLists
  import opened BitReaders
  import opened HuffmanCodes
  import opened Huffmans
  import opened Lz77
  import opened Sinks
  import opened Deflate
  import opened DynamicTables
  import opened Blocks

  datatype InflateError =
    | Read(read: ReadError)
    | Code(code: CodeError)
    | TooManyCodes
    | BadRun
    | BadSymbol
    | BadDistance
    | StoredLengthMismatch
    | ReservedBlockType

  /** Reads an `n`-bit number off the front of the stream. */
  method Take(br: BitReader, n: nat) returns (r: Result<nat, InflateError>)
    requires br.Valid() && n <= 32
    modifies br
    ensures br.Valid()
    ensures match TakeBits(old(br.unread), n)
            case Some((v, rest)) => r == Ok(v) && br.unread == rest
            case None => r.Err?
  {
    var v := br.ReadBits(n);
    match v
    case Ok(x) => return Ok(x);
    case Err(e) => return Err(Read(e));
  }

  // ----- Dynamic tables

  /** Reads the transmitted code-length-code lengths into their places. */
  method ReadClenLengths(br: BitReader, hclen: nat) returns (r: Result<seq<nat>, InflateError>)
    requires br.Valid() && hclen <= 19
    modifies br
    ensures br.Valid()
    ensures match ReadClens(old(br.unread), 0, hclen, Fill(0, 19))
            case Some((clens, rest)) => r == Ok(clens) && br.unread == rest
            case None => r.Err?
  {
    hide TakeBits, Order, Buffered;
    var clen := new nat[19](_ => 0);
    assert clen[..] == Fill<nat>(0, 19);
    for k := 0 to hclen
      invariant br.Valid()
      invariant ReadClens(br.unread, k, hclen, clen[..]) == ReadClens(old(br.unread), 0, hclen, Fill(0, 19))
    {
      ghost var before := clen[..];
      var v := Take(br, 3);
      if v.Err? {
        return Err(v.error);
      }
      clen[Order(k)] := v.value;
      assert clen[..] == before[Order(k) := v.value];
    }
    return Ok(clen[..]);
  }

  /** Reads one code-length symbol and the extra bits it calls for. */
  method ReadClToken(br: BitReader, code: Huffman, ghost cl: seq<nat>) returns (r: Result<ClToken, InflateError>)
    requires br.Valid() && code.Represents(cl)
    modifies br
    ensures br.Valid()
    ensures match NextCl(cl, old(br.unread))
            case Some((t, rest)) => r == Ok(t) && br.unread == rest
            case None => r.Err?
  {
    hide TakeBits, Buffered, Slots, Accepts, Lookup;
    var s := code.Decode(br, cl);
    if s.Err? {
      return Err(Code(s.error));
    }
    var sym := s.value;
    if sym <= 15 {
      return Ok(Len(sym));
    }
    if sym > 18 {
      return Err(BadSymbol);
    }
    var v := Take(br, if sym == 16 then 2 else if sym == 17 then 3 else 7);
    if v.Err? {
      return Err(v.error);
    }
    return Ok(if sym == 16 then Repeat(3 + v.value) else if sym == 17 then Zeros(3 + v.value) else LongZeros(11 + v.value));
  }

  /** Overwrites `n` entries from `i` on. */
  method FillRange(a: array<nat>, i: nat, n: nat, v: nat)
    requires i + n <= a.Length
    modifies a
    ensures a[..i + n] == old(a[..i]) + Fill(v, n) && a[i + n..] == old(a[i + n..])
  {
    for k := i to i + n
      invariant forall j :: i <= j < k ==> a[j] == v
      invariant forall j :: 0 <= j < i || k <= j < a.Length ==> a[j] == old(a[j])
    {
      a[k] := v;
    }
  }

  /** Writes one token's lengths at `i`; zero runs rely on the array still being zero there. */
  method ApplyToken(lengths: array<nat>, i: nat, t: ClToken) returns (next: Option<nat>)
    requires i < lengths.Length && lengths[i..] == Fill(0, lengths.Length - i) && ClValid(t)
    modifies lengths
    ensures match ApplyCl(old(lengths[..i]), t)
            case None => next.None?
            case Some(a) =>
              if |a| > lengths.Length then next.None?
              else next == Some(|a|) && lengths[..|a|] == a && lengths[|a|..] == Fill(0, lengths.Length - |a|)
  {
    RestOfZeros(lengths[..], i);
    ghost var acc := lengths[..i];
    match t
    case Len(l) =>
      lengths[i] := l;
      assert lengths[..i + 1] == acc + [l];
      return Some(i + 1);
    case Repeat(n) =>
      if i == 0 || i + n > lengths.Length {
        return None;
      }
      var prev := lengths[i - 1];
      FillRange(lengths, i, n, prev);
      return Some(i + n);
    case Zeros(n) =>
      next := SkipZeros(lengths, i, n);
    case LongZeros(n) =>
      next := SkipZeros(lengths, i, n);
  }

  method SkipZeros(lengths: array<nat>, i: nat, n: nat) returns (next: Option<nat>)
    requires i < lengths.Length && lengths[i..] == Fill(0, lengths.Length - i)
    ensures if i + n > lengths.Length then next.None?
            else next == Some(i + n) && lengths[..i + n] == lengths[..i] + Fill(0, n) &&
                 lengths[i + n..] == Fill(0, lengths.Length - (i + n))
  {
    RestOfZeros(lengths[..], i);
    if i + n > lengths.Length {
      return None;
    }
    assert lengths[..i + n] == lengths[..i] + Fill(0, n);
    ghost var k := i + n;
    assert lengths[k..] == lengths[..][k..] == Fill(0, lengths.Length - k);
    return Some(i + n);
  }

  /** Reads exactly `total` code lengths. */
  method ReadCodeLengths(br: BitReader, code: Huffman, ghost cl: seq<nat>, total: nat) returns (r: Result<seq<nat>, InflateError>)
    requires br.Valid() && code.Represents(cl)
    modifies br
    ensures br.Valid()
    ensures match ReadLengths(cl, old(br.unread), [], total)
            case Some((ls, rest)) => r == Ok(ls) && br.unread == rest
            case None => r.Err?
  {
    hide NextCl, ApplyCl, Fill, Buffered, Slots, Accepts;
    var lengths := new nat[total](_ => 0);
    AllZeros(lengths[..]);
    var i := 0;
    while i < total
      invariant br.Valid() && i <= total
      invariant lengths[i..] == Fill(0, total - i)
      invariant ReadLengths(cl, br.unread, lengths[..i], total) == ReadLengths(cl, old(br.unread), [], total)
    {
      var t := ReadClToken(br, code, cl);
      if t.Err? {
        return Err(t.error);
      }
      var next := ApplyToken(lengths, i, t.value);
      if next.None? {
        return Err(BadRun);
      }
      i := next.value;
    }
    assert lengths[..total] == lengths[..];
    return Ok(lengths[..]);
  }

  lemma AllZeros(a: seq<nat>)
    requires forall i :: 0 <= i < |a| ==> a[i] == 0
    ensures a == Fill(0, |a|) && a[0..] == a && a[..0] == []
  {
  }

  lemma RestOfZeros(a: seq<nat>, i: nat)
    requires i <= |a| && a[i..] == Fill(0, |a| - i)
    ensures forall j :: i <= j < |a| ==> a[j] == 0
    ensures forall k :: i <= k <= |a| ==> a[k..] == Fill(0, |a| - k)
  {
    forall j | i <= j < |a|
      ensures a[j] == 0
    {
      assert a[i..][j - i] == 0;
    }
  }

  /** The part of a dynamic header after the three counts. */
  method ReadCountedTables(br: BitReader, hlit: nat, hdist: nat, hclen: nat)
    returns (r: Result<(Huffman, Huffman), InflateError>, ghost codes: (seq<nat>, seq<nat>))
    requires br.Valid() && hlit <= 286 && hdist <= 30 && hclen <= 19
    modifies br
    ensures br.Valid()
    ensures match CountedTables(hlit, hdist, hclen, old(br.unread))
            case Some((cs, rest)) =>
              r.Ok? && codes == cs && br.unread == rest && r.value.0.Represents(cs.0) && r.value.1.Represents(cs.1)
            case None => r.Err?
  {
    hide Accepts, ReadClens, ReadLengths;
    codes := ([], []);
    var clens := ReadClenLengths(br, hclen);
    if clens.Err? {
      return Err(clens.error), codes;
    }
    var clenCode := Huffmans.New(clens.value);
    if clenCode.Err? {
      return Err(Code(clenCode.error)), codes;
    }
    var lengths := ReadCodeLengths(br, clenCode.value, clens.value, hlit + hdist);
    if lengths.Err? {
      return Err(lengths.error), codes;
    }
    var ls := lengths.value;
    var lit := Huffmans.New(ls[..hlit]);
    if lit.Err? {
      return Err(Code(lit.error)), codes;
    }
    var dist := Huffmans.New(ls[hlit..]);
    if dist.Err? {
      return Err(Code(dist.error)), codes;
    }
    codes := (ls[..hlit], ls[hlit..]);
    return Ok((lit.value, dist.value)), codes;
  }

  /** Reads the code tables of a dynamic block. */
  method ReadDynamicTables(br: BitReader)
    returns (r: Result<(Huffman, Huffman), InflateError>, ghost codes: (seq<nat>, seq<nat>))
    requires br.Valid()
    modifies br
    ensures br.Valid()
    ensures match ReadTables(old(br.unread))
            case Some((cs, rest)) =>
              r.Ok? && codes == cs && br.unread == rest && r.value.0.Represents(cs.0) && r.value.1.Represents(cs.1)
            case None => r.Err?
  {
    hide TakeBits, CountedTables, Buffered, Slots, Accepts;
    codes := ([], []);
    var a := Take(br, 5);
    if a.Err? {
      return Err(a.error), codes;
    }
    var b := Take(br, 5);
    if b.Err? {
      return Err(b.error), codes;
    }
    ghost var r2 := br.unread;
    var c := Take(br, 4);
    if c.Err? {
      return Err(c.error), codes;
    }
    var hlit, hdist, hclen := a.value + 257, b.value + 1, c.value + 4;
    if hlit > 286 || hdist > 30 {
      return Err(TooManyCodes), codes;
    }
    TakeSound(r2, 4);
    Pow2Values();
    r, codes := ReadCountedTables(br, hlit, hdist, hclen);
  }

  // ----- Symbols

  /** Reads the rest of a match after its length symbol: its length and distance. */
  method ReadMatch(br: BitReader, dist: Huffman, ghost distLens: seq<nat>, idx: nat)
    returns (r: Result<(nat, nat), InflateError>)
    requires br.Valid() && dist.Represents(distLens) && idx < 29
    modifies br
    ensures br.Valid()
    ensures match NextMatch(distLens, idx, old(br.unread))
            case Some((t, rest)) => t.Match? && r == Ok((Length(t), Distance(t))) && br.unread == rest
            case None => r.Err?
  {
    hide TakeBits, Buffered, Slots, Accepts, Lookup, LengthBase, LengthExtra, DistBase, DistExtra;
    ExtraWidths(idx, 0);
    var le := Take(br, LengthExtra(idx));
    if le.Err? {
      return Err(le.error);
    }
    var len := LengthBase(idx) + le.value;
    var dsym := dist.Decode(br, distLens);
    if dsym.Err? {
      return Err(Code(dsym.error));
    }
    if dsym.value >= 30 {
      return Err(BadDistance);
    }
    ExtraWidths(idx, dsym.value);
    var de := Take(br, DistExtra(dsym.value));
    if de.Err? {
      return Err(de.error);
    }
    return Ok((len, DistBase(dsym.value) + de.value));
  }

  lemma ExtraWidths(l: nat, d: nat)
    requires l < 29 && d < 30
    ensures LengthExtra(l) <= 5 && DistExtra(d) <= 13
  {
    if l < 28 {
      LengthRow(l);
    }
    DistExtraBits(d);
  }

  lemma SymbolsUnfold(lit: seq<nat>, dist: seq<nat>, bits: Bits, out: seq<byte>)
    ensures var n := NextItem(lit, dist, bits);
            Symbols(lit, dist, bits, out)
            == if n.None? then None
               else if n.value.0.End? then Some((out, n.value.1))
               else if Apply(out, n.value.0.token).None? then None
               else Symbols(lit, dist, n.value.1, Apply(out, n.value.0.token).value)
  {
    hide NextItem, Apply;
  }

  /** Decodes symbols until the end-of-block marker. */
  method InflateSymbols(br: BitReader, sink: Sink, lit: Huffman, dist: Huffman, ghost litLens: seq<nat>, ghost distLens: seq<nat>)
    returns (r: Result<(), InflateError>)
    requires br.Valid() && sink.Valid() && lit.Represents(litLens) && dist.Represents(distLens)
    modifies br, sink, sink.out
    ensures br.Valid() && sink.Valid()
    ensures match Symbols(litLens, distLens, old(br.unread), old(sink.contents))
            case Some((out, rest)) => r.Ok? && sink.contents == out && br.unread == rest
            case None => r.Err?
  {
    hide Symbols, NextMatch, Buffered, Slots, Accepts, Lookup, CopyBytes, LengthBase, LengthExtra, DistBase, DistExtra, ByteBits;
    while true
      invariant br.Valid() && sink.Valid()
      invariant Symbols(litLens, distLens, br.unread, sink.contents) ==
                Symbols(litLens, distLens, old(br.unread), old(sink.contents))
      decreases |br.unread|
    {
      SymbolsUnfold(litLens, distLens, br.unread, sink.contents);
      var s := lit.Decode(br, litLens);
      if s.Err? {
        return Err(Code(s.error));
      }
      var sym := s.value;
      if sym <= 255 {
        sink.Push(sym);
      } else if sym == 256 {
        return Ok(());
      } else if sym <= 285 {
        ghost var before := br.unread;
        var m := ReadMatch(br, dist, distLens, sym - 257);
        if m.Err? {
          return Err(m.error);
        }
        MatchRanges(NextMatch(distLens, sym - 257, before).value.0);
        var ok := sink.CopyBack(m.value.1, m.value.0);
        if !ok {
          return Err(BadDistance);
        }
      } else {
        return Err(BadSymbol);
      }
    }
  }

  // ----- Blocks

  method FixedLiteralLengths() returns (lengths: seq<nat>)
    ensures lengths == FixedLit()
  {
    var l := new nat[288](_ => 0);
    FillRange(l, 0, 144, 8);
    FillRange(l, 144, 112, 9);
    FillRange(l, 256, 24, 7);
    FillRange(l, 280, 8, 8);
    return l[..];
  }

  lemma {:induction false} FromBitsAppend(a: Bits, b: Bits)
    ensures FromBits(a + b) == FromBits(a) + Pow2(|a|) * FromBits(b)
  {
    if a == [] {
      assert a + b == b;
    } else {
      assert (a + b)[1..] == a[1..] + b;
      FromBitsAppend(a[1..], b);
      TwiceProduct(Pow2(|a| - 1), FromBits(b));
    }
  }

  lemma TwiceProduct(p: nat, x: nat)
    ensures 2 * p * x == 2 * (p * x)
  {
  }

  /** Two bytes, little-endian. */
  lemma TwoBytes(x: byte, y: byte)
    ensures FromBits(ByteBits([x, y])) == x as int + 256 * y as int
  {
    hide ToBits;
    assert [x, y][1..] == [y] && [y][1..] == [];
    assert ByteBits([x, y]) == ToBits(x, 8) + ToBits(y, 8);
    FromBitsAppend(ToBits(x, 8), ToBits(y, 8));
    FromToBits(x, 8);
    FromToBits(y, 8);
    Pow2Values();
    LowSmall(x, 8);
    LowSmall(y, 8);
  }

  lemma StoredHeader(header: seq<byte>)
    requires |header| == 4
    ensures FromBits(ByteBits(header)[..16]) == header[0] as int + 256 * header[1] as int
    ensures FromBits(ByteBits(header)[16..32]) == header[2] as int + 256 * header[3] as int
  {
    hide ByteBits, FromBits;
    ByteBitsDrop(header, 2);
    assert header[..2] == [header[0], header[1]] && header[2..] == [header[2], header[3]];
    assert ByteBits(header)[16..32] == ByteBits(header)[16..];
    TwoBytes(header[0], header[1]);
    TwoBytes(header[2], header[3]);
  }

  lemma WholeBytesAligned(bits: Bits, n: nat)
    requires |bits| % 8 == 0 && 8 * n <= |bits|
    ensures |bits[8 * n..]| % 8 == 0 && Aligned(bits[8 * n..]) == bits[8 * n..] && Aligned(bits) == bits
  {
  }

  lemma AlignedIsWhole(bits: Bits)
    ensures |Aligned(bits)| % 8 == 0
  {
  }

  /** Copies a stored block, after checking its length against its complement. */
  method InflateStored(br: BitReader, sink: Sink) returns (r: Result<(), InflateError>)
    requires br.Valid() && sink.Valid()
    modifies br, sink, sink.out
    ensures br.Valid() && sink.Valid()
    ensures match StoredBody(Aligned(old(br.unread)), old(sink.contents))
            case Some((out, rest)) => r.Ok? && sink.contents == out && br.unread == rest
            case None => r.Err?
  {
    hide Buffered, ByteBits, FromBits, Aligned;
    AlignedIsWhole(br.unread);
    br.Align();
    ghost var bits := br.unread;
    WholeBytesAligned(bits, 0);
    var h := br.Bytes(4);
    if h.Err? {
      return Err(Read(h.error));
    }
    var header := h.value;
    StoredHeader(header);
    WholeBytesAligned(bits, 4);
    assert bits[..32][..16] == bits[..16] && bits[..32][16..32] == bits[16..32];
    var len := header[0] as int + 256 * header[1] as int;
    var nlen := header[2] as int + 256 * header[3] as int;
    if nlen != 0xffff - len {
      return Err(StoredLengthMismatch);
    }
    var d := br.Bytes(len);
    if d.Err? {
      return Err(Read(d.error));
    }
    BytesOfByteBits(d.value);
    sink.Extend(d.value);
    return Ok(());
  }

  /** One block's body. */
  method InflateBody(br: BitReader, sink: Sink, btype: nat) returns (r: Result<(), InflateError>)
    requires br.Valid() && sink.Valid()
    modifies br, sink, sink.out
    ensures br.Valid() && sink.Valid()
    ensures match Body(btype, old(br.unread), old(sink.contents))
            case Some((out, rest)) => r.Ok? && sink.contents == out && br.unread == rest
            case None => r.Err?
  {
    hide Buffered, Slots, Accepts, StoredBody, Symbols, ReadTables, Aligned;
    match btype
    case 0 =>
      r := InflateStored(br, sink);
    case 1 =>
      FixedCodes();
      var fixed := FixedLiteralLengths();
      var lit := Huffmans.New(fixed);
      var dist := Huffmans.New(Fill(5, 32));
      if lit.Err? || dist.Err? {
        assert false;
        return Err(BadSymbol);
      }
      r := InflateSymbols(br, sink, lit.value, dist.value, FixedLit(), FixedDist());
    case 2 =>
      var t, codes := ReadDynamicTables(br);
      if t.Err? {
        return Err(t.error);
      }
      var (lit, dist) := t.value;
      r := InflateSymbols(br, sink, lit, dist, codes.0, codes.1);
    case _ =>
      return Err(ReservedBlockType);
  }

  // Inflates a raw deflate stream into the sink, leaving the reader just behind the final block.
  // Terminates on every input: each round consumes at least the three header bits.
  method InflateBlocks(br: BitReader, sink: Sink) returns (r: Result<(), InflateError>)
    requires br.Valid() && sink.Valid()
    modifies br, sink, sink.out
    ensures br.Valid() && sink.Valid()
    ensures match Inflate(old(br.unread), old(sink.contents))
            case Some((out, rest)) => r.Ok? && sink.contents == out && br.unread == rest
            case None => r.Err?
  {
    hide Buffered, Body;
    while true
      invariant br.Valid() && sink.Valid()
      invariant Inflate(br.unread, sink.contents) == Inflate(old(br.unread), old(sink.contents))
      decreases |br.unread|
    {
      HeaderBitsOf(br.unread);
      var l := Take(br, 1);
      if l.Err? {
        return Err(l.error);
      }
      var t := Take(br, 2);
      if t.Err? {
        return Err(t.error);
      }
      var b := InflateBody(br, sink, t.value);
      if b.Err? {
        return Err(b.error);
      }
      if l.value == 1 {
        return Ok(());
      }
    }
  }

  lemma SliceOfTail(bits: Bits)
    requires |bits| >= 3
    ensures bits[1..][..2] == bits[1..3] && bits[1..][2..] == bits[3..]
  {
  }

  /** The three header bits, read as one bit and then two. */
  lemma HeaderBitsOf(bits: Bits)
    ensures TakeBits(bits, 1).Some? <==> |bits| >= 1
    ensures |bits| >= 1 ==> (TakeBits(bits, 1).value.0 == 1 <==> bits[0]) && TakeBits(bits, 1).value.1 == bits[1..]
    ensures |bits| >= 1 ==> (TakeBits(bits[1..], 2).Some? <==> |bits| >= 3)
    ensures |bits| >= 3 ==> TakeBits(bits[1..], 2).value == (FromBits(bits[1..3]), bits[3..])
  {
    if |bits| >= 1 {
      assert bits[..1][1..] == [];
      assert FromBits(bits[..1]) == if bits[0] then 1 else 0;
    }
    if |bits| >= 3 {
      SliceOfTail(bits);
    }
  }
}
