/** Byte-mode data codewords (ISO/IEC 18004:2006, section 6.4): bit assembly, padding, and reading back. */
module QrData {
  import opened Sequences
  import opened Wrappers
  import opened Words
  import opened BitLists
  import opened HuffmanCodes
  import opened QrTables

  // ----- Bytes as bits, most significant first

  function MsbStream(data: seq<byte>): (bits: Bits)
    ensures |bits| == 8 * |data|
  {
    if data == [] then [] else MsbBits(data[0], 8) + MsbStream(data[1..])
  }

  function MsbToBytes(bits: Bits): (data: seq<byte>)
    ensures |data| == |bits| / 8
    decreases |bits|
  {
    if |bits| < 8 then []
    else
      MsbOfValue(bits[..8]);
      Pow2Values();
      [MsbValue(bits[..8])] + MsbToBytes(bits[8..])
  }

  lemma MsbValueOf(c: nat, n: nat)
    requires c < Pow2(n)
    ensures MsbValue(MsbBits(c, n)) == c
  {
    MsbOfValue(MsbBits(c, n));
    MsbInjective(MsbValue(MsbBits(c, n)), c, n);
  }

  lemma {:induction false} MsbStreamOfBytes(bits: Bits)
    requires |bits| % 8 == 0
    ensures MsbStream(MsbToBytes(bits)) == bits
    decreases |bits|
  {
    hide MsbBits, MsbValue;
    if bits != [] {
      MsbOfValue(bits[..8]);
      MsbStreamOfBytes(bits[8..]);
      var data := MsbToBytes(bits);
      assert data[1..] == MsbToBytes(bits[8..]);
      assert bits == bits[..8] + bits[8..];
    }
  }

  lemma {:induction false} BytesOfMsbStream(data: seq<byte>)
    ensures MsbToBytes(MsbStream(data)) == data
  {
    hide MsbBits, MsbValue;
    if data != [] {
      var bits := MsbStream(data);
      CutAppend(bits, MsbBits(data[0], 8), MsbStream(data[1..]), 8);
      Pow2Values();
      MsbValueOf(data[0], 8);
      BytesOfMsbStream(data[1..]);
    }
  }

  lemma {:induction false} MsbStreamAppend(a: seq<byte>, b: seq<byte>)
    ensures MsbStream(a + b) == MsbStream(a) + MsbStream(b)
  {
    hide MsbBits;
    if a == [] {
      assert a + b == b;
    } else {
      assert (a + b)[1..] == a[1..] + b;
      MsbStreamAppend(a[1..], b);
    }
  }

  lemma MsbStreamOne(b: byte)
    ensures MsbStream([b]) == MsbBits(b, 8)
  {
    hide MsbBits;
    assert [b][1..] == [];
  }

  // ----- The bit accumulator

  lemma {:induction false} MsbZeros(c: nat, n: nat)
    ensures MsbBits(c, n) == Fill(false, n) <==> Low(c, n) == 0
  {
    if n != 0 {
      MsbLast(c, n - 1);
      MsbZeros(c / 2, n - 1);
      assert Fill(false, n) == Fill(false, n - 1) + [false];
      if MsbBits(c, n) == Fill(false, n) {
        assert MsbBits(c, n)[n - 1] == Fill(false, n)[n - 1];
        assert MsbBits(c, n)[..n - 1] == Fill(false, n)[..n - 1] == Fill(false, n - 1);
      }
    }
  }

  lemma Recombine(b: nat, j: nat)
    requires Low(b, j) == 0
    ensures b == Shr(b, j) * Pow2(j)
  {
    ShrIsDivision(b, j);
    LowIsMod(b, j);
  }

  /** Setting the highest of the clear low bits. */
  lemma OrNextBit(b: nat, j: nat)
    requires j > 0 && Low(b, j) == 0
    ensures var c := Or(b, Pow2(j - 1));
            c == b + Pow2(j - 1) && Shr(c, j) == Shr(b, j) && Shr(c, j - 1) == 2 * Shr(b, j) + 1 && Low(c, j - 1) == 0
  {
    var h, p := Shr(b, j), Pow2(j - 1);
    Recombine(b, j);
    OrDisjoint(p, h, j);
    OrComm(p, b);
    var c := b + p;
    DoubleProduct(h, p);
    assert c == (2 * h + 1) * p by { OddProduct(h, p); }
    DivUnique(c, p, 2 * h + 1, 0);
    ShrIsDivision(c, j - 1);
    LowIsMod(c, j - 1);
    ShrShr(c, j - 1, 1);
    assert Shr(2 * h + 1, 1) == h;
  }

  lemma OddProduct(h: nat, p: nat)
    ensures 2 * (h * p) + p == (2 * h + 1) * p
  {
  }

  /** OR-ing `0x80 >> k` into a byte whose bits from `k` on are clear sets exactly bit `k`. */
  lemma OrBit(b: byte, k: nat)
    requires k < 8 && MsbBits(b, 8)[k..] == Fill(false, 8 - k)
    ensures Or(b, Shr(0x80, k)) < 256
    ensures MsbBits(Or(b, Shr(0x80, k)), 8) == MsbBits(b, 8)[..k] + [true] + Fill(false, 7 - k)
  {
    hide MsbBits, Low, Or, Shr, Pow2;
    var j := 8 - k;
    MsbSplit(b, k, j);
    MsbZeros(b, j);
    OrNextBit(b, j);
    HighBit(k);
    var c := Or(b, Pow2(j - 1));
    MsbSplit(c, k, j);
    MsbUnfold(c, j);
    MsbZeros(c, j - 1);
    ShrBoundByte(b, j);
    Recombine(b, j);
    ByteOfParts(Shr(b, j), j);
  }

  lemma MsbUnfold(c: nat, n: nat)
    requires n > 0
    ensures MsbBits(c, n) == [Shr(c, n - 1) % 2 == 1] + MsbBits(c, n - 1)
  {
  }

  lemma HighBit(k: nat)
    requires k < 8
    ensures Shr(0x80, k) == Pow2(7 - k)
  {
    Pow2Values();
    Pow2Add(7 - k, k);
    DivMul(Pow2(7 - k), Pow2(k));
    ShrIsDivision(0x80, k);
  }

  lemma ShrBoundByte(b: byte, j: nat)
    requires j <= 8
    ensures Shr(b, j) < Pow2(8 - j)
  {
    Pow2Values();
    ShrBound(b, j, 8);
  }

  lemma ByteOfParts(h: nat, j: nat)
    requires 0 < j <= 8 && h < Pow2(8 - j)
    ensures h * Pow2(j) + Pow2(j - 1) < 256
  {
    Pow2Values();
    Pow2Add(8 - j, j);
    MulMonotone(h + 1, Pow2(8 - j), Pow2(j));
  }

  /** An MSB-first bit accumulator. */
  class BitBuf {
    var bytes: seq<byte>
    var bits: nat
    /** The abstract value: the bits pushed so far. */
    ghost var stream: Bits

    ghost predicate Valid()
      reads this
    {
      Holding(bytes, bits, stream)
    }

    constructor ()
      ensures Valid() && stream == []
    {
      bytes, bits := [], 0;
      stream := [];
    }

    /** Appends the low `width` bits of `value`, most significant first. */
    method Push(value: nat, width: nat)
      requires Valid()
      modifies this
      ensures Valid() && stream == old(stream) + MsbBits(value, width)
    {
      hide Holding;
      var i := width;
      while i > 0
        invariant 0 <= i <= width
        invariant Valid() && stream + MsbBits(value, i) == old(stream) + MsbBits(value, width)
      {
        i := i - 1;
        MsbUnfold(value, i + 1);
        ghost var before := stream;
        PushBit(Shr(value, i) % 2 == 1);
        assert before + ([Shr(value, i) % 2 == 1] + MsbBits(value, i)) == stream + MsbBits(value, i);
      }
    }

    method PushBit(bit: bool)
      requires Valid()
      modifies this
      ensures Valid() && stream == old(stream) + [bit]
    {
      HoldingStep(bytes, bits, stream, bit);
      if bits % 8 == 0 {
        bytes := bytes + [0];
      }
      if bit {
        var idx := bits / 8;
        bytes := bytes[idx := Or(bytes[idx], Shr(0x80, bits % 8))];
      }
      bits := bits + 1;
      stream := stream + [bit];
    }
  }

  /** The bytes hold the stream, the last one filled up with zeros. */
  ghost predicate Holding(bytes: seq<byte>, bits: nat, stream: Bits) {
    && bits == |stream| && |bytes| == (bits + 7) / 8
    && MsbStream(bytes) == stream + Fill(false, 8 * |bytes| - bits)
  }

  function Grown(bytes: seq<byte>, bits: nat): seq<byte> {
    if bits % 8 == 0 then bytes + [0] else bytes
  }

  lemma GrownHolds(bytes: seq<byte>, bits: nat, stream: Bits)
    requires Holding(bytes, bits, stream)
    ensures |Grown(bytes, bits)| == bits / 8 + 1
    ensures MsbStream(Grown(bytes, bits)) == stream + Fill(false, 8 * (bits / 8 + 1) - bits)
  {
    hide MsbStream, MsbBits;
    if bits % 8 == 0 {
      MsbStreamAppend(bytes, [0]);
      MsbStreamOne(0);
      MsbZeros(0, 8);
      LowSmall(0, 8);
      assert stream + Fill(false, 0) == stream;
    }
  }

  /** Only the last byte is touched. */
  lemma LastByte(bytes: seq<byte>, b: byte)
    requires |bytes| > 0
    ensures var n := |bytes| - 1;
            && MsbStream(bytes)[8 * n..] == MsbBits(bytes[n], 8)
            && MsbStream(bytes)[..8 * n] == MsbStream(bytes[..n])
            && MsbStream(bytes[n := b]) == MsbStream(bytes[..n]) + MsbBits(b, 8)
  {
    hide MsbStream, MsbBits;
    var n := |bytes| - 1;
    assert bytes == bytes[..n] + [bytes[n]] && bytes[n := b] == bytes[..n] + [b];
    MsbStreamAppend(bytes[..n], [bytes[n]]);
    MsbStreamAppend(bytes[..n], [b]);
    MsbStreamOne(bytes[n]);
    MsbStreamOne(b);
    CutAppend(MsbStream(bytes), MsbStream(bytes[..n]), MsbBits(bytes[n], 8), 8 * n);
  }

  lemma HoldingStep(bytes: seq<byte>, bits: nat, stream: Bits, bit: bool)
    requires Holding(bytes, bits, stream)
    ensures var g := Grown(bytes, bits); var idx := bits / 8;
            && idx < |g|
            && (!bit ==> Holding(g, bits + 1, stream + [false]))
            && (bit ==> Or(g[idx], Shr(0x80, bits % 8)) < 256 &&
                        Holding(g[idx := Or(g[idx], Shr(0x80, bits % 8))], bits + 1, stream + [true]))
  {
    hide MsbStream, MsbBits, Or, Shr;
    var g, idx, k := Grown(bytes, bits), bits / 8, bits % 8;
    GrownHolds(bytes, bits, stream);
    var z := 8 * (idx + 1) - bits;
    assert z == 8 - k && |g| == (bits + 1 + 7) / 8;
    if !bit {
      assert Fill(false, z) == [false] + Fill(false, z - 1);
      assert stream + Fill(false, z) == (stream + [false]) + Fill(false, z - 1);
    } else {
      LastByteBits(stream, idx, k);
      LastByte(g, 0);
      OrBit(g[idx], k);
      var b := Or(g[idx], Shr(0x80, k));
      LastByte(g, b);
      assert stream == stream[..8 * idx] + stream[8 * idx..];
      assert MsbStream(g[idx := b]) == (stream + [true]) + Fill(false, z - 1);
    }
  }

  lemma LastByteBits(stream: Bits, idx: nat, k: nat)
    requires |stream| == 8 * idx + k && k < 8
    ensures var s := stream + Fill(false, 8 - k);
            s[8 * idx..][k..] == Fill(false, 8 - k) && s[8 * idx..][..k] == stream[8 * idx..] && s[..8 * idx] == stream[..8 * idx]
  {
  }

  // ----- Data codewords

  const MODE_BYTE: nat := 4

  /** Mode, character count, and the payload. */
  function SegmentBits(data: seq<byte>, version: nat): Bits {
    MsbBits(MODE_BYTE, 4) + MsbBits(|data|, CountBits(version)) + MsbStream(data)
  }

  /** The segment, up to four terminator bits, and zeros to a byte boundary. */
  function TerminatedBits(data: seq<byte>, version: nat, capacity: nat): Bits
    requires |SegmentBits(data, version)| <= 8 * capacity
  {
    var seg := SegmentBits(data, version);
    var room := 8 * capacity - |seg|;
    var t := seg + Fill(false, if room < 4 then room else 4);
    t + Fill(false, (8 - |t| % 8) % 8)
  }

  /** The two pad codewords, alternating. */
  function Pads(n: nat): (p: seq<byte>)
    ensures |p| == n
  {
    seq(n, i => if i % 2 == 0 then 0xec else 0x11)
  }

  lemma HoldsRoom(data: seq<byte>, version: nat, ec: EcLevel)
    requires 1 <= version <= 40 && Holds(version, |data|, ec)
    ensures |SegmentBits(data, version)| <= 8 * DataCapacity(version, ec)
    ensures var t := TerminatedBits(data, version, DataCapacity(version, ec));
            |t| % 8 == 0 && |t| / 8 <= DataCapacity(version, ec)
  {
    hide DataCapacity;
  }

  /** The data codewords of a payload, padded to the version's capacity. */
  function EncodedData(data: seq<byte>, version: nat, ec: EcLevel): (out: seq<byte>)
    requires 1 <= version <= 40 && Holds(version, |data|, ec)
    ensures |out| == DataCapacity(version, ec)
  {
    HoldsRoom(data, version, ec);
    var t := TerminatedBits(data, version, DataCapacity(version, ec));
    MsbToBytes(t) + Pads(DataCapacity(version, ec) - |t| / 8)
  }

  method EncodeData(data: seq<byte>, version: nat, ec: EcLevel) returns (out: seq<byte>)
    requires 1 <= version <= 40 && Holds(version, |data|, ec)
    ensures out == EncodedData(data, version, ec)
  {
    hide DataCapacity, MsbBits, MsbStream, Holding;
    HoldsRoom(data, version, ec);
    var capacity := DataCapacity(version, ec);
    var buf := new BitBuf();
    buf.Push(4, 4);
    buf.Push(|data|, CountBits(version));
    PushBytes(buf, data);
    SegmentAssoc(data, version);
    assert buf.stream == SegmentBits(data, version);
    BitsAreLength(buf.bytes, buf.bits, buf.stream);
    var remaining := capacity * 8 - buf.bits;
    PushedZeros(if remaining < 4 then remaining else 4);
    buf.Push(0, if remaining < 4 then remaining else 4);
    BitsAreLength(buf.bytes, buf.bits, buf.stream);
    if buf.bits % 8 != 0 {
      // Never taken: the mode's four bits and the terminator's four always complete a byte.
      assert false;
    }
    assert buf.stream + Fill(false, 0) == buf.stream;
    assert buf.stream == TerminatedBits(data, version, capacity);
    WholeBytes(buf.bytes, buf.bits, buf.stream);
    out := buf.bytes;
    ghost var filled := |out|;
    while |out| < capacity
      invariant filled <= |out| <= capacity
      invariant out == MsbToBytes(TerminatedBits(data, version, capacity)) + Pads(|out| - filled)
    {
      ghost var n := |out| - filled;
      assert Pads(n + 1) == Pads(n) + [if n % 2 == 0 then 0xec else 0x11];
      out := out + [if PadTurn(|out|, |buf.bytes|) then 0xec else 0x11];
    }
  }

  /** Whether the next pad codeword is the first of the pair. */
  predicate PadTurn(length: nat, filled: nat)
    requires filled <= length
  {
    (length - filled) % 2 == 0
  }

  method PushBytes(buf: BitBuf, data: seq<byte>)
    requires buf.Valid()
    modifies buf
    ensures buf.Valid() && buf.stream == old(buf.stream) + MsbStream(data)
  {
    hide MsbBits, Holding;
    assert data[..0] == [];
    for i := 0 to |data|
      invariant buf.Valid() && buf.stream == old(buf.stream) + MsbStream(data[..i])
    {
      assert data[..i + 1] == data[..i] + [data[i]];
      MsbStreamAppend(data[..i], [data[i]]);
      MsbStreamOne(data[i]);
      buf.Push(data[i], 8);
    }
    assert data[..|data|] == data;
  }

  lemma SegmentAssoc(data: seq<byte>, version: nat)
    ensures [] + MsbBits(MODE_BYTE, 4) + MsbBits(|data|, CountBits(version)) + MsbStream(data) == SegmentBits(data, version)
  {
    hide MsbBits, MsbStream;
    assert [] + MsbBits(MODE_BYTE, 4) == MsbBits(MODE_BYTE, 4);
  }

  lemma {:induction false} PushedZeros(n: nat)
    ensures MsbBits(0, n) == Fill(false, n)
  {
    MsbZeros(0, n);
    LowSmall(0, n);
  }

  lemma BitsAreLength(bytes: seq<byte>, bits: nat, stream: Bits)
    requires Holding(bytes, bits, stream)
    ensures bits == |stream|
  {
  }

  lemma WholeBytes(bytes: seq<byte>, bits: nat, stream: Bits)
    requires Holding(bytes, bits, stream) && |stream| % 8 == 0
    ensures bytes == MsbToBytes(stream)
  {
    hide MsbStream;
    assert stream + Fill(false, 0) == stream;
    BytesOfMsbStream(bytes);
  }

  // ----- Reading back

  /** Reads a byte-mode segment: mode indicator, count, and that many bytes. */
  function ParsePayload(codewords: seq<byte>, version: nat): Option<seq<byte>> {
    var bits, cb := MsbStream(codewords), CountBits(version);
    if |bits| < 4 + cb || MsbValue(bits[..4]) != MODE_BYTE then None
    else
      var n := MsbValue(bits[4..][..cb]);
      if |bits| < 4 + cb + 8 * n then None
      else Some(MsbToBytes(bits[4 + cb..][..8 * n]))
  }

  /** The payload is read back from its data codewords, whatever padding follows it. */
  lemma PayloadRoundTrip(data: seq<byte>, version: nat, ec: EcLevel)
    requires 1 <= version <= 40 && Holds(version, |data|, ec)
    ensures ParsePayload(EncodedData(data, version, ec), version) == Some(data)
  {
    hide DataCapacity, MsbBits, MsbStream, MsbValue, MsbToBytes, TerminatedBits, SegmentBits;
    HoldsRoom(data, version, ec);
    var cap := DataCapacity(version, ec);
    var t := TerminatedBits(data, version, cap);
    var pads := Pads(cap - |t| / 8);
    MsbStreamAppend(MsbToBytes(t), pads);
    MsbStreamOfBytes(t);
    var tail := SegmentPrefix(data, version, cap);
    var bits := MsbStream(EncodedData(data, version, ec));
    assert bits == (SegmentBits(data, version) + tail) + MsbStream(pads);
    assert bits == SegmentBits(data, version) + (tail + MsbStream(pads));
    SegmentRead(data, version, ec, tail + MsbStream(pads));
  }

  lemma SegmentPrefix(data: seq<byte>, version: nat, capacity: nat) returns (tail: Bits)
    requires |SegmentBits(data, version)| <= 8 * capacity
    ensures TerminatedBits(data, version, capacity) == SegmentBits(data, version) + tail
  {
    hide SegmentBits;
    tail := TerminatedBits(data, version, capacity)[|SegmentBits(data, version)|..];
  }

  lemma CountFits(len: nat, version: nat, ec: EcLevel)
    requires 1 <= version <= 40 && Holds(version, len, ec)
    ensures len < Pow2(CountBits(version))
  {
    hide DataCapacity;
    CapacityBounds(version, ec);
    Pow2Values();
  }

  lemma SegmentRead(data: seq<byte>, version: nat, ec: EcLevel, tail: Bits)
    requires 1 <= version <= 40 && Holds(version, |data|, ec)
    ensures var bits, cb := SegmentBits(data, version) + tail, CountBits(version);
            && |bits| >= 4 + cb + 8 * |data|
            && MsbValue(bits[..4]) == MODE_BYTE && MsbValue(bits[4..][..cb]) == |data|
            && MsbToBytes(bits[4 + cb..][..8 * |data|]) == data
  {
    hide MsbBits, MsbStream, MsbValue, MsbToBytes, Holds;
    var a, b, c := MsbBits(MODE_BYTE, 4), MsbBits(|data|, CountBits(version)), MsbStream(data);
    ThreeParts(a, b, c, tail);
    Pow2Values();
    MsbValueOf(MODE_BYTE, 4);
    CountFits(|data|, version, ec);
    MsbValueOf(|data|, CountBits(version));
    BytesOfMsbStream(data);
  }

  lemma ThreeParts<T>(a: seq<T>, b: seq<T>, c: seq<T>, d: seq<T>)
    ensures var s := ((a + b) + c) + d;
            s[..|a|] == a && s[|a|..][..|b|] == b && s[|a| + |b|..][..|c|] == c
  {
  }
}
