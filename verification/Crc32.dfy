/** CRC-32 (RFC 1952, section 8): the table-driven form against bit-serial division. */
module Crc32s {
  import opened Words
  import opened BitLists

  /** The generator polynomial, reflected. */
  const POLY: nat := 0xedb8_8320
  const U32: nat := 0x1_0000_0000
  const ONES: nat := 0xffff_ffff

  /** One step of reflected division: shift out the low bit, subtracting the generator if it was set. */
  function Step(c: nat): nat {
    if c % 2 == 1 then Xor(POLY, c / 2) else c / 2
  }

  function Steps(c: nat, n: nat): nat
    decreases n, c
  {
    if n == 0 then c else Steps(Step(c), n - 1)
  }

  function Feed(c: nat, bit: bool): nat {
    Step(Xor(c, if bit then 1 else 0))
  }

  /** Bit-serial division: every message bit enters at the low end of the register. */
  function CrcBits(c: nat, bits: Bits): nat
    decreases bits, c
  {
    if bits == [] then c else CrcBits(Feed(c, bits[0]), bits[1..])
  }

  /** The CRC-32 of a byte string in the gzip convention, as a function of its bits. */
  function Checksum(data: seq<byte>): nat {
    Xor(CrcBits(ONES, ByteBits(data)), ONES)
  }

  lemma {:induction false} CrcBitsAppend(c: nat, a: Bits, b: Bits)
    ensures CrcBits(c, a + b) == CrcBits(CrcBits(c, a), b)
    decreases a
  {
    if a == [] {
      assert a + b == b;
    } else {
      assert (a + b)[1..] == a[1..] + b;
      CrcBitsAppend(Feed(c, a[0]), a[1..], b);
    }
  }

  /** Checksumming a string in two chunks is checksumming it at once. */
  lemma CrcBytesAppend(c: nat, a: seq<byte>, b: seq<byte>)
    ensures CrcBits(c, ByteBits(a + b)) == CrcBits(CrcBits(c, ByteBits(a)), ByteBits(b))
  {
    ByteBitsAppend(a, b);
    CrcBitsAppend(c, ByteBits(a), ByteBits(b));
  }

  /** Bits above the lowest pass through a step untouched. */
  lemma StepLinear(a: nat, k: nat)
    ensures Step(Xor(a, 2 * k)) == Xor(Step(a), k)
  {
    XorParts(a, 2 * k);
    XorAssoc(POLY, a / 2, k);
  }

  /** Feeding a word bit by bit is XOR-ing it in at once and then stepping. */
  lemma {:induction false} FeedWord(c: nat, b: nat, n: nat)
    requires b < Pow2(n)
    ensures CrcBits(c, ToBits(b, n)) == Steps(Xor(c, b), n)
    decreases n
  {
    if n == 0 {
      XorZero(c);
    } else {
      var bit := if b % 2 == 1 then 1 else 0;
      var bits := ToBits(b, n);
      assert bits[1..] == ToBits(b / 2, n - 1);
      FeedWord(Feed(c, bits[0]), b / 2, n - 1);
      assert Step(Xor(c, b)) == Xor(Feed(c, bits[0]), b / 2) by {
        SplitLowBit(b);
        XorAssoc(c, bit, 2 * (b / 2));
        StepLinear(Xor(c, bit), b / 2);
      }
    }
  }

  lemma XorPack(bit: nat, low: nat, k: nat)
    requires bit < 2
    ensures Xor(bit + 2 * low, 2 * k) == bit + 2 * Xor(low, k)
  {
    XorParts(bit + 2 * low, 2 * k);
  }

  lemma SplitLowBit(b: nat)
    ensures Xor(if b % 2 == 1 then 1 else 0, 2 * (b / 2)) == b
  {
    XorPack(b % 2, 0, b / 2);
    XorZero(b / 2);
  }

  /** A multiple of `2^n` falls through `n` steps. */
  lemma {:induction false} StepsHigh(a: nat, h: nat, n: nat)
    ensures Steps(Xor(a, h * Pow2(n)), n) == Xor(Steps(a, n), h)
    decreases n
  {
    if n != 0 {
      var k := h * Pow2(n - 1);
      DoubleProduct(h, Pow2(n - 1));
      StepLinear(a, k);
      StepsHigh(Step(a), h, n - 1);
    }
  }

  lemma {:induction false} XorSplit(x: nat, n: nat)
    ensures x == Xor(Low(x, n), Shr(x, n) * Pow2(n))
  {
    if n == 0 {
      XorZero(x);
    } else {
      XorSplit(x / 2, n - 1);
      DoubleProduct(Shr(x, n), Pow2(n - 1));
      XorPack(x % 2, Low(x / 2, n - 1), Shr(x, n) * Pow2(n - 1));
    }
  }

  /** The byte-wise update: the table entry of the low byte over the register shifted down. */
  function TableUpdate(c: nat, b: byte): nat {
    Xor(Steps(LowBits(Xor(c, b), 8), 8), Shr(c, 8))
  }

  /** One table lookup does the work of feeding eight bits. */
  lemma TableStep(c: nat, b: byte)
    ensures CrcBits(c, ToBits(b, 8)) == TableUpdate(c, b)
  {
    Pow2Values();
    FeedWord(c, b, 8);
    var x := Xor(c, b);
    XorSplit(x, 8);
    StepsHigh(Low(x, 8), Shr(x, 8), 8);
    AndMask(x, 8);
    XorShr(c, b, 8);
    ShrIsDivision(b, 8);
    XorZero(Shr(c, 8));
  }

  lemma CodedStep(c: nat)
    requires c < U32
    ensures Shr(c, 1) == c / 2 && Step(c) < U32
  {
    Pow2Values();
    XorBound(POLY, c / 2, 32);
  }

  ghost predicate IsCrcTable(t: seq<nat>) {
    |t| == 256 && forall i :: 0 <= i < 256 ==> t[i] == Steps(i, 8) && t[i] < U32
  }

  /** The 256-entry table, each entry the remainder of its index. */
  method CrcTable() returns (table: seq<nat>)
    ensures IsCrcTable(table)
  {
    var t := new nat[256](_ => 0);
    for i := 0 to 256
      invariant forall k :: 0 <= k < i ==> t[k] == Steps(k, 8) && t[k] < U32
    {
      t[i] := TableEntry(i);
    }
    table := t[..];
  }

  method TableEntry(i: nat) returns (c: nat)
    requires i < 256
    ensures c == Steps(i, 8) && c < U32
  {
    Pow2Values();
    c := i;
    for k := 0 to 8
      invariant Steps(c, 8 - k) == Steps(i, 8) && c < U32
    {
      CodedStep(c);
      c := if c % 2 == 1 then Xor(POLY, Shr(c, 1)) else Shr(c, 1);
    }
  }

  /** Folds `data` into a CRC register through the table. */
  method Crc32Update(start: nat, data: seq<byte>) returns (crc: nat)
    requires start < U32
    ensures crc == CrcBits(start, ByteBits(data)) && crc < U32
  {
    var t := CrcTable();
    crc := start;
    assert data[..0] == [];
    for n := 0 to |data|
      invariant crc == CrcBits(start, ByteBits(data[..n])) && crc < U32
    {
      NextByte(start, data, n);
      TableLookup(t, crc, data[n]);
      crc := Xor(t[LowBits(Xor(crc, data[n]), 8)], Shr(crc, 8));
    }
    assert data[..|data|] == data;
  }

  lemma NextByte(start: nat, data: seq<byte>, n: nat)
    requires n < |data|
    ensures var c := CrcBits(start, ByteBits(data[..n]));
            CrcBits(start, ByteBits(data[..n + 1])) == TableUpdate(c, data[n])
  {
    assert data[..n + 1] == data[..n] + [data[n]];
    CrcBytesAppend(start, data[..n], [data[n]]);
    OneByte(data[n]);
    TableStep(CrcBits(start, ByteBits(data[..n])), data[n]);
  }

  lemma OneByte(b: byte)
    ensures ByteBits([b]) == ToBits(b, 8)
  {
    assert [b][1..] == [];
    assert ToBits(b, 8) + [] == ToBits(b, 8);
  }

  lemma TableLookup(t: seq<nat>, crc: nat, b: byte)
    requires IsCrcTable(t) && crc < U32
    ensures LowBits(Xor(crc, b), 8) < 256
    ensures Xor(t[LowBits(Xor(crc, b), 8)], Shr(crc, 8)) == TableUpdate(crc, b) < U32
  {
    Pow2Values();
    AndMask(Xor(crc, b), 8);
    LowIsMod(Xor(crc, b), 8);
    ShrBound(crc, 8, 32);
    Pow2Monotone(24, 32);
    XorBound(t[LowBits(Xor(crc, b), 8)], Shr(crc, 8), 32);
  }

  /** The CRC-32 of a buffer. */
  method Crc32(data: seq<byte>) returns (crc: nat)
    ensures crc == Checksum(data)
  {
    Pow2Values();
    crc := Crc32Update(ONES, data);
    crc := Xor(crc, ONES);
  }
}
