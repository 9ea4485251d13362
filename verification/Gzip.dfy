/** The gzip container (RFC 1952, section 2.3): headers, members, and the multi-member loop. */
module Gzip {
  import opened Wrappers
  import opened Words
  import opened BitLists
  import opened Crc32s
  import opened Blocks
  import opened Inflates

  datatype GzipError =
    | TooShort | BadMagic | BadMethod | ReservedFlags | TruncatedExtra | UnterminatedString | TruncatedHeaderCrc
    | BadDeflate(e: InflateError) | TruncatedTrailer | CrcMismatch | LengthMismatch

  const FHCRC: nat := 1
  const FEXTRA: nat := 2
  const FNAME: nat := 3
  const FCOMMENT: nat := 4

  /** Whether header flag number `k` is set. */
  predicate Flag(flags: byte, k: nat) {
    Shr(flags, k) % 2 == 1
  }

  // ----- Header parsing

  function FindZero(gz: seq<byte>, p: nat): (r: Option<nat>)
    requires p <= |gz|
    ensures r.Some? ==> p <= r.value < |gz|
    decreases |gz| - p
  {
    if p == |gz| then None else if gz[p] == 0 then Some(p) else FindZero(gz, p + 1)
  }

  /** A two-byte little-endian length and that many bytes. */
  function SkipExtra(gz: seq<byte>, p: nat): (r: Option<nat>)
    requires p <= |gz|
    ensures r.Some? ==> p <= r.value <= |gz|
  {
    if p + 2 > |gz| then None
    else
      var q := p + 2 + (gz[p] as int + 256 * gz[p + 1] as int);
      if q > |gz| then None else Some(q)
  }

  /** A NUL-terminated string. */
  function SkipString(gz: seq<byte>, p: nat): (r: Option<nat>)
    requires p <= |gz|
    ensures r.Some? ==> p <= r.value <= |gz|
  {
    match FindZero(gz, p) case None => None case Some(z) => Some(z + 1)
  }

  function SkipCrc(gz: seq<byte>, p: nat): (r: Option<nat>)
    requires p <= |gz|
    ensures r.Some? ==> p <= r.value <= |gz|
  {
    if p + 2 > |gz| then None else Some(p + 2)
  }

  datatype Field = Extra | Text | Crc

  function Skip(f: Field, gz: seq<byte>, p: nat): (r: Option<nat>)
    requires p <= |gz|
    ensures r.Some? ==> p <= r.value <= |gz|
  {
    match f case Extra => SkipExtra(gz, p) case Text => SkipString(gz, p) case Crc => SkipCrc(gz, p)
  }

  /** The optional fields, in the order they appear, each with its flag. */
  const FIELDS: seq<(nat, Field)> := [(FEXTRA, Extra), (FNAME, Text), (FCOMMENT, Text), (FHCRC, Crc)]

  function SkipFields(flags: byte, k: nat, gz: seq<byte>, p: nat): (r: Option<nat>)
    requires k <= 4 && p <= |gz|
    ensures r.Some? ==> p <= r.value <= |gz|
    decreases 4 - k
  {
    if k == 4 then Some(p)
    else if !Flag(flags, FIELDS[k].0) then SkipFields(flags, k + 1, gz, p)
    else match Skip(FIELDS[k].1, gz, p)
      case None => None
      case Some(q) => SkipFields(flags, k + 1, gz, q)
  }

  /** The offset of a member's deflate stream. */
  function Header(gz: seq<byte>): (r: Option<nat>)
    ensures r.Some? ==> 10 <= r.value <= |gz|
  {
    if |gz| < 18 || gz[0] != 0x1f || gz[1] != 0x8b || gz[2] != 8 || gz[3] >= 32 then None
    else SkipFields(gz[3], 0, gz, 10)
  }

  lemma {:induction false} AndShifted(f: nat, m: nat, k: nat)
    ensures And(f, m * Pow2(k)) == And(Shr(f, k), m) * Pow2(k)
    decreases k
  {
    if k != 0 {
      var h := m * Pow2(k - 1);
      DoubleProduct(m, Pow2(k - 1));
      AndShifted(f / 2, m, k - 1);
      AndEven(f, h);
      DoubleProduct(And(Shr(f, k), m), Pow2(k - 1));
    }
  }

  /** Testing a flag with a one-bit mask. */
  lemma FlagMask(flags: byte, k: nat)
    ensures And(flags, Pow2(k)) != 0 <==> Flag(flags, k)
  {
    AndShifted(flags, 1, k);
    AndMask(Shr(flags, k), 1);
    assert Pow2(1) - 1 == 1;
    assert Low(Shr(flags, k), 1) == Shr(flags, k) % 2;
  }

  lemma ReservedMask(flags: byte)
    ensures And(flags, 0xe0) != 0 <==> flags >= 32
  {
    hide And, Shr, Low, Pow2;
    Pow2Values();
    AndShifted(flags, 7, 5);
    AndMask(Shr(flags, 5), 3);
    ShrBound(flags, 5, 8);
    LowSmall(Shr(flags, 5), 3);
    ShrIsDivision(flags, 5);
  }

  /** The first NUL at or after `p`. */
  method Position(gz: seq<byte>, p: nat) returns (r: Option<nat>)
    requires p <= |gz|
    ensures r == FindZero(gz, p)
  {
    for i := p to |gz|
      invariant FindZero(gz, i) == FindZero(gz, p)
    {
      if gz[i] == 0 {
        return Some(i);
      }
    }
    return None;
  }

  method ParseHeader(gz: seq<byte>) returns (r: Result<nat, GzipError>)
    ensures match Header(gz) case Some(p) => r == Ok(p) case None => r.Err?
    ensures |gz| < 18 ==> r == Err(TooShort)
  {
    if |gz| < 18 {
      return Err(TooShort);
    }
    if gz[0] != 0x1f || gz[1] != 0x8b {
      return Err(BadMagic);
    }
    if gz[2] != 8 {
      return Err(BadMethod);
    }
    var flags := gz[3];
    ReservedMask(flags);
    if And(flags, 0xe0) != 0 {
      return Err(ReservedFlags);
    }
    r := ParseFields(gz, flags);
  }

  method ParseFields(gz: seq<byte>, flags: byte) returns (r: Result<nat, GzipError>)
    requires |gz| >= 18
    ensures match SkipFields(flags, 0, gz, 10) case Some(p) => r == Ok(p) case None => r.Err? && r.error != TooShort
  {
    hide And, Flag, SkipFields, FindZero;
    FlagMasks(flags);
    FieldStep(flags, 0, gz, 10);
    var p := 10;
    if And(flags, 0x04) != 0 {
      if p + 2 > |gz| {
        return Err(TruncatedExtra);
      }
      var xlen := gz[p] as int + 256 * gz[p + 1] as int;
      p := p + 2 + xlen;
      if p > |gz| {
        return Err(TruncatedExtra);
      }
    }
    FieldStep(flags, 1, gz, p);
    if And(flags, 0x08) != 0 {
      var end := Position(gz, p);
      if end.None? {
        return Err(UnterminatedString);
      }
      p := end.value + 1;
    }
    FieldStep(flags, 2, gz, p);
    if And(flags, 0x10) != 0 {
      var end := Position(gz, p);
      if end.None? {
        return Err(UnterminatedString);
      }
      p := end.value + 1;
    }
    FieldStep(flags, 3, gz, p);
    if And(flags, 0x02) != 0 {
      p := p + 2;
      if p > |gz| {
        return Err(TruncatedHeaderCrc);
      }
    }
    FieldStep(flags, 4, gz, p);
    return Ok(p);
  }

  /** One step of the field walk, by number. */
  lemma FieldStep(flags: byte, k: nat, gz: seq<byte>, p: nat)
    requires k <= 4 && p <= |gz|
    ensures SkipFields(flags, k, gz, p) ==
            if k == 4 then Some(p)
            else if !Flag(flags, if k == 0 then FEXTRA else if k == 1 then FNAME else if k == 2 then FCOMMENT else FHCRC)
            then SkipFields(flags, k + 1, gz, p)
            else match (if k == 0 then SkipExtra(gz, p) else if k == 3 then SkipCrc(gz, p) else SkipString(gz, p))
              case None => None
              case Some(q) => SkipFields(flags, k + 1, gz, q)
  {
    hide SkipExtra, SkipCrc, SkipString, Flag;
  }

  lemma FlagMasks(flags: byte)
    ensures And(flags, 0x04) != 0 <==> Flag(flags, FEXTRA)
    ensures And(flags, 0x08) != 0 <==> Flag(flags, FNAME)
    ensures And(flags, 0x10) != 0 <==> Flag(flags, FCOMMENT)
    ensures And(flags, 0x02) != 0 <==> Flag(flags, FHCRC)
  {
    Pow2Values();
    FlagMask(flags, 2);
    FlagMask(flags, 3);
    FlagMask(flags, 4);
    FlagMask(flags, 1);
  }

  // ----- Headers as values

  /** The bytes of one optional field, without its length prefix or terminator. */
  predicate ValidField(f: Field, content: seq<byte>) {
    match f
    case Extra => |content| < 0x1_0000
    case Text => 0 !in content
    case Crc => |content| == 2
  }

  function FieldBytes(f: Field, content: seq<byte>): seq<byte>
    requires ValidField(f, content)
  {
    match f
    case Extra => [|content| % 256, |content| / 256] + content
    case Text => content + [0]
    case Crc => content
  }

  /** Flags, the six bytes the decoder ignores, and the four optional fields. */
  datatype GzHeader = GzHeader(flags: byte, meta: seq<byte>, fields: seq<seq<byte>>)

  predicate ValidGzHeader(h: GzHeader) {
    && h.flags < 32 && |h.meta| == 6 && |h.fields| == 4
    && forall k :: 0 <= k < 4 ==> ValidField(FIELDS[k].1, h.fields[k])
  }

  function FieldsBytes(h: GzHeader, k: nat): seq<byte>
    requires ValidGzHeader(h) && k <= 4
    decreases 4 - k
  {
    if k == 4 then []
    else (if Flag(h.flags, FIELDS[k].0) then FieldBytes(FIELDS[k].1, h.fields[k]) else []) + FieldsBytes(h, k + 1)
  }

  function HeaderBytes(h: GzHeader): seq<byte>
    requires ValidGzHeader(h)
  {
    [0x1f, 0x8b, 8, h.flags] + h.meta + FieldsBytes(h, 0)
  }

  lemma {:induction false} FindZeroAt(gz: seq<byte>, p: nat, z: nat)
    requires p <= z < |gz| && gz[z] == 0 && forall i :: p <= i < z ==> gz[i] != 0
    ensures FindZero(gz, p) == Some(z)
    decreases z - p
  {
    if p < z {
      FindZeroAt(gz, p + 1, z);
    }
  }

  lemma {:induction false} FindZeroSound(gz: seq<byte>, p: nat)
    requires p <= |gz| && FindZero(gz, p).Some?
    ensures gz[FindZero(gz, p).value] == 0 && forall i :: p <= i < FindZero(gz, p).value ==> gz[i] != 0
    decreases |gz| - p
  {
    if gz[p] != 0 {
      FindZeroSound(gz, p + 1);
    }
  }

  /** Skipping a field passes over exactly its bytes. */
  lemma SkipOfField(f: Field, content: seq<byte>, gz: seq<byte>, pre: seq<byte>, rest: seq<byte>)
    requires ValidField(f, content) && gz == pre + (FieldBytes(f, content) + rest)
    ensures Skip(f, gz, |pre|) == Some(|pre| + |FieldBytes(f, content)|)
  {
    var b := FieldBytes(f, content);
    assert forall i :: 0 <= i < |b| ==> gz[|pre| + i] == b[i];
    match f
    case Extra =>
      assert gz[|pre|] == b[0] && gz[|pre| + 1] == b[1];
    case Text =>
      var z := |pre| + |content|;
      assert gz[z] == b[|content|] == 0;
      forall i | |pre| <= i < z
        ensures gz[i] != 0
      {
        assert gz[|pre| + (i - |pre|)] == b[i - |pre|] == content[i - |pre|];
        assert content[i - |pre|] in content;
      }
      FindZeroAt(gz, |pre|, z);
    case Crc =>
  }

  lemma LengthPrefix(low: byte, high: byte)
    ensures var len := low as int + 256 * high as int; 0 <= len < 0x1_0000 && len % 256 == low && len / 256 == high
  {
    DivUnique(low as int + 256 * high as int, 256, high, low);
  }

  lemma SkipSound(f: Field, gz: seq<byte>, p: nat) returns (content: seq<byte>)
    requires p <= |gz| && Skip(f, gz, p).Some?
    ensures ValidField(f, content) && gz[p..Skip(f, gz, p).value] == FieldBytes(f, content)
  {
    hide FindZero;
    var q := Skip(f, gz, p).value;
    match f
    case Extra =>
      content := gz[p + 2..q];
      LengthPrefix(gz[p], gz[p + 1]);
      assert gz[p..q] == [gz[p], gz[p + 1]] + content;
    case Text =>
      FindZeroSound(gz, p);
      content := gz[p..q - 1];
      assert gz[p..q] == content + [gz[q - 1]];
    case Crc =>
      content := gz[p..q];
  }

  lemma {:induction false} FieldsOfBytes(h: GzHeader, k: nat, gz: seq<byte>, pre: seq<byte>, rest: seq<byte>)
    requires ValidGzHeader(h) && k <= 4 && gz == pre + (FieldsBytes(h, k) + rest)
    ensures SkipFields(h.flags, k, gz, |pre|) == Some(|pre| + |FieldsBytes(h, k)|)
    decreases 4 - k
  {
    hide Skip, FieldBytes, Flag, ValidField;
    if k < 4 {
      var tail := FieldsBytes(h, k + 1);
      if Flag(h.flags, FIELDS[k].0) {
        var b := FieldBytes(FIELDS[k].1, h.fields[k]);
        AppendAssoc(b, tail, rest);
        AppendAssoc(pre, b, tail + rest);
        SkipOfField(FIELDS[k].1, h.fields[k], gz, pre, tail + rest);
        FieldsOfBytes(h, k + 1, gz, pre + b, rest);
      } else {
        assert [] + tail == tail;
        FieldsOfBytes(h, k + 1, gz, pre, rest);
      }
    }
  }

  lemma FirstFour(pre: seq<byte>, rest: seq<byte>)
    requires |pre| == 10
    ensures forall i :: 0 <= i < 4 ==> (pre + rest)[i] == pre[i]
  {
  }

  /** A well-formed header is parsed to its end. */
  lemma HeaderOfBytes(h: GzHeader, rest: seq<byte>)
    requires ValidGzHeader(h) && |HeaderBytes(h) + rest| >= 18
    ensures Header(HeaderBytes(h) + rest) == Some(|HeaderBytes(h)|)
  {
    hide FieldsBytes, SkipFields, ValidField;
    var pre := [0x1f, 0x8b, 8, h.flags] + h.meta;
    var gz := HeaderBytes(h) + rest;
    AppendAssoc(pre, FieldsBytes(h, 0), rest);
    FieldsOfBytes(h, 0, gz, pre, rest);
    FirstFour(pre, FieldsBytes(h, 0) + rest);
  }

  /** The contents of the fields from `k` on. */
  lemma {:induction false} FieldsSound(flags: byte, k: nat, gz: seq<byte>, p: nat) returns (h: GzHeader)
    requires k <= 4 && p <= |gz| && flags < 32 && SkipFields(flags, k, gz, p).Some?
    ensures ValidGzHeader(h) && h.flags == flags
    ensures gz[p..SkipFields(flags, k, gz, p).value] == FieldsBytes(h, k)
    decreases 4 - k
  {
    hide Skip, FieldBytes, Flag, ValidField;
    if k == 4 {
      EmptyFields();
      h := GzHeader(flags, [0, 0, 0, 0, 0, 0], [[], [], [], [0, 0]]);
    } else if !Flag(flags, FIELDS[k].0) {
      h := FieldsSound(flags, k + 1, gz, p);
      assert [] + FieldsBytes(h, k + 1) == FieldsBytes(h, k + 1);
    } else {
      var q := Skip(FIELDS[k].1, gz, p).value;
      var content := SkipSound(FIELDS[k].1, gz, p);
      var t := FieldsSound(flags, k + 1, gz, q);
      h := t.(fields := t.fields[k := content]);
      LaterFieldsOnly(t, h, k + 1);
      var end := SkipFields(flags, k + 1, gz, q).value;
      assert gz[p..end] == gz[p..q] + gz[q..end];
    }
  }

  lemma EmptyFields()
    ensures forall k :: 0 <= k < 4 ==> ValidField(FIELDS[k].1, [[], [], [], [0, 0]][k])
  {
  }

  lemma {:induction false} LaterFieldsOnly(a: GzHeader, b: GzHeader, k: nat)
    requires ValidGzHeader(a) && ValidGzHeader(b) && a.flags == b.flags && k <= 4
    requires forall j :: k <= j < 4 ==> a.fields[j] == b.fields[j]
    ensures FieldsBytes(a, k) == FieldsBytes(b, k)
    decreases 4 - k
  {
    hide FieldBytes, Flag, ValidField;
    if k < 4 {
      LaterFieldsOnly(a, b, k + 1);
    }
  }

  /** Whatever parses as a header is the bytes of one. */
  lemma HeaderSound(gz: seq<byte>) returns (h: GzHeader)
    requires Header(gz).Some?
    ensures ValidGzHeader(h) && gz[..Header(gz).value] == HeaderBytes(h)
  {
    hide SkipFields, FieldsBytes;
    var t := FieldsSound(gz[3], 0, gz, 10);
    h := t.(meta := gz[4..10]);
    hide Flag, FieldBytes;
    LaterFieldsOnly(t, h, 0);
    var end := Header(gz).value;
    assert gz[..end] == [gz[0], gz[1], gz[2], gz[3]] + gz[4..10] + gz[10..end];
  }

  // ----- Trailer words

  /** A 32-bit word, little-endian. */
  function Le32(v: nat): (b: seq<byte>)
    ensures |b| == 4
  {
    BitsToBytes(ToBits(v, 32))
  }

  function FromLe32(b: seq<byte>): nat
    requires |b| == 4
  {
    b[0] as int + 256 * b[1] as int + 0x1_0000 * b[2] as int + 0x100_0000 * b[3] as int
  }

  lemma FromLe32Bits(b: seq<byte>)
    requires |b| == 4
    ensures FromLe32(b) == FromBits(ByteBits(b))
  {
    hide ToBits, FromBits;
    TwoBytes(b[0], b[1]);
    TwoBytes(b[2], b[3]);
    assert b == [b[0], b[1]] + [b[2], b[3]];
    ByteBitsAppend([b[0], b[1]], [b[2], b[3]]);
    FromBitsAppend(ByteBits([b[0], b[1]]), ByteBits([b[2], b[3]]));
    Pow2Values();
  }

  /** A trailer word reads back as itself, and is determined by its value. */
  lemma Le32RoundTrip(v: nat, b: seq<byte>)
    requires v < U32 && |b| == 4
    ensures FromLe32(b) == v <==> b == Le32(v)
  {
    hide ToBits, FromBits, ByteBits, BitsToBytes;
    FromLe32Bits(b);
    ToFromBits(ByteBits(b));
    FromToBits(v, 32);
    Pow2Values();
    LowSmall(v, 32);
    BytesOfByteBits(b);
    ByteBitsOfBytes(ToBits(v, 32));
  }

  lemma {:induction false} CrcBound(c: nat, bits: Bits)
    requires c < U32
    ensures CrcBits(c, bits) < U32
    decreases |bits|
  {
    if bits != [] {
      Pow2Values();
      XorBound(c, if bits[0] then 1 else 0, 32);
      CodedStep(Xor(c, if bits[0] then 1 else 0));
      CrcBound(Feed(c, bits[0]), bits[1..]);
    }
  }

  lemma ChecksumBound(data: seq<byte>)
    ensures Checksum(data) < U32
  {
    CrcBound(ONES, ByteBits(data));
    Pow2Values();
    XorBound(CrcBits(ONES, ByteBits(data)), ONES, 32);
  }

  // ----- Members

  predicate AllZero(s: seq<byte>) {
    forall i :: 0 <= i < |s| ==> s[i] == 0
  }

  /** One member: the payload, and how many bytes of `gz` it takes. */
  ghost function Member(gz: seq<byte>): (r: Option<(seq<byte>, nat)>)
    ensures r.Some? ==> 18 <= r.value.1 <= |gz|
  {
    match Header(gz)
    case None => None
    case Some(p) =>
      match Inflate(ByteBits(gz[p..]), [])
      case None => None
      case Some((payload, rest)) =>
        var end := |gz| - |rest| / 8;
        if end + 8 > |gz| then None
        else if FromLe32(gz[end..end + 4]) != Checksum(payload) then None
        else if FromLe32(gz[end + 4..end + 8]) != |payload| % U32 then None
        else Some((payload, end + 8))
  }

  /** All members, up to trailing NUL padding. */
  ghost function Gunzip(gz: seq<byte>): Option<seq<byte>>
    decreases |gz|
  {
    match Member(gz)
    case None => None
    case Some((payload, n)) =>
      if AllZero(gz[n..]) then Some(payload)
      else match Gunzip(gz[n..])
        case None => None
        case Some(more) => Some(payload + more)
  }

  datatype GzMember = GzMember(header: GzHeader, blocks: seq<Block>, pad: Bits)

  /** Well-formed: the blocks expand from an empty output, and padding bits fill the last byte. */
  predicate ValidMember(m: GzMember) {
    && ValidGzHeader(m.header)
    && m.blocks != [] && AllValid(m.blocks) && WellPlaced(m.blocks, |m.pad|)
    && ExpandBlocks([], m.blocks).Some?
    && |m.pad| < 8 && (|EncodeBlocks(m.blocks)| + |m.pad|) % 8 == 0
  }

  function Payload(m: GzMember): seq<byte>
    requires ValidMember(m)
  {
    ExpandBlocks([], m.blocks).value
  }

  function BodyBytes(m: GzMember): seq<byte>
    requires ValidMember(m)
  {
    BitsToBytes(EncodeBlocks(m.blocks) + m.pad)
  }

  function Trailer(payload: seq<byte>): (t: seq<byte>)
    ensures |t| == 8
  {
    Le32(Checksum(payload)) + Le32(|payload| % U32)
  }

  function MemberBytes(m: GzMember): (b: seq<byte>)
    requires ValidMember(m)
    ensures |b| >= 8
  {
    HeaderBytes(m.header) + (BodyBytes(m) + Trailer(Payload(m)))
  }

  predicate AllMembers(ms: seq<GzMember>) {
    forall i :: 0 <= i < |ms| ==> ValidMember(ms[i])
  }

  function Concatenated(ms: seq<GzMember>): seq<byte>
    requires AllMembers(ms)
  {
    if ms == [] then [] else MemberBytes(ms[0]) + Concatenated(ms[1..])
  }

  function Payloads(ms: seq<GzMember>): seq<byte>
    requires AllMembers(ms)
  {
    if ms == [] then [] else Payload(ms[0]) + Payloads(ms[1..])
  }
}
