/** Decompression of concatenated gzip members: what is accepted, and what is written. */
module Gunzips {
  import opened Wrappers
  import opened Sequences
  import opened Words
  import opened BitLists
  import opened BitReaders
  import opened Crc32s
  import opened Sinks
  import opened Blocks
  import opened Inflates
  import opened Gzip

  // ----- One member

  /** Whole bytes behind a stream do not disturb its alignment. */
  lemma {:induction false} WellPlacedMod(bs: seq<Block>, t: nat, k: nat)
    requires AllValid(bs)
    ensures WellPlaced(bs, t) <==> WellPlaced(bs, t + 8 * k)
    decreases |bs|
  {
    hide EncodeBlocks;
    if bs != [] {
      WellPlacedMod(bs[1..], t, k);
      ModShift(|EncodeBlocks(bs[1..])| + t, k);
    }
  }

  lemma ModShift(x: nat, k: nat)
    ensures (x + 8 * k) % 8 == x % 8
  {
  }

  lemma {:induction false} StreamNotEmpty(bs: seq<Block>)
    requires bs != [] && AllValid(bs)
    ensures |EncodeBlocks(bs)| >= 3
  {
    hide BodyBits;
  }

  lemma BodyOfMember(m: GzMember)
    requires ValidMember(m)
    ensures ByteBits(BodyBytes(m)) == EncodeBlocks(m.blocks) + m.pad && |BodyBytes(m)| >= 1
  {
    hide EncodeBlocks, WellPlaced, ExpandBlocks, ByteBits, BitsToBytes;
    StreamNotEmpty(m.blocks);
    ByteBitsOfBytes(EncodeBlocks(m.blocks) + m.pad);
  }

  /** The deflate stream of a member decodes to its payload, up to the padding and the bytes behind it. */
  lemma StreamOfMember(m: GzMember, behind: seq<byte>)
    requires ValidMember(m)
    ensures Inflate(ByteBits(BodyBytes(m) + behind), []) == Some((Payload(m), m.pad + ByteBits(behind)))
    ensures |m.pad + ByteBits(behind)| / 8 == |behind|
  {
    hide EncodeBlocks, WellPlaced, ExpandBlocks, ByteBits, BitsToBytes, BodyBytes;
    BodyOfMember(m);
    ByteBitsAppend(BodyBytes(m), behind);
    AppendAssoc(EncodeBlocks(m.blocks), m.pad, ByteBits(behind));
    WellPlacedMod(m.blocks, |m.pad|, |behind|);
    InflateOfBlocks(m.blocks, [], m.pad + ByteBits(behind));
  }

  lemma MemberLayout(h: seq<byte>, b: seq<byte>, t1: seq<byte>, t2: seq<byte>, tail: seq<byte>)
    requires |t1| == 4 && |t2| == 4
    ensures var gz := (h + (b + (t1 + t2))) + tail; var end := |h| + |b|;
            && gz == h + (b + ((t1 + t2) + tail)) && |gz| - |(t1 + t2) + tail| == end
            && gz[|h|..] == b + ((t1 + t2) + tail)
            && gz[end..end + 4] == t1 && gz[end + 4..end + 8] == t2 && gz[end + 8..] == tail
  {
  }

  /** A well-formed member is decoded to its payload, whatever follows it. */
  lemma MemberOfBytes(m: GzMember, tail: seq<byte>)
    requires ValidMember(m)
    ensures Member(MemberBytes(m) + tail) == Some((Payload(m), |MemberBytes(m)|))
    ensures (MemberBytes(m) + tail)[|MemberBytes(m)|..] == tail
  {
    hide EncodeBlocks, WellPlaced, ExpandBlocks, ByteBits, BodyBytes, Le32, FromLe32, Checksum, HeaderBytes, Header, Inflate,
         Payload, ValidGzHeader;
    var h, b, payload := HeaderBytes(m.header), BodyBytes(m), Payload(m);
    var t1, t2 := Le32(Checksum(payload)), Le32(|payload| % U32);
    BodyOfMember(m);
    MemberLayout(h, b, t1, t2, tail);
    HeaderLength(m.header);
    HeaderOfBytes(m.header, b + ((t1 + t2) + tail));
    StreamOfMember(m, (t1 + t2) + tail);
    ChecksumBound(payload);
    Le32RoundTrip(Checksum(payload), t1);
    Le32RoundTrip(|payload| % U32, t2);
  }

  lemma HeaderLength(h: GzHeader)
    requires ValidGzHeader(h)
    ensures |HeaderBytes(h)| >= 10
  {
  }

  lemma DropMod(total: nat, rest: nat, p: nat, bytes: nat)
    requires 8 * bytes == total && rest <= total
    ensures total - 8 * (rest / 8) == total - rest + rest % 8
    ensures rest / 8 <= bytes && 8 * (bytes - rest / 8) == total - 8 * (rest / 8)
  {
  }

  /** The bytes up to the trailer are exactly the encoded blocks and their padding. */
  lemma BodySoundBytes(data: seq<byte>, stream: Bits, rest: Bits) returns (pad: Bits)
    requires ByteBits(data) == stream + rest
    ensures |pad| < 8 && |rest| == |pad| + 8 * (|rest| / 8)
    ensures |rest| / 8 <= |data| && ByteBits(data[..|data| - |rest| / 8]) == stream + pad
  {
    hide ByteBits;
    DropMod(8 * |data|, |rest|, 0, |data|);
    var n := |data| - |rest| / 8;
    ByteBitsDrop(data, n);
    pad := rest[..|rest| % 8];
    assert 8 * n == |stream| + |pad|;
    assert (stream + rest)[..8 * n] == stream + pad;
  }

  /** The stream of an accepted member, as blocks and padding. */
  lemma StreamSound(data: seq<byte>) returns (blocks: seq<Block>, pad: Bits)
    requires Inflate(ByteBits(data), []).Some?
    ensures blocks != [] && AllValid(blocks) && WellPlaced(blocks, |pad|) && |pad| < 8
    ensures var (payload, rest) := Inflate(ByteBits(data), []).value;
            && ExpandBlocks([], blocks) == Some(payload)
            && |rest| / 8 <= |data|
            && (|EncodeBlocks(blocks)| + |pad|) % 8 == 0
            && data[..|data| - |rest| / 8] == BitsToBytes(EncodeBlocks(blocks) + pad)
  {
    hide EncodeBlocks, WellPlaced, ExpandBlocks, ByteBits, BitsToBytes, Inflate;
    blocks := InflateSound(ByteBits(data), []);
    var (payload, rest) := Inflate(ByteBits(data), []).value;
    pad := BodySoundBytes(data, EncodeBlocks(blocks), rest);
    WellPlacedMod(blocks, |pad|, |rest| / 8);
    var body := data[..|data| - |rest| / 8];
    assert |ByteBits(body)| == 8 * |body|;
    BytesOfByteBits(body);
  }

  lemma TrailerSound(payload: seq<byte>, t1: seq<byte>, t2: seq<byte>)
    requires |t1| == |t2| == 4 && FromLe32(t1) == Checksum(payload) && FromLe32(t2) == |payload| % U32
    ensures t1 + t2 == Trailer(payload)
  {
    hide Le32, FromLe32, Checksum;
    ChecksumBound(payload);
    Le32RoundTrip(Checksum(payload), t1);
    Le32RoundTrip(|payload| % U32, t2);
  }

  /** Whatever is accepted as a member is one, with the payload returned. */
  lemma MemberSound(gz: seq<byte>) returns (m: GzMember)
    requires Member(gz).Some?
    ensures ValidMember(m)
    ensures Member(gz).value.0 == Payload(m) && gz[..Member(gz).value.1] == MemberBytes(m)
  {
    hide Header, EncodeBlocks, WellPlaced, ExpandBlocks, ByteBits, BitsToBytes, Inflate, Trailer, FromLe32, Checksum,
         HeaderBytes, ValidGzHeader, AllValid;
    var h := HeaderSound(gz);
    var p := Header(gz).value;
    var blocks, pad := StreamSound(gz[p..]);
    m := GzMember(h, blocks, pad);
    var (payload, rest) := Inflate(ByteBits(gz[p..]), []).value;
    var end := |gz| - |rest| / 8;
    TrailerSound(payload, gz[end..end + 4], gz[end + 4..end + 8]);
    SplitMember(gz, p, end);
  }

  lemma SplitMember(gz: seq<byte>, p: nat, end: nat)
    requires p <= end && end + 8 <= |gz|
    ensures gz[..end + 8] == gz[..p] + (gz[p..][..end - p] + (gz[end..end + 4] + gz[end + 4..end + 8]))
  {
  }

  // ----- All members

  /** Concatenated well-formed members, with or without NUL padding, decode to their payloads in order. */
  lemma {:induction false} GunzipOfMembers(ms: seq<GzMember>, zeros: seq<byte>)
    requires ms != [] && AllMembers(ms) && AllZero(zeros)
    ensures Gunzip(Concatenated(ms) + zeros) == Some(Payloads(ms))
    decreases |ms|
  {
    hide Member, MemberBytes, Payload, ValidMember;
    var tail := Concatenated(ms[1..]) + zeros;
    AppendAssoc(MemberBytes(ms[0]), Concatenated(ms[1..]), zeros);
    MemberOfBytes(ms[0], tail);
    if |ms| == 1 {
      assert tail == zeros;
      assert Payload(ms[0]) + [] == Payload(ms[0]);
    } else {
      FirstByte(ms[1]);
      assert tail[0] == MemberBytes(ms[1])[0];
      GunzipOfMembers(ms[1..], zeros);
    }
  }

  lemma FirstByte(m: GzMember)
    requires ValidMember(m)
    ensures MemberBytes(m)[0] == 0x1f
  {
    hide ValidMember, Trailer, BodyBytes, Payload;
  }

  /** Whatever is decompressed is concatenated members and NUL padding, and its output their payloads. */
  lemma {:induction false} GunzipSound(gz: seq<byte>) returns (ms: seq<GzMember>, zeros: seq<byte>)
    requires Gunzip(gz).Some?
    ensures ms != [] && AllMembers(ms) && AllZero(zeros)
    ensures gz == Concatenated(ms) + zeros && Gunzip(gz) == Some(Payloads(ms))
    decreases |gz|
  {
    hide Member, MemberBytes, Payload, ValidMember;
    var m := MemberSound(gz);
    var (payload, n) := Member(gz).value;
    assert gz == gz[..n] + gz[n..];
    if AllZero(gz[n..]) {
      ms, zeros := [m], gz[n..];
      assert ms[1..] == [] && MemberBytes(m) + [] == MemberBytes(m) && Payload(m) + [] == Payload(m);
      assert Concatenated(ms) == MemberBytes(m) + Concatenated(ms[1..]);
    } else {
      var rest;
      rest, zeros := GunzipSound(gz[n..]);
      ms := [m] + rest;
      assert ms[1..] == rest;
      AppendAssoc(MemberBytes(m), Concatenated(rest), zeros);
    }
  }

  // Decompression yields `out` exactly when the input is one or more well-formed members with
  // matching CRC-32 and length, followed only by NUL padding, whose payloads concatenate to `out`.
  lemma GunzipExactly(gz: seq<byte>, out: seq<byte>)
    ensures Gunzip(gz) == Some(out) <==>
            exists ms: seq<GzMember>, n: nat ::
              ms != [] && AllMembers(ms) && gz == Concatenated(ms) + Fill<byte>(0, n) && out == Payloads(ms)
  {
    hide Gunzip, Concatenated, Payloads, ValidMember;
    if Gunzip(gz) == Some(out) {
      var ms, zeros := GunzipSound(gz);
      assert zeros == Fill<byte>(0, |zeros|);
    }
    if ms: seq<GzMember>, n: nat :|
      ms != [] && AllMembers(ms) && gz == Concatenated(ms) + Fill<byte>(0, n) && out == Payloads(ms)
    {
      GunzipOfMembers(ms, Fill<byte>(0, n));
    }
  }

  // ----- The streaming loop

  /** Decodes one member's deflate stream into a fresh sink. */
  method InflateMember(gz: seq<byte>, start: nat, out: Writer)
    returns (r: Result<(nat, nat, nat), GzipError>, ghost payload: seq<byte>)
    requires start <= |gz|
    modifies out
    ensures old(out.written) <= out.written
    ensures match Inflate(ByteBits(gz[start..]), [])
            case None => r.Err?
            case Some((data, rest)) =>
              && payload == data && out.written == old(out.written) + data
              && r == Ok((|data|, Checksum(data), |gz| - |rest| / 8))
  {
    hide Inflate, ByteBits, Checksum, CrcBits, Buffered;
    payload := [];
    var br := new BitReader(gz[start..]);
    var sink := new Sink(out);
    var b := InflateBlocks(br, sink);
    if b.Err? {
      PrefixOfJoin(out.written, sink.buf, sink.before, sink.contents);
      return Err(BadDeflate(b.error)), payload;
    }
    payload := sink.contents;
    var pos := br.BytePos();
    BytePosition(|gz| - start, |br.unread|, pos);
    var end := start + pos;
    var total, crc := sink.Finish();
    return Ok((total, crc, end)), payload;
  }

  lemma PrefixOfJoin<T>(a: seq<T>, b: seq<T>, c: seq<T>, d: seq<T>)
    requires a + b == c + d && |c| <= |a|
    ensures c <= a
  {
    assert forall i :: 0 <= i < |c| ==> (a + b)[i] == a[i] && (c + d)[i] == c[i];
  }

  lemma BytePosition(bytes: nat, unread: nat, p: nat)
    requires 8 * (p - 1) < 8 * bytes - unread <= 8 * p
    ensures p == bytes - unread / 8
  {
  }

  method AllZeroFrom(gz: seq<byte>, offset: nat) returns (b: bool)
    requires offset <= |gz|
    ensures b <==> AllZero(gz[offset..])
  {
    for i := offset to |gz|
      invariant forall k :: offset <= k < i ==> gz[k] == 0
    {
      if gz[i] != 0 {
        assert gz[offset..][i - offset] != 0;
        return false;
      }
    }
    return true;
  }

  /** Decodes the member at `offset`, checks its trailer, and writes its payload. */
  method GunzipMember(gz: seq<byte>, offset: nat, out: Writer)
    returns (r: Result<(nat, nat), GzipError>, ghost payload: seq<byte>)
    requires offset <= |gz|
    modifies out
    ensures old(out.written) <= out.written
    ensures match Member(gz[offset..])
            case None => r.Err?
            case Some((data, n)) =>
              payload == data && out.written == old(out.written) + data && r == Ok((|data|, offset + n))
  {
    hide Header, Inflate, ByteBits, Checksum;
    payload := [];
    var body := ParseHeader(gz[offset..]);
    if body.Err? {
      return Err(body.error), payload;
    }
    var start := offset + body.value;
    assert gz[offset..][body.value..] == gz[start..];
    var m;
    m, payload := InflateMember(gz, start, out);
    if m.Err? {
      return Err(m.error), payload;
    }
    var (written, crc, end) := m.value;
    if end + 8 > |gz| {
      return Err(TruncatedTrailer), payload;
    }
    TrailerSlices(gz, offset, end);
    var wantCrc := FromLe32(gz[end..end + 4]);
    var wantLen := FromLe32(gz[end + 4..end + 8]);
    if crc != wantCrc {
      return Err(CrcMismatch), payload;
    }
    if wantLen != written % U32 {
      return Err(LengthMismatch), payload;
    }
    return Ok((written, end + 8)), payload;
  }

  lemma TrailerSlices(gz: seq<byte>, offset: nat, end: nat)
    requires offset <= end && end + 8 <= |gz|
    ensures gz[offset..][end - offset..end - offset + 4] == gz[end..end + 4]
    ensures gz[offset..][end - offset + 4..end - offset + 8] == gz[end + 4..end + 8]
  {
  }

  /** What remains to be decompressed, after `done`. */
  ghost function After(done: seq<byte>, rest: Option<seq<byte>>): Option<seq<byte>> {
    match rest case None => None case Some(more) => Some(done + more)
  }

  // Decompresses a gzip stream into `out` and returns the number of bytes written. Total: every
  // member takes at least 18 bytes, so the loop ends on every input.
  method GunzipToWriter(gz: seq<byte>, out: Writer) returns (r: Result<nat, GzipError>)
    modifies out
    ensures old(out.written) <= out.written
    ensures match Gunzip(gz)
            case None => r.Err?
            case Some(data) => r == Ok(|data|) && out.written == old(out.written) + data
  {
    hide Member, AllZero;
    var offset, total := 0, 0;
    ghost var done: seq<byte> := [];
    assert gz[0..] == gz;
    AfterNothing(Gunzip(gz));
    while true
      invariant offset <= |gz| && total == |done|
      invariant out.written == old(out.written) + done
      invariant Gunzip(gz) == After(done, Gunzip(gz[offset..]))
      decreases |gz| - offset
    {
      var m, payload := GunzipMember(gz, offset, out);
      if m.Err? {
        return Err(m.error);
      }
      var (written, next) := m.value;
      AfterStep(done, gz, offset, next);
      done := done + payload;
      total := total + written;
      offset := next;
      var padding := AllZeroFrom(gz, offset);
      if padding {
        return Ok(total);
      }
    }
  }

  lemma AfterNothing(rest: Option<seq<byte>>)
    ensures After([], rest) == rest
  {
    if rest.Some? {
      assert [] + rest.value == rest.value;
    }
  }

  /** Taking one member off the front of what remains. */
  lemma AfterStep(done: seq<byte>, gz: seq<byte>, offset: nat, next: nat)
    requires offset <= next <= |gz| && Member(gz[offset..]).Some? && Member(gz[offset..]).value.1 == next - offset
    ensures var payload := Member(gz[offset..]).value.0;
            After(done, Gunzip(gz[offset..])) ==
            if AllZero(gz[next..]) then Some(done + payload) else After(done + payload, Gunzip(gz[next..]))
  {
    hide Member, AllZero;
    assert gz[offset..][next - offset..] == gz[next..];
    var payload := Member(gz[offset..]).value.0;
    match Gunzip(gz[next..])
    case None =>
    case Some(more) => AppendAssoc(done, payload, more);
  }
}
