/** The LSB-first bit reader of the DEFLATE decoder, refining a plain list of unread bits. */
module BitReaders {
  import opened Wrappers
  import opened Words
  import opened BitLists

  datatype ReadError = TruncatedStream | TruncatedBytes

  /** The next `n` bits of a stream; past its end they read as zero. */
  function Window(bits: Bits, n: nat): (w: Bits)
    ensures |w| == n
  {
    if n <= |bits| then bits[..n] else bits + ToBits(0, n - |bits|)
  }

  /** The bits from the next byte boundary on, for the tail of a byte-aligned stream. */
  function Aligned(bits: Bits): Bits {
    bits[|bits| % 8..]
  }

  /** `buf` and `cnt` hold the bits just before byte `pos`; with the bytes from `pos` on they are `unread`. */
  ghost predicate Buffered(data: seq<byte>, pos: nat, buf: nat, cnt: nat, unread: Bits) {
    && pos <= |data|
    && cnt <= 64 && cnt <= 8 * pos
    && buf < Pow2(cnt)
    && unread == ToBits(buf, cnt) + ByteBits(data[pos..])
    && unread == ByteBits(data)[8 * pos - cnt..]
  }

  class BitReader {
    const data: seq<byte>
    var pos: nat
    /** A 64-bit buffer whose low `cnt` bits are loaded. */
    var buf: nat
    var cnt: nat
    /** The abstract value: every bit of `data` not yet consumed. */
    ghost var unread: Bits

    ghost predicate Valid()
      reads this
    {
      Buffered(data, pos, buf, cnt, unread)
    }

    constructor (data: seq<byte>)
      ensures Valid() && this.data == data && unread == ByteBits(data)
    {
      this.data := data;
      pos, buf, cnt := 0, 0, 0;
      unread := ByteBits(data);
    }

    /** Loads bytes until at least 57 bits are buffered or the input runs out. */
    method Refill()
      requires Valid()
      modifies this`pos, this`buf, this`cnt
      ensures Valid()
      ensures 57 <= cnt || pos == |data|
      ensures old(cnt) <= cnt
    {
      hide ToBits, ByteBits, Pow2, Or, Shl;
      while cnt <= 56 && pos < |data|
        invariant Valid()
        invariant old(cnt) <= cnt
      {
        LoadByte(data, pos, buf, cnt, unread);
        buf, pos, cnt := Or(buf, Shl(data[pos], cnt, 64)), pos + 1, cnt + 8;
      }
    }

    /** The next `n` bits as a 32-bit number, without consuming them. */
    method Peek(n: nat) returns (v: nat)
      requires Valid() && n <= 32
      modifies this`pos, this`buf, this`cnt
      ensures Valid()
      ensures v == FromBits(Window(unread, n))
    {
      if cnt < n {
        Refill();
      }
      v := LowBits(buf, n);
      MaskedBuffer(data, pos, buf, cnt, unread, n);
    }

    /** Drops `n` bits; fails, dropping none, when the stream does not hold them. */
    method Consume(n: nat) returns (r: Result<(), ReadError>)
      requires Valid() && n <= 57
      modifies this
      ensures Valid()
      ensures r == if n <= |old(unread)| then Ok(()) else Err(TruncatedStream)
      ensures unread == if r.Ok? then old(unread)[n..] else old(unread)
    {
      hide ToBits, ByteBits, Pow2, Shr;
      if cnt < n {
        Refill();
        if cnt < n {
          return Err(TruncatedStream);
        }
      }
      DropBits(data, pos, buf, cnt, unread, n);
      buf, cnt := Shr(buf, n), cnt - n;
      unread := unread[n..];
      return Ok(());
    }

    /** Reads `n` bits as an integer. */
    method ReadBits(n: nat) returns (r: Result<nat, ReadError>)
      requires Valid() && n <= 32
      modifies this
      ensures Valid()
      ensures r == if n <= |old(unread)| then Ok(FromBits(old(unread)[..n])) else Err(TruncatedStream)
      ensures unread == if r.Ok? then old(unread)[n..] else old(unread)
    {
      if n == 0 {
        return Ok(0);
      }
      var v := Peek(n);
      var c := Consume(n);
      match c
      case Err(e) => return Err(e);
      case Ok(_) => return Ok(v);
    }

    /** Discards bits up to the next byte boundary. */
    method Align()
      requires Valid()
      modifies this
      ensures Valid() && unread == Aligned(old(unread))
    {
      hide Buffered, ByteBits, ToBits, Pow2, Shr;
      var drop := cnt % 8;
      AlignedStart(data, pos, buf, cnt, unread);
      DropBits(data, pos, buf, cnt, unread, drop);
      buf, cnt := Shr(buf, drop), cnt - drop;
      unread := unread[drop..];
    }

    /** Takes `n` whole bytes, starting at the next byte boundary. */
    method Bytes(n: nat) returns (r: Result<seq<byte>, ReadError>)
      requires Valid()
      modifies this
      ensures Valid()
      ensures r.Ok? <==> 8 * n <= |Aligned(old(unread))|
      ensures r.Ok? ==> |r.value| == n && ByteBits(r.value) == Aligned(old(unread))[..8 * n]
      ensures r.Err? ==> r.error == TruncatedBytes
      ensures unread == if r.Ok? then Aligned(old(unread))[8 * n..] else old(unread)
    {
      hide ToBits, ByteBits, Pow2, FromBits, Aligned;
      var buffered := cnt / 8;
      var start := pos - buffered;
      AlignedStart(data, pos, buf, cnt, unread);
      if start + n > |data| {
        return Err(TruncatedBytes);
      }
      ByteBitsDrop(data, start);
      TakenBytes(data, start, n, Aligned(unread));
      var out := data[start..][..n];
      unread := Aligned(unread)[8 * n..];
      pos, buf, cnt := start + n, 0, 0;
      return Ok(out);
    }

    /** The byte offset of the next unread byte: the bits read, rounded up to whole bytes. */
    function BytePos(): (p: nat)
      requires Valid()
      reads this
      ensures 8 * (p - 1) < 8 * |data| - |unread| <= 8 * p
    {
      pos - cnt / 8
    }
  }

  // ----- Steps of the proofs above

  /** OR-ing a byte above the `cnt` loaded bits appends its bits and loses none of them. */
  lemma LoadByte(data: seq<byte>, pos: nat, buf: nat, cnt: nat, unread: Bits)
    requires Buffered(data, pos, buf, cnt, unread) && cnt <= 56 && pos < |data|
    ensures Buffered(data, pos + 1, Or(buf, Shl(data[pos], cnt, 64)), cnt + 8, unread)
  {
    hide ToBits, ByteBits, Pow2, Or, Shl;
    var b := data[pos];
    ByteAbove(b, cnt);
    ShlByte(b, cnt, 64);
    OrDisjoint(buf, b, cnt);
    ToBitsAppend(buf, b, cnt, 8);
    BitsOfRest(data, pos);
    AppendAssoc(ToBits(buf, cnt), ToBits(b, 8), ByteBits(data[pos + 1..]));
  }

  lemma BitsOfRest(data: seq<byte>, pos: nat)
    requires pos < |data|
    ensures ByteBits(data[pos..]) == ToBits(data[pos], 8) + ByteBits(data[pos + 1..])
  {
    assert data[pos..][1..] == data[pos + 1..];
  }

  lemma DropDrop<T>(s: seq<T>, i: nat, j: nat)
    requires i + j <= |s|
    ensures s[i..][j..] == s[i + j..]
  {
  }

  /** The first `n` of the loaded bits, and what is left after shifting them out. */
  lemma SplitBuffer(buf: nat, cnt: nat, n: nat, rest: Bits)
    requires n <= cnt
    ensures (ToBits(buf, cnt) + rest)[..n] == ToBits(buf, n)
    ensures (ToBits(buf, cnt) + rest)[n..] == ToBits(Shr(buf, n), cnt - n) + rest
  {
    ToBitsSplit(buf, n, cnt - n);
    var low, high := ToBits(buf, n), ToBits(Shr(buf, n), cnt - n);
    AppendAssoc(low, high, rest);
    CutAppend(low + high + rest, low, high + rest, n);
  }

  lemma DropBits(data: seq<byte>, pos: nat, buf: nat, cnt: nat, unread: Bits, n: nat)
    requires Buffered(data, pos, buf, cnt, unread) && n <= cnt
    ensures Buffered(data, pos, Shr(buf, n), cnt - n, unread[n..])
  {
    SplitBuffer(buf, cnt, n, ByteBits(data[pos..]));
    ShrBound(buf, n, cnt);
    DropDrop(ByteBits(data), 8 * pos - cnt, n);
  }

  lemma MaskedBuffer(data: seq<byte>, pos: nat, buf: nat, cnt: nat, unread: Bits, n: nat)
    requires Buffered(data, pos, buf, cnt, unread) && (n <= cnt || pos == |data|)
    ensures LowBits(buf, n) == FromBits(Window(unread, n))
  {
    AndMask(buf, n);
    FromToBits(buf, n);
    assert ToBits(buf, n) == Window(unread, n) by {
      if n <= cnt {
        SplitBuffer(buf, cnt, n, ByteBits(data[pos..]));
      } else {
        ToBitsAppend(buf, 0, cnt, n - cnt);
        assert unread == ToBits(buf, cnt);
      }
    }
  }

  lemma AlignedStart(data: seq<byte>, pos: nat, buf: nat, cnt: nat, unread: Bits)
    requires Buffered(data, pos, buf, cnt, unread)
    ensures cnt / 8 <= pos && |unread| % 8 == cnt % 8
    ensures Aligned(unread) == ByteBits(data)[8 * (pos - cnt / 8)..]
  {
    hide ToBits, ByteBits, Pow2;
    AlignedSuffix(ByteBits(data), |data|, pos, cnt);
  }

  lemma EightsAside(k: nat, n: nat)
    ensures (8 * k + n) % 8 == n % 8
  {
  }

  lemma AlignedSuffix(bits: Bits, bytes: nat, pos: nat, cnt: nat)
    requires |bits| == 8 * bytes && pos <= bytes && cnt <= 8 * pos
    ensures |bits[8 * pos - cnt..]| % 8 == cnt % 8
    ensures Aligned(bits[8 * pos - cnt..]) == bits[8 * (pos - cnt / 8)..]
  {
    var rest, drop := bits[8 * pos - cnt..], cnt % 8;
    assert |rest| == 8 * (bytes - pos) + cnt;
    EightsAside(bytes - pos, cnt);
    DropDrop(bits, 8 * pos - cnt, drop);
  }

  /** At a byte boundary nothing need be buffered. */
  lemma BufferEmpty(data: seq<byte>, pos: nat)
    requires pos <= |data|
    ensures Buffered(data, pos, 0, 0, ByteBits(data[pos..]))
  {
    hide ByteBits;
    ByteBitsDrop(data, pos);
    var rest := ByteBits(data[pos..]);
    assert ToBits(0, 0) + rest == rest;
  }

  lemma TakenBytes(data: seq<byte>, start: nat, n: nat, rest: Bits)
    requires start + n <= |data| && rest == ByteBits(data[start..])
    ensures 8 * n <= |rest| && rest[..8 * n] == ByteBits(data[start..][..n])
    ensures Buffered(data, start + n, 0, 0, rest[8 * n..])
  {
    hide Buffered, ByteBits;
    ByteBitsDrop(data[start..], n);
    assert data[start..][n..] == data[start + n..];
    BufferEmpty(data, start + n);
  }
}
