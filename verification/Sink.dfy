/** The output side of the decoder: a sliding window flushed to a writer as it fills. */
module Sinks {
  import opened Words
  import opened BitLists
  import opened Crc32s
  import opened Lz77

  const WINDOW: nat := 32768
  const FLUSH_AT: nat := 1048576

  /** An append-only writer. */
  class Writer {
    var written: seq<byte>

    constructor ()
      ensures written == []
    {
      written := [];
    }

    method WriteAll(bytes: seq<byte>)
      modifies this
      ensures written == old(written) + bytes
    {
      written := written + bytes;
    }
  }

  class Sink {
    const out: Writer
    var buf: seq<byte>
    /** Bytes already handed to the writer. */
    var flushed: nat
    var crc: nat
    /** What the writer held before this sink. */
    ghost const before: seq<byte>
    /** The abstract value: everything decoded so far. */
    ghost var contents: seq<byte>

    ghost predicate Valid()
      reads this, out
    {
      && out.written + buf == before + contents
      && flushed + |buf| == |contents|
      && |buf| < FLUSH_AT + WINDOW
      && (flushed == 0 || WINDOW <= |buf|)
      && crc == CrcBits(ONES, ByteBits(contents[..flushed])) && crc < U32
    }

    constructor (out: Writer)
      ensures Valid() && this.out == out && contents == [] && before == out.written
    {
      this.out := out;
      buf, flushed, crc := [], 0, 0xffff_ffff;
      before, contents := out.written, [];
    }

    /** Writes out everything except the trailing window. */
    method FlushOld()
      requires out.written + buf == before + contents && flushed + |buf| == |contents|
      requires crc == CrcBits(ONES, ByteBits(contents[..flushed])) && crc < U32
      modifies this`buf, this`flushed, this`crc, out
      ensures out.written + buf == before + contents && flushed + |buf| == |contents|
      ensures crc == CrcBits(ONES, ByteBits(contents[..flushed])) && crc < U32
      ensures |buf| == if old(|buf|) < WINDOW then old(|buf|) else WINDOW
      ensures old(flushed) <= flushed && (flushed == old(flushed) || |buf| == WINDOW)
    {
      hide CrcBits, ByteBits;
      var keep := if WINDOW < |buf| then WINDOW else |buf|;
      var upto := |buf| - keep;
      if upto == 0 {
        return;
      }
      FlushedPart(out.written, buf, before, contents, flushed, upto);
      CrcBytesAppend(ONES, contents[..flushed], buf[..upto]);
      crc := Crc32Update(crc, buf[..upto]);
      out.WriteAll(buf[..upto]);
      flushed := flushed + upto;
      buf := buf[upto..];
    }

    method Push(b: byte)
      requires Valid()
      modifies this, out
      ensures Valid() && contents == old(contents) + [b]
    {
      Extend([b]);
    }

    method Extend(bytes: seq<byte>)
      requires Valid()
      modifies this, out
      ensures Valid() && contents == old(contents) + bytes
    {
      hide CrcBits, ByteBits;
      Extended(out.written, buf, before, contents, flushed, bytes);
      buf := buf + bytes;
      contents := contents + bytes;
      if |buf| >= FLUSH_AT + WINDOW {
        FlushOld();
      }
    }

    // The LZ77 match. Within the window it succeeds exactly when the unbounded output reaches back
    // far enough, and appends exactly what the unbounded copy would.
    method CopyBack(dist: nat, len: nat) returns (ok: bool)
      requires Valid()
      modifies this, out
      ensures Valid()
      ensures ok ==> 1 <= dist <= |old(contents)| && contents == CopyBytes(old(contents), dist, len)
      ensures dist <= WINDOW ==> (ok <==> 1 <= dist <= |old(contents)|)
      ensures !ok ==> contents == old(contents)
    {
      var have := |buf|;
      if dist == 0 || dist > have {
        return false;
      }
      CopyInBuffer(out.written, buf, before, contents, flushed, dist, len);
      ghost var start := buf;
      contents := CopyBytes(contents, dist, len);
      for src := have - dist to have - dist + len
        invariant |buf| == src + dist
        invariant CopyBytes(buf, dist, have - dist + len - src) == CopyBytes(start, dist, len)
        invariant flushed == old(flushed) && out.written == old(out.written) && crc == old(crc)
        invariant contents == CopyBytes(old(contents), dist, len)
      {
        var b := buf[src];
        buf := buf + [b];
      }
      if |buf| >= FLUSH_AT + WINDOW {
        FlushOld();
      }
      return true;
    }

    /** Writes the remaining window; returns the length and CRC-32 of everything decoded. */
    method Finish() returns (total: nat, checksum: nat)
      requires Valid()
      modifies this, out
      ensures out.written == before + old(contents)
      ensures total == |old(contents)| && checksum == Checksum(old(contents))
    {
      BufferIsSuffix(out.written, buf, before, contents, flushed);
      CrcBytesAppend(ONES, contents[..flushed], buf);
      crc := Crc32Update(crc, buf);
      out.WriteAll(buf);
      total := flushed + |buf|;
      checksum := Xor(crc, ONES);
    }
  }

  lemma Extended(written: seq<byte>, buf: seq<byte>, before: seq<byte>, contents: seq<byte>, flushed: nat, bytes: seq<byte>)
    requires written + buf == before + contents && flushed <= |contents|
    ensures written + (buf + bytes) == before + (contents + bytes)
    ensures (contents + bytes)[..flushed] == contents[..flushed]
  {
    assert written + (buf + bytes) == (written + buf) + bytes;
    assert before + (contents + bytes) == (before + contents) + bytes;
  }

  lemma BufferIsSuffix(written: seq<byte>, buf: seq<byte>, before: seq<byte>, contents: seq<byte>, flushed: nat)
    requires written + buf == before + contents && flushed + |buf| == |contents|
    ensures contents == contents[..flushed] + buf
  {
    var whole := before + contents;
    assert contents[flushed..] == whole[|before| + flushed..] == buf;
  }

  /** Copying inside the retained buffer is copying inside the whole output. */
  lemma CopyInBuffer(written: seq<byte>, buf: seq<byte>, before: seq<byte>, contents: seq<byte>, flushed: nat,
                     dist: nat, len: nat)
    requires written + buf == before + contents && flushed + |buf| == |contents|
    requires 1 <= dist <= |buf|
    ensures written + CopyBytes(buf, dist, len) == before + CopyBytes(contents, dist, len)
    ensures CopyBytes(contents, dist, len)[..flushed] == contents[..flushed]
  {
    BufferIsSuffix(written, buf, before, contents, flushed);
    CopyInSuffix(contents[..flushed], buf, dist, len);
    CopyInSuffix(written, buf, dist, len);
    CopyInSuffix(before, contents, dist, len);
  }

  lemma FlushedPart(written: seq<byte>, buf: seq<byte>, before: seq<byte>, contents: seq<byte>, flushed: nat, upto: nat)
    requires written + buf == before + contents && flushed + |buf| == |contents| && upto <= |buf|
    ensures contents[..flushed + upto] == contents[..flushed] + buf[..upto]
    ensures (written + buf[..upto]) + buf[upto..] == before + contents
  {
    BufferIsSuffix(written, buf, before, contents, flushed);
  }
}
