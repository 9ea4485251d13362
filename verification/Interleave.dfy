/** Splitting into blocks, error correction per block, and interleaving (ISO/IEC 18004:2006, section 6.6). */
module Interleaving {
  import opened Sequences
  import opened Words
  import opened Indices
  import opened Galois
  import opened ReedSolomon
  import opened QrTables

  // ----- Columns of a ragged table

  /** The `i`-th element of every block long enough to have one. */
  function Column<T>(blocks: seq<seq<T>>, i: nat): seq<T> {
    if blocks == [] then []
    else (if i < |blocks[0]| then [blocks[0][i]] else []) + Column(blocks[1..], i)
  }

  /** The first `n` columns, one after the other. */
  function Columns<T>(blocks: seq<seq<T>>, n: nat): seq<T> {
    if n == 0 then [] else Columns(blocks, n - 1) + Column(blocks, n - 1)
  }

  function MaxLength<T>(blocks: seq<seq<T>>): nat {
    if blocks == [] then 0
    else if |blocks[0]| > MaxLength(blocks[1..]) then |blocks[0]| else MaxLength(blocks[1..])
  }

  function Interleaved<T>(blocks: seq<seq<T>>): seq<T> {
    Columns(blocks, MaxLength(blocks))
  }

  function Flatten<T>(blocks: seq<seq<T>>): seq<T> {
    if blocks == [] then [] else blocks[0] + Flatten(blocks[1..])
  }

  /** How many blocks reach column `i`. */
  function ColumnSize(lens: seq<nat>, i: nat): nat {
    if lens == [] then 0 else (if i < lens[0] then 1 else 0) + ColumnSize(lens[1..], i)
  }

  /** Where column `n` starts. */
  function Start(lens: seq<nat>, n: nat): nat {
    if n == 0 then 0 else Start(lens, n - 1) + ColumnSize(lens, n - 1)
  }

  /** Where element `i` of block `b` stands among the interleaved elements. */
  function Position(lens: seq<nat>, b: nat, i: nat): nat
    requires b < |lens|
  {
    Start(lens, i) + ColumnSize(lens[..b], i)
  }

  predicate LensOf<T>(lens: seq<nat>, blocks: seq<seq<T>>) {
    |lens| == |blocks| && forall b :: 0 <= b < |blocks| ==> lens[b] == |blocks[b]|
  }

  lemma {:induction false} ColumnAt<T>(blocks: seq<seq<T>>, lens: seq<nat>, b: nat, i: nat)
    requires LensOf(lens, blocks)
    ensures |Column(blocks, i)| == ColumnSize(lens, i)
    ensures b < |blocks| && i < lens[b] ==>
              ColumnSize(lens[..b], i) < ColumnSize(lens, i) &&
              Column(blocks, i)[ColumnSize(lens[..b], i)] == blocks[b][i]
    decreases |blocks|
  {
    if blocks != [] {
      ColumnAt(blocks[1..], lens[1..], if b == 0 then 0 else b - 1, i);
      if 0 < b < |blocks| {
        assert lens[..b][1..] == lens[1..][..b - 1];
      }
    }
  }

  /** The element at a position is the one that belongs there. */
  lemma {:induction false} ColumnsAt<T>(blocks: seq<seq<T>>, lens: seq<nat>, b: nat, i: nat, n: nat)
    requires LensOf(lens, blocks) && b < |blocks|
    ensures |Columns(blocks, n)| == Start(lens, n)
    ensures i < n && i < lens[b] ==>
              Position(lens, b, i) < Start(lens, n) && Columns(blocks, n)[Position(lens, b, i)] == blocks[b][i]
    decreases n
  {
    hide Column, ColumnSize;
    if n != 0 {
      ColumnsAt(blocks, lens, b, i, n - 1);
      ColumnAt(blocks, lens, b, n - 1);
    }
  }

  lemma {:induction false} MaxLengthBounds<T>(blocks: seq<seq<T>>)
    ensures forall b :: 0 <= b < |blocks| ==> |blocks[b]| <= MaxLength(blocks)
    ensures MaxLength(blocks) > 0 ==> exists b :: 0 <= b < |blocks| && |blocks[b]| == MaxLength(blocks)
  {
    if blocks != [] {
      MaxLengthBounds(blocks[1..]);
      if MaxLength(blocks) != |blocks[0]| {
        var b :| 0 <= b < |blocks[1..]| && |blocks[1..][b]| == MaxLength(blocks[1..]);
        assert |blocks[b + 1]| == MaxLength(blocks);
      }
    }
  }

  // ----- De-interleaving

  /** The first `n` elements of block `b`, picked out of interleaved elements. */
  function ReadBlock<T>(out: seq<T>, lens: seq<nat>, b: nat, n: nat): seq<T>
    requires b < |lens|
  {
    if n == 0 then []
    else
      var p := Position(lens, b, n - 1);
      ReadBlock(out, lens, b, n - 1) + (if p < |out| then [out[p]] else [])
  }

  /** All blocks from `b` on, joined. */
  function ReadBlocks<T>(out: seq<T>, lens: seq<nat>, b: nat): seq<T>
    requires b <= |lens|
    decreases |lens| - b
  {
    if b == |lens| then [] else ReadBlock(out, lens, b, lens[b]) + ReadBlocks(out, lens, b + 1)
  }

  lemma {:induction false} ReadBlockBack<T>(blocks: seq<seq<T>>, lens: seq<nat>, rest: seq<T>, b: nat, n: nat)
    requires LensOf(lens, blocks) && b < |blocks| && n <= lens[b]
    ensures ReadBlock(Interleaved(blocks) + rest, lens, b, n) == blocks[b][..n]
    decreases n
  {
    hide Position, Columns;
    if n != 0 {
      ReadBlockBack(blocks, lens, rest, b, n - 1);
      MaxLengthBounds(blocks);
      ColumnsAt(blocks, lens, b, n - 1, MaxLength(blocks));
      assert blocks[b][..n] == blocks[b][..n - 1] + [blocks[b][n - 1]];
    }
  }

  /** De-interleaving undoes interleaving, whatever follows. */
  lemma {:induction false} ReadBlocksBack<T>(blocks: seq<seq<T>>, lens: seq<nat>, rest: seq<T>, b: nat)
    requires LensOf(lens, blocks) && b <= |blocks|
    ensures ReadBlocks(Interleaved(blocks) + rest, lens, b) == Flatten(blocks[b..])
    decreases |blocks| - b
  {
    hide ReadBlock, Interleaved;
    if b < |blocks| {
      ReadBlockBack(blocks, lens, rest, b, lens[b]);
      assert blocks[b][..lens[b]] == blocks[b];
      ReadBlocksBack(blocks, lens, rest, b + 1);
      assert blocks[b..][0] == blocks[b] && blocks[b..][1..] == blocks[b + 1..];
    }
  }

  // ----- Interleaving is a permutation

  /** The first `n` elements of every block, block by block. */
  function Heads<T>(blocks: seq<seq<T>>, n: nat): seq<T> {
    if blocks == [] then [] else Head(blocks[0], n) + Heads(blocks[1..], n)
  }

  function Head<T>(block: seq<T>, n: nat): seq<T> {
    if n < |block| then block[..n] else block
  }

  lemma HeadGrows<T>(block: seq<T>, n: nat)
    ensures Head(block, n + 1) == Head(block, n) + if n < |block| then [block[n]] else []
  {
  }

  lemma {:induction false} HeadsGrow<T>(blocks: seq<seq<T>>, n: nat)
    ensures multiset(Heads(blocks, n + 1)) == multiset(Heads(blocks, n)) + multiset(Column(blocks, n))
  {
    hide Head;
    if blocks != [] {
      HeadGrows(blocks[0], n);
      HeadsGrow(blocks[1..], n);
    }
  }

  lemma {:induction false} HeadsNone<T>(blocks: seq<seq<T>>)
    ensures Heads(blocks, 0) == []
  {
    if blocks != [] {
      HeadsNone(blocks[1..]);
    }
  }

  lemma {:induction false} HeadsAll<T>(blocks: seq<seq<T>>, n: nat)
    requires forall b :: 0 <= b < |blocks| ==> |blocks[b]| <= n
    ensures Heads(blocks, n) == Flatten(blocks)
  {
    if blocks != [] {
      HeadsAll(blocks[1..], n);
    }
  }

  lemma {:induction false} ColumnsAreHeads<T>(blocks: seq<seq<T>>, n: nat)
    ensures multiset(Columns(blocks, n)) == multiset(Heads(blocks, n))
    decreases n
  {
    hide Heads, Column;
    if n == 0 {
      HeadsNone(blocks);
    } else {
      ColumnsAreHeads(blocks, n - 1);
      HeadsGrow(blocks, n - 1);
    }
  }

  /** Every element appears in the output exactly as often as in the blocks. */
  lemma InterleavedPermutes<T>(blocks: seq<seq<T>>)
    ensures multiset(Interleaved(blocks)) == multiset(Flatten(blocks))
  {
    ColumnsAreHeads(blocks, MaxLength(blocks));
    MaxLengthBounds(blocks);
    HeadsAll(blocks, MaxLength(blocks));
  }

  // ----- Blocks of a version

  function Sizes(version: nat, ec: EcLevel): seq<nat>
    requires 1 <= version <= 40
  {
    var r := BlockLayout(version, ec);
    Fill(r.size1, r.count1) + Fill(r.size2, r.count2)
  }

  function Sum(s: seq<nat>): nat {
    if s == [] then 0 else s[0] + Sum(s[1..])
  }

  lemma {:induction false} SumAppend(a: seq<nat>, b: seq<nat>)
    ensures Sum(a + b) == Sum(a) + Sum(b)
  {
    if a == [] {
      assert a + b == b;
    } else {
      assert (a + b)[1..] == a[1..] + b;
      SumAppend(a[1..], b);
    }
  }

  lemma {:induction false} SumFill(v: nat, n: nat)
    ensures Sum(Fill(v, n)) == Product(v, n)
  {
    if n != 0 {
      assert Fill(v, n)[1..] == Fill(v, n - 1);
      SumFill(v, n - 1);
      assert Product(v, n) == Product(v, n - 1) + v;
    }
  }

  lemma SizesAddUp(version: nat, ec: EcLevel)
    requires 1 <= version <= 40
    ensures Sum(Sizes(version, ec)) == DataCapacity(version, ec)
  {
    hide BlockLayout, Fill, Sum, Product;
    var r := BlockLayout(version, ec);
    SumAppend(Fill(r.size1, r.count1), Fill(r.size2, r.count2));
    SumFill(r.size1, r.count1);
    SumFill(r.size2, r.count2);
  }

  /** Consecutive slices of the given sizes. */
  function Chunk<T>(data: seq<T>, sizes: seq<nat>): (blocks: seq<seq<T>>)
    requires Sum(sizes) <= |data|
    ensures LensOf(sizes, blocks)
  {
    if sizes == [] then [] else [data[..sizes[0]]] + Chunk(data[sizes[0]..], sizes[1..])
  }

  lemma {:induction false} FlattenChunk<T>(data: seq<T>, sizes: seq<nat>)
    requires Sum(sizes) == |data|
    ensures Flatten(Chunk(data, sizes)) == data
    decreases |sizes|
  {
    if sizes != [] {
      FlattenChunk(data[sizes[0]..], sizes[1..]);
      assert data == data[..sizes[0]] + data[sizes[0]..];
    }
  }

  function ToGf(data: seq<byte>): (g: seq<gf>)
    ensures |g| == |data|
  {
    seq(|data|, i requires 0 <= i < |data| => data[i] as gf)
  }

  function FromGf(g: seq<gf>): (data: seq<byte>)
    ensures |data| == |g|
  {
    seq(|g|, i requires 0 <= i < |g| => IndexRange(g[i]); g[i] as int)
  }

  function EcBytes(block: seq<byte>, ecLen: nat): (r: seq<byte>)
    requires ecLen > 0
    ensures |r| == ecLen
  {
    FromGf(EcCodewords(ToGf(block), ecLen))
  }

  function EcBlocks(blocks: seq<seq<byte>>, ecLen: nat): (r: seq<seq<byte>>)
    requires ecLen > 0
    ensures |r| == |blocks| && forall b :: 0 <= b < |r| ==> |r[b]| == ecLen
  {
    seq(|blocks|, b requires 0 <= b < |blocks| => EcBytes(blocks[b], ecLen))
  }

  function DataBlocks(data: seq<byte>, version: nat, ec: EcLevel): seq<seq<byte>>
    requires 1 <= version <= 40 && |data| == DataCapacity(version, ec)
  {
    SizesAddUp(version, ec);
    Chunk(data, Sizes(version, ec))
  }

  /** All codewords in symbol order: data column by column, then error correction column by column. */
  function InterleavedCodewords(data: seq<byte>, version: nat, ec: EcLevel): seq<byte>
    requires 1 <= version <= 40 && |data| == DataCapacity(version, ec)
  {
    BlockSizes(version, ec);
    var blocks := DataBlocks(data, version, ec);
    var ecLen := BlockLayout(version, ec).ecLen;
    Interleaved(blocks) + Columns(EcBlocks(blocks, ecLen), ecLen)
  }

  /** The data codewords picked back out of a symbol's codewords. */
  function Deinterleave(codewords: seq<byte>, version: nat, ec: EcLevel): seq<byte>
    requires 1 <= version <= 40
  {
    ReadBlocks(codewords, Sizes(version, ec), 0)
  }

  lemma InterleaveRoundTrip(data: seq<byte>, version: nat, ec: EcLevel)
    requires 1 <= version <= 40 && |data| == DataCapacity(version, ec)
    ensures Deinterleave(InterleavedCodewords(data, version, ec), version, ec) == data
  {
    hide Sizes, BlockLayout, DataCapacity, Chunk, Interleaved, EcBlocks, Columns, ReadBlocks;
    SizesAddUp(version, ec);
    BlockSizes(version, ec);
    var sizes := Sizes(version, ec);
    var blocks := DataBlocks(data, version, ec);
    var ecLen := BlockLayout(version, ec).ecLen;
    FlattenChunk(data, sizes);
    ReadBlocksBack(blocks, sizes, Columns(EcBlocks(blocks, ecLen), ecLen), 0);
    assert blocks[0..] == blocks;
  }

  // ----- Counting the codewords

  lemma {:induction false} FlattenLength<T>(blocks: seq<seq<T>>, lens: seq<nat>)
    requires LensOf(lens, blocks)
    ensures |Flatten(blocks)| == Sum(lens)
    decreases |blocks|
  {
    if blocks != [] {
      FlattenLength(blocks[1..], lens[1..]);
    }
  }

  lemma {:induction false} EvenColumns<T>(blocks: seq<seq<T>>, len: nat)
    requires forall b :: 0 <= b < |blocks| ==> |blocks[b]| == len
    ensures multiset(Columns(blocks, len)) == multiset(Flatten(blocks))
    ensures |Columns(blocks, len)| == Product(len, |blocks|)
  {
    ColumnsAreHeads(blocks, len);
    HeadsAll(blocks, len);
    var lens := Fill(len, |blocks|);
    FlattenLength(blocks, lens);
    SumFill(len, |blocks|);
    SameSize(Columns(blocks, len), Flatten(blocks));
  }

  lemma SameSize<T>(a: seq<T>, b: seq<T>)
    requires multiset(a) == multiset(b)
    ensures |a| == |b|
  {
    assert |multiset(a)| == |a| && |multiset(b)| == |b|;
  }

  function EcFlat(data: seq<byte>, version: nat, ec: EcLevel): seq<byte>
    requires 1 <= version <= 40 && |data| == DataCapacity(version, ec)
  {
    BlockSizes(version, ec);
    Flatten(EcBlocks(DataBlocks(data, version, ec), BlockLayout(version, ec).ecLen))
  }

  /** The symbol's codewords are a permutation of the data and error-correction codewords, as many as the version has. */
  lemma CodewordsPermute(data: seq<byte>, version: nat, ec: EcLevel)
    requires 1 <= version <= 40 && |data| == DataCapacity(version, ec)
    ensures multiset(InterleavedCodewords(data, version, ec)) == multiset(data) + multiset(EcFlat(data, version, ec))
    ensures |InterleavedCodewords(data, version, ec)| == TotalCodewords(version, ec)
  {
    hide BlockLayout, Chunk, Columns, EcBlocks, DataCapacity, Product, Sum, Flatten;
    BlockSizes(version, ec);
    SizesAddUp(version, ec);
    var blocks := DataBlocks(data, version, ec);
    var r := BlockLayout(version, ec);
    InterleavedPermutes(blocks);
    FlattenChunk(data, Sizes(version, ec));
    SameSize(Interleaved(blocks), data);
    EvenColumns(EcBlocks(blocks, r.ecLen), r.ecLen);
  }

  // ----- The code

  method InterleaveColumns(blocks: seq<seq<byte>>, n: nat) returns (out: seq<byte>)
    ensures out == Columns(blocks, n)
  {
    hide Column;
    out := [];
    for i := 0 to n
      invariant out == Columns(blocks, i)
    {
      out := PushColumn(out, blocks, i);
    }
  }

  method PushColumn(before: seq<byte>, blocks: seq<seq<byte>>, i: nat) returns (out: seq<byte>)
    ensures out == before + Column(blocks, i)
  {
    out := before;
    assert blocks[0..] == blocks;
    for b := 0 to |blocks|
      invariant out + Column(blocks[b..], i) == before + Column(blocks, i)
    {
      ColumnStep(out, blocks, b, i);
      if i < |blocks[b]| {
        out := out + [blocks[b][i]];
      }
    }
    assert out + [] == out;
  }

  lemma ColumnStep(out: seq<byte>, blocks: seq<seq<byte>>, b: nat, i: nat)
    requires b < |blocks|
    ensures out + Column(blocks[b..], i) ==
            (if i < |blocks[b]| then out + [blocks[b][i]] else out) + Column(blocks[b + 1..], i)
  {
    assert blocks[b..][0] == blocks[b] && blocks[b..][1..] == blocks[b + 1..];
  }

  method SplitBlocks(data: seq<byte>, offset: nat, size: nat, count: nat, ghost rest: seq<nat>)
    returns (blocks: seq<seq<byte>>, end: nat)
    requires offset + Sum(Fill(size, count) + rest) <= |data|
    ensures end == offset + Product(size, count) && end + Sum(rest) <= |data|
    ensures Chunk(data[offset..], Fill(size, count) + rest) == blocks + Chunk(data[end..], rest)
  {
    hide Chunk, Sum, Fill, Product;
    blocks, end := [], offset;
    ProductStep(size, 0);
    for n := 0 to count
      invariant end == offset + Product(size, n)
      invariant end + Sum(Fill(size, count - n) + rest) <= |data|
      invariant Chunk(data[offset..], Fill(size, count) + rest) ==
                blocks + Chunk(data[end..], Fill(size, count - n) + rest)
    {
      SplitStep(blocks, data, end, size, count - n, rest);
      blocks := blocks + [data[end..end + size]];
      end := end + size;
      ProductStep(size, n + 1);
    }
    FillNone(size, rest);
  }

  lemma FillNone(size: nat, rest: seq<nat>)
    ensures Fill(size, 0) + rest == rest
  {
  }

  lemma SplitStep(blocks: seq<seq<byte>>, data: seq<byte>, end: nat, size: nat, k: nat, rest: seq<nat>)
    requires k > 0 && end + Sum(Fill(size, k) + rest) <= |data|
    ensures end + size + Sum(Fill(size, k - 1) + rest) <= |data|
    ensures blocks + Chunk(data[end..], Fill(size, k) + rest) ==
            (blocks + [data[end..end + size]]) + Chunk(data[end + size..], Fill(size, k - 1) + rest)
  {
    hide Chunk, Sum, Fill;
    ChunkStep(data, end, size, k, rest);
    var tail := Chunk(data[end + size..], Fill(size, k - 1) + rest);
    assert blocks + ([data[end..end + size]] + tail) == (blocks + [data[end..end + size]]) + tail;
  }

  lemma ChunkStep(data: seq<byte>, end: nat, size: nat, k: nat, rest: seq<nat>)
    requires k > 0 && end + Sum(Fill(size, k) + rest) <= |data|
    ensures end + size + Sum(Fill(size, k - 1) + rest) <= |data|
    ensures Chunk(data[end..], Fill(size, k) + rest) ==
            [data[end..end + size]] + Chunk(data[end + size..], Fill(size, k - 1) + rest)
  {
    var s := Fill(size, k) + rest;
    assert s[1..] == Fill(size, k - 1) + rest && s[0] == size;
    assert data[end..][size..] == data[end + size..] && data[end..][..size] == data[end..end + size];
  }

  method ComputeEcBlocks(t: Tables, blocks: seq<seq<byte>>, ecLen: nat) returns (ecs: seq<seq<byte>>)
    requires t.Valid() && ecLen > 0
    ensures ecs == EcBlocks(blocks, ecLen)
  {
    hide EcCodewords, ToGf, FromGf;
    ecs := [];
    for b := 0 to |blocks|
      invariant |ecs| == b && forall k :: 0 <= k < b ==> ecs[k] == EcBytes(blocks[k], ecLen)
    {
      var rem := ComputeEcCodewords(t, ToGf(blocks[b]), ecLen);
      ecs := ecs + [FromGf(rem)];
    }
  }

  method LongestBlock(blocks: seq<seq<byte>>) returns (max: nat)
    ensures max == MaxLength(blocks)
  {
    MaxLengthBounds(blocks);
    max := 0;
    for b := 0 to |blocks|
      invariant forall k :: 0 <= k < b ==> |blocks[k]| <= max
      invariant max == 0 || exists k :: 0 <= k < b && |blocks[k]| == max
    {
      if |blocks[b]| > max {
        max := |blocks[b]|;
      }
    }
  }

  /** Splits, adds error correction, and interleaves both groups. */
  method Interleave(t: Tables, data: seq<byte>, version: nat, ec: EcLevel) returns (out: seq<byte>)
    requires t.Valid() && 1 <= version <= 40 && |data| == DataCapacity(version, ec)
    ensures out == InterleavedCodewords(data, version, ec)
  {
    hide BlockLayout, Columns, EcBlocks, DataCapacity, Product, Sum, Fill, Log, Alpha;
    BlockSizes(version, ec);
    SizesAddUp(version, ec);
    var r := BlockLayout(version, ec);
    assert data[0..] == data;
    var blocks1, offset := SplitBlocks(data, 0, r.size1, r.count1, Fill(r.size2, r.count2));
    assert Fill(r.size2, r.count2) + [] == Fill(r.size2, r.count2);
    var blocks2, end := SplitBlocks(data, offset, r.size2, r.count2, []);
    var blocks := blocks1 + blocks2;
    assert blocks2 + [] == blocks2;
    assert blocks == DataBlocks(data, version, ec);
    var ecs := ComputeEcBlocks(t, blocks, r.ecLen);
    var maxData := LongestBlock(blocks);
    var dataPart := InterleaveColumns(blocks, maxData);
    var ecPart := InterleaveColumns(ecs, r.ecLen);
    out := dataPart + ecPart;
  }
}
