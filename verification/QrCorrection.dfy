/** A reader that corrects: what damage the error-correction codewords undo, from one block up to the whole symbol. */
module QrCorrection {
  import opened Wrappers
  import opened Sequences
  import opened Words
  import opened BitLists
  import opened HuffmanCodes
  import opened Indices
  import opened Galois
  import opened ReedSolomon
  import opened QrTables
  import opened QrData
  import opened Interleaving
  import opened QrGrid
  import opened QrLayout
  import opened QrFormat
  import opened QrPatterns
  import opened QrSymbol

  // ----- Counting differences

  /** In how many places two sequences of equal length differ. */
  function Differences<T(==)>(a: seq<T>, b: seq<T>): nat
    requires |a| == |b|
  {
    if a == [] then 0 else (if a[0] == b[0] then 0 else 1) + Differences(a[1..], b[1..])
  }

  lemma {:induction false} DifferencesSplit<T>(a: seq<T>, b: seq<T>, n: nat)
    requires |a| == |b| && n <= |a|
    ensures Differences(a, b) == Differences(a[..n], b[..n]) + Differences(a[n..], b[n..])
    decreases n
  {
    if n == 0 {
      assert a[0..] == a && b[0..] == b;
    } else {
      DifferencesSplit(a[1..], b[1..], n - 1);
      assert a[1..][..n - 1] == a[..n][1..] && b[1..][..n - 1] == b[..n][1..];
      assert a[1..][n - 1..] == a[n..] && b[1..][n - 1..] == b[n..];
    }
  }

  lemma DifferencesJoin<T>(a: seq<T>, c: seq<T>, b: seq<T>, d: seq<T>)
    requires |a| == |b| && |c| == |d|
    ensures Differences(a + c, b + d) == Differences(a, b) + Differences(c, d)
  {
    DifferencesSplit(a + c, b + d, |a|);
    assert (a + c)[..|a|] == a && (a + c)[|a|..] == c && (b + d)[..|a|] == b && (b + d)[|a|..] == d;
  }

  lemma {:induction false} DifferencesSame<T>(a: seq<T>, b: seq<T>)
    requires |a| == |b|
    ensures Differences(a, b) == 0 <==> a == b
    decreases |a|
  {
    if a != [] {
      DifferencesSame(a[1..], b[1..]);
      assert a == [a[0]] + a[1..] && b == [b[0]] + b[1..];
    }
  }

  lemma {:induction false} DifferencesTriangle<T>(a: seq<T>, b: seq<T>, c: seq<T>)
    requires |a| == |b| == |c|
    ensures Differences(a, c) <= Differences(b, a) + Differences(b, c)
    decreases |a|
  {
    if a != [] {
      DifferencesTriangle(a[1..], b[1..], c[1..]);
    }
  }

  lemma {:induction false} WeightIsDifferences(a: seq<gf>, b: seq<gf>)
    requires |a| == |b|
    ensures Weight(ReedSolomon.Sum(a, b)) == Differences(a, b)
    decreases |a|
  {
    hide Add;
    if a != [] {
      var n := |a| - 1;
      WeightIsDifferences(a[..n], b[..n]);
      DifferencesSplit(a, b, n);
      assert ReedSolomon.Sum(a, b)[..n] == ReedSolomon.Sum(a[..n], b[..n]);
      LastDifference(a, b);
      AddLaws(a[n], b[n], 0);
    }
  }

  lemma LastDifference<T>(a: seq<T>, b: seq<T>)
    requires |a| == |b| && a != []
    ensures Differences(a[|a| - 1..], b[|a| - 1..]) == if a[|a| - 1] == b[|a| - 1] then 0 else 1
  {
    assert a[|a| - 1..][1..] == [] && b[|a| - 1..][1..] == [];
  }

  // ----- One block

  /** A block with its error-correction codewords. */
  function Protected(block: seq<byte>, ecLen: nat): (r: seq<byte>)
    requires ecLen > 0
    ensures |r| == |block| + ecLen
  {
    block + EcBytes(block, ecLen)
  }

  /** `a` explains what was received with at most half as many wrong codewords as there are for correction. */
  predicate Explains(a: seq<byte>, received: seq<byte>, ecLen: nat) {
    ecLen > 0 && |a| + ecLen == |received| && 2 * Differences(received, Protected(a, ecLen)) <= ecLen
  }

  /** The block that explains what was received. */
  ghost function CorrectBlock(received: seq<byte>, ecLen: nat): Option<seq<byte>> {
    if exists a :: Explains(a, received, ecLen) then
      var a :| Explains(a, received, ecLen);
      Some(a)
    else None
  }

  lemma {:induction false} GfDifferences(a: seq<byte>, b: seq<byte>)
    requires |a| == |b|
    ensures Differences(ToGf(a), ToGf(b)) == Differences(a, b)
    decreases |a|
  {
    if a != [] {
      BytesDiffer(a[0], b[0]);
      assert ToGf(a)[1..] == ToGf(a[1..]) && ToGf(b)[1..] == ToGf(b[1..]);
      GfDifferences(a[1..], b[1..]);
    }
  }

  lemma ProtectedGf(a: seq<byte>, ecLen: nat)
    requires ecLen > 0
    ensures ToGf(Protected(a, ecLen)) == ToGf(a) + EcCodewords(ToGf(a), ecLen)
  {
    hide EcCodewords;
    var e := EcCodewords(ToGf(a), ecLen);
    forall i | 0 <= i < ecLen
      ensures ToGf(FromGf(e))[i] == e[i]
    {
      IndexInverse(e[i]);
    }
    assert ToGf(FromGf(e)) == e;
    assert ToGf(a + FromGf(e)) == ToGf(a) + ToGf(FromGf(e));
  }

  /** Two blocks of one length that explain the same codewords are the same block. */
  lemma ExplanationUnique(a: seq<byte>, b: seq<byte>, received: seq<byte>, ecLen: nat)
    requires Explains(a, received, ecLen) && Explains(b, received, ecLen) && |received| <= 255
    ensures a == b
  {
    hide EcCodewords, Weight, ToGf;
    var pa, pb := Protected(a, ecLen), Protected(b, ecLen);
    DifferencesTriangle(pa, received, pb);
    GfDifferences(pa, pb);
    WeightIsDifferences(ToGf(pa), ToGf(pb));
    ProtectedGf(a, ecLen);
    ProtectedGf(b, ecLen);
    if ToGf(a) != ToGf(b) {
      CodewordDistance(ToGf(a), ToGf(b), ecLen);
    }
    GfDifferences(a, b);
    DifferencesSame(ToGf(a), ToGf(b));
    DifferencesSame(a, b);
  }

  /** A block is recovered when at most half as many of its codewords are wrong as there are for correction. */
  lemma BlockCorrected(a: seq<byte>, received: seq<byte>, ecLen: nat)
    requires Explains(a, received, ecLen) && |received| <= 255
    ensures CorrectBlock(received, ecLen) == Some(a)
  {
    hide Explains;
    var b :| CorrectBlock(received, ecLen) == Some(b) && Explains(b, received, ecLen);
    ExplanationUnique(a, b, received, ecLen);
  }

  // ----- All blocks

  /** Block `b` with its error correction, picked out of a symbol's codewords. */
  function Received(codewords: seq<byte>, version: nat, ec: EcLevel, b: nat): seq<byte>
    requires 1 <= version <= 40 && b < |Sizes(version, ec)| && DataCapacity(version, ec) <= |codewords|
  {
    var sizes, cap, ecLen := Sizes(version, ec), DataCapacity(version, ec), BlockLayout(version, ec).ecLen;
    ReadBlock(codewords[..cap], sizes, b, sizes[b]) + ReadBlock(codewords[cap..], Fill(ecLen, |sizes|), b, ecLen)
  }

  /** Every block from `b` on, corrected, and joined. */
  ghost function CorrectBlocks(codewords: seq<byte>, version: nat, ec: EcLevel, b: nat): Option<seq<byte>>
    requires 1 <= version <= 40 && b <= |Sizes(version, ec)| && DataCapacity(version, ec) <= |codewords|
    decreases |Sizes(version, ec)| - b
  {
    if b == |Sizes(version, ec)| then Some([])
    else
      match CorrectBlock(Received(codewords, version, ec, b), BlockLayout(version, ec).ecLen)
      case None => None
      case Some(block) =>
        match CorrectBlocks(codewords, version, ec, b + 1)
        case None => None
        case Some(rest) => Some(block + rest)
  }

  /** A table of blocks of one length is read back column by column. */
  lemma EvenBlockBack<T>(blocks: seq<seq<T>>, len: nat, b: nat)
    requires b < |blocks| && len > 0 && forall k :: 0 <= k < |blocks| ==> |blocks[k]| == len
    ensures ReadBlock(Columns(blocks, len), Fill(len, |blocks|), b, len) == blocks[b]
  {
    hide ReadBlock, Columns;
    MaxLengthBounds(blocks);
    ReadBlockBack(blocks, Fill(len, |blocks|), [], b, len);
    assert Interleaved(blocks) + [] == Columns(blocks, len);
    assert blocks[b][..len] == blocks[b];
  }

  /** The parts of a symbol's codewords. */
  lemma CodewordParts(data: seq<byte>, version: nat, ec: EcLevel)
    requires 1 <= version <= 40 && |data| == DataCapacity(version, ec)
    ensures BlockLayout(version, ec).ecLen > 0
    ensures LensOf(Sizes(version, ec), DataBlocks(data, version, ec))
    ensures var cw, cap := InterleavedCodewords(data, version, ec), DataCapacity(version, ec);
            var blocks, ecLen := DataBlocks(data, version, ec), BlockLayout(version, ec).ecLen;
            cap <= |cw| && cw[..cap] == Interleaved(blocks) && cw[cap..] == Columns(EcBlocks(blocks, ecLen), ecLen)
  {
    hide BlockLayout, Chunk, Columns, EcBlocks, DataCapacity, Interleaved, Flatten;
    BlockSizes(version, ec);
    SizesAddUp(version, ec);
    var blocks, ecLen := DataBlocks(data, version, ec), BlockLayout(version, ec).ecLen;
    InterleavedPermutes(blocks);
    FlattenChunk(data, Sizes(version, ec));
    SameSize(Interleaved(blocks), data);
    CutAppend(InterleavedCodewords(data, version, ec), Interleaved(blocks), Columns(EcBlocks(blocks, ecLen), ecLen), |data|);
  }

  /** Undamaged, each block is received with its own error correction. */
  lemma ReceivedIntact(data: seq<byte>, version: nat, ec: EcLevel, b: nat)
    requires 1 <= version <= 40 && |data| == DataCapacity(version, ec) && b < |Sizes(version, ec)|
    ensures BlockLayout(version, ec).ecLen > 0
    ensures var blocks := DataBlocks(data, version, ec);
            var cw := InterleavedCodewords(data, version, ec);
            |blocks| == |Sizes(version, ec)| && DataCapacity(version, ec) <= |cw|
            && Received(cw, version, ec, b) == Protected(blocks[b], BlockLayout(version, ec).ecLen)
  {
    hide BlockLayout, DataBlocks, Columns, Interleaved, InterleavedCodewords, DataCapacity, Sizes, ReadBlock, EcBytes;
    CodewordParts(data, version, ec);
    var sizes, blocks, ecLen := Sizes(version, ec), DataBlocks(data, version, ec), BlockLayout(version, ec).ecLen;
    ReadBlockBack(blocks, sizes, [], b, sizes[b]);
    assert Interleaved(blocks) + [] == Interleaved(blocks);
    assert blocks[b][..sizes[b]] == blocks[b];
    EvenBlockBack(EcBlocks(blocks, ecLen), ecLen, b);
  }

  /** No block has more wrong codewords than can be corrected. */
  ghost predicate Correctable(received: seq<byte>, sent: seq<byte>, version: nat, ec: EcLevel)
    requires 1 <= version <= 40 && DataCapacity(version, ec) <= |sent| && |received| == |sent|
  {
    forall b :: 0 <= b < |Sizes(version, ec)| ==> BlockCorrectable(received, sent, version, ec, b)
  }

  ghost predicate BlockCorrectable(received: seq<byte>, sent: seq<byte>, version: nat, ec: EcLevel, b: nat)
    requires 1 <= version <= 40 && DataCapacity(version, ec) <= |sent| && |received| == |sent|
    requires b < |Sizes(version, ec)|
  {
    var r, s := Received(received, version, ec, b), Received(sent, version, ec, b);
    |r| == |s| && 2 * Differences(r, s) <= BlockLayout(version, ec).ecLen
  }

  lemma {:induction false} BlocksCorrected(data: seq<byte>, received: seq<byte>, version: nat, ec: EcLevel, b: nat)
    requires 1 <= version <= 40 && |data| == DataCapacity(version, ec) && b <= |Sizes(version, ec)|
    requires DataCapacity(version, ec) <= |InterleavedCodewords(data, version, ec)| == |received|
    requires Correctable(received, InterleavedCodewords(data, version, ec), version, ec)
    ensures |DataBlocks(data, version, ec)| == |Sizes(version, ec)|
    ensures CorrectBlocks(received, version, ec, b) == Some(Flatten(DataBlocks(data, version, ec)[b..]))
    decreases |Sizes(version, ec)| - b
  {
    hide BlockLayout, DataBlocks, InterleavedCodewords, DataCapacity, Sizes, Received, CorrectBlock, Differences;
    CodewordParts(data, version, ec);
    if b < |Sizes(version, ec)| {
      BlocksCorrected(data, received, version, ec, b + 1);
      OneBlockCorrected(data, received, version, ec, b);
      var blocks := DataBlocks(data, version, ec);
      assert blocks[b..][0] == blocks[b] && blocks[b..][1..] == blocks[b + 1..];
    }
  }

  lemma OneBlockCorrected(data: seq<byte>, received: seq<byte>, version: nat, ec: EcLevel, b: nat)
    requires 1 <= version <= 40 && |data| == DataCapacity(version, ec) && b < |Sizes(version, ec)|
    requires DataCapacity(version, ec) <= |InterleavedCodewords(data, version, ec)| == |received|
    requires BlockCorrectable(received, InterleavedCodewords(data, version, ec), version, ec, b)
    ensures |DataBlocks(data, version, ec)| == |Sizes(version, ec)|
    ensures CorrectBlock(Received(received, version, ec, b), BlockLayout(version, ec).ecLen)
            == Some(DataBlocks(data, version, ec)[b])
  {
    hide BlockLayout, DataBlocks, InterleavedCodewords, DataCapacity, Sizes, Received, Differences, EcBytes, CorrectBlock;
    CodewordParts(data, version, ec);
    ReceivedIntact(data, version, ec, b);
    BlockSizes(version, ec);
    SizesSmall(version, ec, b);
    BlockCorrected(DataBlocks(data, version, ec)[b], Received(received, version, ec, b), BlockLayout(version, ec).ecLen);
  }

  lemma SizesSmall(version: nat, ec: EcLevel, b: nat)
    requires 1 <= version <= 40 && b < |Sizes(version, ec)|
    ensures Sizes(version, ec)[b] <= 123 && BlockLayout(version, ec).ecLen <= 30
  {
    hide BlockLayout;
    BlockSizes(version, ec);
  }

  /** The data codewords come back whole when no block is damaged beyond correction. */
  lemma CodewordsCorrected(data: seq<byte>, received: seq<byte>, version: nat, ec: EcLevel)
    requires 1 <= version <= 40 && |data| == DataCapacity(version, ec)
    requires DataCapacity(version, ec) <= |InterleavedCodewords(data, version, ec)| == |received|
    requires Correctable(received, InterleavedCodewords(data, version, ec), version, ec)
    ensures CorrectBlocks(received, version, ec, 0) == Some(data)
  {
    hide BlockLayout, InterleavedCodewords, DataCapacity, Sizes, Received, CorrectBlocks, Correctable, Chunk;
    BlocksCorrected(data, received, version, ec, 0);
    SizesAddUp(version, ec);
    FlattenChunk(data, Sizes(version, ec));
    assert DataBlocks(data, version, ec)[0..] == DataBlocks(data, version, ec);
  }

  // ----- From wrong modules to wrong codewords

  lemma DifferencesPrefix<T>(a: seq<T>, b: seq<T>, n: nat)
    requires |a| == |b| && n <= |a|
    ensures Differences(a[..n], b[..n]) <= Differences(a, b)
  {
    DifferencesSplit(a, b, n);
  }

  /** A stretch that holds a difference counts at least one. */
  lemma DifferencesGrow<T>(a: seq<T>, b: seq<T>, m: nat, p: nat, n: nat)
    requires |a| == |b| && m <= p < n <= |a|
    ensures Differences(a[..m], b[..m]) + (if a[p] == b[p] then 0 else 1) <= Differences(a[..n], b[..n])
  {
    hide Differences;
    DifferencesSplit(a[..n], b[..n], p);
    assert a[..n][..p] == a[..p] && b[..n][..p] == b[..p];
    DifferencesPrefix(a[..p], b[..p], m);
    assert a[..p][..m] == a[..m] && b[..p][..m] == b[..m];
    FirstDifference(a[..n][p..], b[..n][p..]);
  }

  lemma FirstDifference<T>(a: seq<T>, b: seq<T>)
    requires |a| == |b| && a != []
    ensures Differences(a, b) >= if a[0] == b[0] then 0 else 1
  {
  }

  function Least(a: nat, b: nat): nat {
    if a < b then a else b
  }

  lemma {:induction false} ColumnPrefix(lens: seq<nat>, b: nat, i: nat)
    requires b < |lens| && i < lens[b]
    ensures ColumnSize(lens[..b], i) < ColumnSize(lens, i)
    decreases b
  {
    if b > 0 {
      ColumnPrefix(lens[1..], b - 1, i);
      assert lens[..b][1..] == lens[1..][..b - 1];
    }
  }

  /** A block has no more wrong elements than the columns it is read from. */
  lemma {:induction false} ReadDamage<T>(a: seq<T>, b: seq<T>, lens: seq<nat>, k: nat, n: nat)
    requires |a| == |b| && k < |lens| && n <= lens[k]
    ensures |ReadBlock(a, lens, k, n)| == |ReadBlock(b, lens, k, n)|
    ensures Differences(ReadBlock(a, lens, k, n), ReadBlock(b, lens, k, n))
            <= Differences(a[..Least(Start(lens, n), |a|)], b[..Least(Start(lens, n), |a|)])
    decreases n
  {
    hide Differences, ColumnSize;
    if n == 0 {
      DifferencesSame<T>([], []);
    } else {
      ReadDamage(a, b, lens, k, n - 1);
      ColumnPrefix(lens, k, n - 1);
      var p, m, m' := Position(lens, k, n - 1), Least(Start(lens, n - 1), |a|), Least(Start(lens, n), |a|);
      if p < |a| {
        DifferencesGrow(a, b, m, p, m');
        DifferencesJoin(ReadBlock(a, lens, k, n - 1), [a[p]], ReadBlock(b, lens, k, n - 1), [b[p]]);
        OneDifference(a[p], b[p]);
      } else {
        DifferencesPrefix(a[..m'], b[..m'], m);
        assert a[..m'][..m] == a[..m] && b[..m'][..m] == b[..m];
        assert ReadBlock(a, lens, k, n) == ReadBlock(a, lens, k, n - 1);
        assert ReadBlock(b, lens, k, n) == ReadBlock(b, lens, k, n - 1);
      }
    }
  }

  lemma OneDifference<T>(x: T, y: T)
    ensures Differences([x], [y]) == if x == y then 0 else 1
  {
    assert [x][1..] == [] && [y][1..] == [];
  }

  /** A block has no more wrong codewords than the symbol. */
  lemma BlockDamage(received: seq<byte>, sent: seq<byte>, version: nat, ec: EcLevel, b: nat)
    requires 1 <= version <= 40 && DataCapacity(version, ec) <= |sent| && |received| == |sent|
    requires b < |Sizes(version, ec)|
    ensures |Received(received, version, ec, b)| == |Received(sent, version, ec, b)|
    ensures Differences(Received(received, version, ec, b), Received(sent, version, ec, b)) <= Differences(received, sent)
  {
    hide Differences, ReadBlock, BlockLayout, DataCapacity, Sizes;
    var sizes, cap, ecLen := Sizes(version, ec), DataCapacity(version, ec), BlockLayout(version, ec).ecLen;
    DifferencesSplit(received, sent, cap);
    WholeDamage(received[..cap], sent[..cap], sizes, b, sizes[b]);
    WholeDamage(received[cap..], sent[cap..], Fill(ecLen, |sizes|), b, ecLen);
    DifferencesJoin(ReadBlock(received[..cap], sizes, b, sizes[b]), ReadBlock(received[cap..], Fill(ecLen, |sizes|), b, ecLen),
                    ReadBlock(sent[..cap], sizes, b, sizes[b]), ReadBlock(sent[cap..], Fill(ecLen, |sizes|), b, ecLen));
  }

  lemma WholeDamage<T>(a: seq<T>, b: seq<T>, lens: seq<nat>, k: nat, n: nat)
    requires |a| == |b| && k < |lens| && n <= lens[k]
    ensures |ReadBlock(a, lens, k, n)| == |ReadBlock(b, lens, k, n)|
    ensures Differences(ReadBlock(a, lens, k, n), ReadBlock(b, lens, k, n)) <= Differences(a, b)
  {
    hide Differences, ReadBlock;
    ReadDamage(a, b, lens, k, n);
    DifferencesPrefix(a, b, Least(Start(lens, n), |a|));
  }

  /** A wrong codeword has a wrong bit. */
  lemma {:induction false} ByteDamage(a: Bits, b: Bits)
    requires |a| == |b|
    ensures Differences(MsbToBytes(a), MsbToBytes(b)) <= Differences(a, b)
    decreases |a|
  {
    hide MsbValue;
    if |a| >= 8 {
      ByteDamage(a[8..], b[8..]);
      DifferencesSplit(a, b, 8);
      DifferencesSame(a[..8], b[..8]);
      assert MsbToBytes(a)[1..] == MsbToBytes(a[8..]) && MsbToBytes(b)[1..] == MsbToBytes(b[8..]);
    }
  }

  /** Along a walk that visits each module once, no more bits are wrong than modules. */
  lemma {:induction false} WalkDamage(a: map<Pos, bool>, b: map<Pos, bool>, fn: set<Pos>, ps: seq<Pos>, damage: set<Pos>)
    requires Distinct(ps) && forall i :: 0 <= i < |ps| ==> ps[i] in a && ps[i] in b
    requires forall p :: p in ps && p !in fn && p in a && p in b && a[p] != b[p] ==> p in damage
    ensures |ReadBits(a, fn, ps)| == |ReadBits(b, fn, ps)|
    ensures Differences(ReadBits(a, fn, ps), ReadBits(b, fn, ps)) <= |damage|
    decreases |ps|
  {
    hide Differences;
    if ps == [] {
      DifferencesSame<bool>([], []);
    } else {
      var p, rest := ps[0], ps[1..];
      assert p !in rest;
      if p in fn {
        WalkDamage(a, b, fn, rest, damage);
        assert [] + ReadBits(a, fn, rest) == ReadBits(a, fn, rest) && [] + ReadBits(b, fn, rest) == ReadBits(b, fn, rest);
      } else {
        WalkDamage(a, b, fn, rest, damage - {p});
        DifferencesJoin([a[p]], ReadBits(a, fn, rest), [b[p]], ReadBits(b, fn, rest));
        OneDifference(a[p], b[p]);
      }
    }
  }

  // ----- The symbol

  /** The reader of `QrSymbol`, with every block corrected before the payload is parsed. */
  ghost function ReadCorrecting(dark: map<Pos, bool>, w: nat): Option<seq<byte>>
    requires IsPicture(dark, w)
  {
    if w < 21 || w > 177 || w % 4 != 1 then None
    else
      var version := (w - 17) / 4;
      var (ec, mask) := ReadFormat(dark);
      CorrectWith(dark, version, ec, mask)
  }

  ghost function CorrectWith(dark: map<Pos, bool>, version: nat, ec: EcLevel, mask: nat): Option<seq<byte>>
    requires 1 <= version <= 40 && mask < 8 && IsPicture(dark, Width(version))
  {
    match CodewordsRead(dark, version, ec, mask)
    case None => None
    case Some(codewords) =>
      match CorrectBlocks(codewords, version, ec, 0)
      case None => None
      case Some(data) => ParsePayload(data, version)
  }

  /** A picture whose format can be read and none of whose blocks is damaged beyond correction yields the payload. */
  lemma CorrectedRoundTrip(data: seq<byte>, version: nat, ec: EcLevel, mask: nat, dark: map<Pos, bool>, received: seq<byte>)
    requires 1 <= version <= 40 && Holds(version, |data|, ec) && mask < 8
    requires IsPicture(dark, Width(version)) && ReadFormat(dark) == (ec, mask)
    requires CodewordsRead(dark, version, ec, mask) == Some(received)
    requires DataCapacity(version, ec) <= |Codewords(data, version, ec)| == |received|
    requires Correctable(received, Codewords(data, version, ec), version, ec)
    ensures ReadCorrecting(dark, Width(version)) == Some(data)
  {
    hide Holds, CodewordsRead, ReadFormat, DataCapacity, EncodedData, InterleavedCodewords, CorrectBlocks, ParsePayload, Correctable;
    CodewordsCorrected(EncodedData(data, version, ec), received, version, ec);
    PayloadRoundTrip(data, version, ec);
  }

  /** The modules outside the function patterns whose colour is wrong. */
  ghost function Damage(dark: map<Pos, bool>, clean: map<Pos, bool>, fn: set<Pos>): set<Pos> {
    set p | p in dark && p in clean && p !in fn && dark[p] != clean[p]
  }

  lemma UnmaskDamage(dark: map<Pos, bool>, clean: map<Pos, bool>, w: nat, fn: set<Pos>, mask: nat, p: Pos)
    requires mask < 8 && IsPicture(dark, w) && IsPicture(clean, w) && Inside(w, p) && p !in fn
    ensures p in Unmask(dark, w, fn, mask) && p in Unmask(clean, w, fn, mask)
    ensures Unmask(dark, w, fn, mask)[p] != Unmask(clean, w, fn, mask)[p] ==> p in Damage(dark, clean, fn)
  {
    hide MaskApplies;
  }

  /** No more codewords are wrong than modules outside the function patterns. */
  lemma PictureDamage(dark: map<Pos, bool>, clean: map<Pos, bool>, version: nat, ec: EcLevel, mask: nat)
    requires 1 <= version <= 40 && mask < 8 && IsPicture(dark, Width(version)) && IsPicture(clean, Width(version))
    requires CodewordsRead(clean, version, ec, mask).Some?
    ensures CodewordsRead(dark, version, ec, mask).Some?
    ensures Differences(CodewordsRead(dark, version, ec, mask).value, CodewordsRead(clean, version, ec, mask).value)
            <= |Damage(dark, clean, FunctionPositions(version))|
  {
    hide FunctionPositions, TotalCodewords, Zigzag, ReadBits, Unmask, Damage, Differences, MsbToBytes;
    var w, fn := Width(version), FunctionPositions(version);
    ZigzagComplete(w);
    var a, b := Unmask(dark, w, fn, mask), Unmask(clean, w, fn, mask);
    UnmaskKeys(dark, w, fn, mask);
    UnmaskKeys(clean, w, fn, mask);
    forall p | p in Zigzag(w) && p !in fn
      ensures p in a && p in b && (a[p] != b[p] ==> p in Damage(dark, clean, fn))
    {
      UnmaskDamage(dark, clean, w, fn, mask, p);
    }
    WalkDamage(a, b, fn, Zigzag(w), Damage(dark, clean, fn));
    var total := 8 * TotalCodewords(version, ec);
    var bitsA, bitsB := ReadBits(a, fn, Zigzag(w)), ReadBits(b, fn, Zigzag(w));
    DifferencesPrefix(bitsA, bitsB, total);
    ByteDamage(bitsA[..total], bitsB[..total]);
  }

  lemma FewEnough(received: seq<byte>, sent: seq<byte>, version: nat, ec: EcLevel)
    requires 1 <= version <= 40 && DataCapacity(version, ec) <= |sent| && |received| == |sent|
    requires 2 * Differences(received, sent) <= BlockLayout(version, ec).ecLen
    ensures Correctable(received, sent, version, ec)
  {
    hide Differences, Received, BlockLayout, DataCapacity, Sizes;
    forall b | 0 <= b < |Sizes(version, ec)|
      ensures BlockCorrectable(received, sent, version, ec, b)
    {
      BlockDamage(received, sent, version, ec, b);
    }
  }

  /** The picture of an undamaged symbol. */
  ghost function Sent(data: seq<byte>, version: nat, ec: EcLevel, mask: nat): (dark: map<Pos, bool>)
    requires 1 <= version <= 40 && Holds(version, |data|, ec) && mask < 8
    ensures IsPicture(dark, Width(version))
  {
    CodewordsReadBack(data, version, ec, mask);
    Colours(Encoded(data, version, ec, mask))
  }

  lemma FormatBack(data: seq<byte>, version: nat, ec: EcLevel, mask: nat)
    requires 1 <= version <= 40 && Holds(version, |data|, ec) && mask < 8
    ensures ReadFormat(Sent(data, version, ec, mask)) == (ec, mask)
  {
    hide Built, Holds, FormatBits, DrawFormat, Colours, MaskGrid, ReadFormat;
    BuiltGrid(data, version, ec);
    ReadFormatBack(MaskGrid(Built(data, version, ec), Width(version), mask), Width(version), ec, mask);
  }

  // A symbol is still read when at most half as many modules are wrong as a block has error-correction codewords,
  // wherever they lie, provided the five format modules that are read are right; function patterns may be damaged
  // freely.
  lemma DamagedRoundTrip(data: seq<byte>, version: nat, ec: EcLevel, mask: nat, dark: map<Pos, bool>)
    requires 1 <= version <= 40 && Holds(version, |data|, ec) && mask < 8 && IsPicture(dark, Width(version))
    requires ReadFormat(dark) == (ec, mask)
    requires 2 * |Damage(dark, Sent(data, version, ec, mask), FunctionPositions(version))| <= BlockLayout(version, ec).ecLen
    ensures ReadCorrecting(dark, Width(version)) == Some(data)
  {
    hide Holds, Encoded, Colours, Damage, CodewordsRead, ReadFormat, DataCapacity, BlockLayout, Product, Codewords, Differences, Correctable,
         FunctionPositions, ReadCorrecting;
    CodewordsReadBack(data, version, ec, mask);
    PictureDamage(dark, Sent(data, version, ec, mask), version, ec, mask);
    var received := CodewordsRead(dark, version, ec, mask).value;
    FewEnough(received, Codewords(data, version, ec), version, ec);
    CorrectedRoundTrip(data, version, ec, mask, dark, received);
  }

  /** In particular an undamaged symbol is read. */
  lemma IntactRoundTrip(data: seq<byte>, version: nat, ec: EcLevel, mask: nat)
    requires 1 <= version <= 40 && Holds(version, |data|, ec) && mask < 8
    ensures ReadCorrecting(Sent(data, version, ec, mask), Width(version)) == Some(data)
  {
    hide Holds, Sent, ReadFormat, BlockLayout, FunctionPositions, ReadCorrecting;
    FormatBack(data, version, ec, mask);
    var dark := Sent(data, version, ec, mask);
    assert Damage(dark, dark, FunctionPositions(version)) == {};
    DamagedRoundTrip(data, version, ec, mask, dark);
  }
}
