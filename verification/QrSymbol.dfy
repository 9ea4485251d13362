/** Building, masking and choosing a symbol, and a reader that recovers the payload from its colours alone. */
module QrSymbol {
  import opened Wrappers
  import opened Words
  import opened BitLists
  import opened QrTables
  import opened QrData
  import opened ReedSolomon
  import opened Interleaving
  import opened QrGrid
  import opened QrMasks
  import opened QrLayout
  import opened QrFormat
  import opened QrPatterns
  import opened QrMatrix
  import opened QrPenalty

  /** The codewords of a payload. */
  function Codewords(data: seq<byte>, version: nat, ec: EcLevel): seq<byte>
    requires 1 <= version <= 40 && Holds(version, |data|, ec)
  {
    InterleavedCodewords(EncodedData(data, version, ec), version, ec)
  }

  lemma PatternsWalk(version: nat, ec: EcLevel)
    requires 1 <= version <= 40
    ensures OnGrid(Patterns(version, ec), Zigzag(Width(version)))
  {
    hide Patterns, Zigzag, OnGrid;
    PatternsFunctions(version, ec);
    WalkInside(Patterns(version, ec), Width(version));
  }

  /** The unmasked symbol. */
  ghost function Built(data: seq<byte>, version: nat, ec: EcLevel): Grid
    requires 1 <= version <= 40 && Holds(version, |data|, ec)
  {
    PatternsWalk(version, ec);
    Place(Patterns(version, ec), Zigzag(Width(version)), MsbStream(Codewords(data, version, ec)))
  }

  lemma BuiltGrid(data: seq<byte>, version: nat, ec: EcLevel)
    requires 1 <= version <= 40 && Holds(version, |data|, ec)
    ensures IsGrid(Built(data, version, ec), Width(version))
    ensures FunctionSet(Built(data, version, ec)) == FunctionPositions(version)
  {
    hide Codewords, Patterns, FunctionPositions, Holds, Zigzag, Place;
    PatternsFunctions(version, ec);
    WalkInside(Patterns(version, ec), Width(version));
    PlaceKeeps(Patterns(version, ec), Zigzag(Width(version)), MsbStream(Codewords(data, version, ec)));
  }

  /** The symbol carrying `data` under `mask`. */
  ghost function Encoded(data: seq<byte>, version: nat, ec: EcLevel, mask: nat): (g: Grid)
    requires 1 <= version <= 40 && Holds(version, |data|, ec) && mask < 8
    ensures IsGrid(g, Width(version))
  {
    BuiltGrid(data, version, ec);
    DrawFormat(MaskGrid(Built(data, version, ec), Width(version), mask), Width(version), FormatBits(ec, mask))
  }

  // ----- Reading a symbol

  ghost predicate IsPicture(dark: map<Pos, bool>, w: nat) {
    forall p: Pos :: p in dark <==> Inside(w, p)
  }

  /** Level and mask from the copy of the format information beside the top left finder. */
  function ReadFormat(dark: map<Pos, bool>): (EcLevel, nat)
    requires forall x :: 0 <= x < 5 ==> (x, 8) in dark
  {
    (LevelOf(!dark[(0, 8)], dark[(1, 8)]), MaskOf(!dark[(2, 8)], dark[(3, 8)], !dark[(4, 8)]))
  }

  /** Inverts what the mask inverted; `fn` is left alone. */
  ghost function Unmask(dark: map<Pos, bool>, w: nat, fn: set<Pos>, mask: nat): map<Pos, bool>
    requires mask < 8 && IsPicture(dark, w)
  {
    map p | p in dark :: if p !in fn && MaskApplies(mask, p.0, p.1) then !dark[p] else dark[p]
  }

  /** A reader that knows nothing but the picture: version from the width, level and mask from the format. */
  ghost function ReadSymbol(dark: map<Pos, bool>, w: nat): Option<seq<byte>>
    requires IsPicture(dark, w)
  {
    if w < 21 || w > 177 || w % 4 != 1 then None
    else
      var version := (w - 17) / 4;
      var (ec, mask) := ReadFormat(dark);
      ReadWith(dark, version, ec, mask)
  }

  /** The walk stays on the picture. */
  lemma UnmaskWalk(dark: map<Pos, bool>, w: nat, fn: set<Pos>, mask: nat)
    requires mask < 8 && IsPicture(dark, w) && w % 2 == 1 && w >= 7
    ensures OnColours(Unmask(dark, w, fn, mask), Zigzag(w))
  {
    hide Zigzag, MaskApplies;
    ZigzagComplete(w);
    UnmaskKeys(dark, w, fn, mask);
    forall i | 0 <= i < |Zigzag(w)|
      ensures Zigzag(w)[i] in dark
    {
      assert Zigzag(w)[i] in Zigzag(w);
    }
  }

  /** The codewords along the walk, once unmasked. */
  ghost function CodewordsRead(dark: map<Pos, bool>, version: nat, ec: EcLevel, mask: nat): (r: Option<seq<byte>>)
    requires 1 <= version <= 40 && mask < 8 && IsPicture(dark, Width(version))
    ensures r.Some? ==> |r.value| == TotalCodewords(version, ec)
  {
    var w, fn := Width(version), FunctionPositions(version);
    UnmaskWalk(dark, w, fn, mask);
    var bits := ReadBits(Unmask(dark, w, fn, mask), fn, Zigzag(w));
    var total := 8 * TotalCodewords(version, ec);
    if |bits| < total then None else Some(MsbToBytes(bits[..total]))
  }

  ghost function ReadWith(dark: map<Pos, bool>, version: nat, ec: EcLevel, mask: nat): Option<seq<byte>>
    requires 1 <= version <= 40 && mask < 8 && IsPicture(dark, Width(version))
  {
    match CodewordsRead(dark, version, ec, mask)
    case None => None
    case Some(codewords) => ParsePayload(Deinterleave(codewords, version, ec), version)
  }

  lemma {:induction false} ReadBitsDepends(a: map<Pos, bool>, b: map<Pos, bool>, fn: set<Pos>, ps: seq<Pos>)
    requires forall i :: 0 <= i < |ps| ==> ps[i] in a && ps[i] in b
    requires forall p :: p in ps && p !in fn ==> p in a && p in b && a[p] == b[p]
    ensures ReadBits(a, fn, ps) == ReadBits(b, fn, ps)
    decreases |ps|
  {
    if ps != [] {
      ReadBitsDepends(a, b, fn, ps[1..]);
    }
  }

  lemma FormatIsFunction(version: nat, p: Pos)
    requires 1 <= version <= 40 && Inside(Width(version), p) && IsFormat(Width(version), p)
    ensures p in FunctionPositions(version)
  {
    hide Centres, FunctionPositions, IsFinder, IsTiming, IsFormat;
    FunctionPositionsAre(version);
  }

  /** Unmasking the picture of a masked symbol gives back every colour of the unmasked one outside `fn`. */
  lemma UnmaskRestores(g: Grid, version: nat, mask: nat, bits: Bits, p: Pos)
    requires 1 <= version <= 40 && mask < 8 && |bits| == 15
    requires IsGrid(g, Width(version)) && FunctionSet(g) == FunctionPositions(version)
    requires Inside(Width(version), p) && p !in FunctionPositions(version)
    ensures var w := Width(version);
            var dark := Colours(DrawFormat(MaskGrid(g, w, mask), w, bits));
            p in dark && Unmask(dark, w, FunctionPositions(version), mask)[p] == g[p].dark
  {
    hide FunctionPositions, IsFormat, MaskApplies;
    if IsFormat(Width(version), p) {
      FormatIsFunction(version, p);
    }
    assert p !in FunctionSet(g);
  }

  /** The format information is there to be read. */
  lemma ReadFormatBack(g: Grid, w: nat, ec: EcLevel, mask: nat)
    requires w >= 21 && IsGrid(g, w) && mask < 8
    ensures var dark := Colours(DrawFormat(g, w, FormatBits(ec, mask)));
            (forall x :: 0 <= x < 5 ==> (x, 8) in dark) && ReadFormat(dark) == (ec, mask)
  {
    hide FormatBits, LevelOf, MaskOf;
    FormatRead(ec, mask);
    var bits := FormatBits(ec, mask);
    var s := DrawFormat(g, w, bits);
    forall x: nat | x < 5
      ensures (x, 8) in s && s[(x, 8)].dark == bits[14 - x]
    {
    }
    assert s[(0, 8)].dark == bits[14] && s[(1, 8)].dark == bits[13] && s[(2, 8)].dark == bits[12];
    assert s[(3, 8)].dark == bits[11] && s[(4, 8)].dark == bits[10];
  }

  /** The walk over the unmasked symbol meets the codeword bits first. */
  lemma BitsOfBuilt(data: seq<byte>, version: nat, ec: EcLevel)
    requires 1 <= version <= 40 && Holds(version, |data|, ec)
    ensures var w, fn := Width(version), FunctionPositions(version);
            var bits := MsbStream(Codewords(data, version, ec));
            && |bits| == 8 * TotalCodewords(version, ec)
            && OnColours(Colours(Built(data, version, ec)), Zigzag(w))
            && |bits| <= |ReadBits(Colours(Built(data, version, ec)), fn, Zigzag(w))|
            && ReadBits(Colours(Built(data, version, ec)), fn, Zigzag(w))[..|bits|] == bits
  {
    hide Patterns, FunctionPositions, Holds, Zigzag, Place, ReadBits, EncodedData, InterleavedCodewords, TotalCodewords, FreeCount,
         FunctionSet, Colours, EcFlat;
    var w := Width(version);
    PatternsFunctions(version, ec);
    WalkInside(Patterns(version, ec), w);
    CodewordsPermute(EncodedData(data, version, ec), version, ec);
    FreeModulesSuffice(version, ec);
    ZigzagComplete(w);
    ReadOfPlace(Patterns(version, ec), Zigzag(w), MsbStream(Codewords(data, version, ec)));
    PlaceKeeps(Patterns(version, ec), Zigzag(w), MsbStream(Codewords(data, version, ec)));
    ColoursKeys(Built(data, version, ec));
  }

  ghost predicate OnColours(dark: map<Pos, bool>, ps: seq<Pos>) {
    forall i :: 0 <= i < |ps| ==> ps[i] in dark
  }

  lemma ColoursKeys(g: Grid)
    ensures Colours(g).Keys == g.Keys
  {
  }

  /** The codewords read off an undamaged picture are those that were placed. */
  lemma CodewordsReadBack(data: seq<byte>, version: nat, ec: EcLevel, mask: nat)
    requires 1 <= version <= 40 && Holds(version, |data|, ec) && mask < 8
    ensures IsPicture(Colours(Encoded(data, version, ec, mask)), Width(version))
    ensures CodewordsRead(Colours(Encoded(data, version, ec, mask)), version, ec, mask) == Some(Codewords(data, version, ec))
  {
    hide Built, FunctionPositions, Holds, Zigzag, ReadBits, EncodedData, InterleavedCodewords, TotalCodewords,
         FunctionSet, Colours, DrawFormat, MaskGrid, Unmask, MsbStream, MsbToBytes, FormatBits;
    var w, fn := Width(version), FunctionPositions(version);
    var b := Built(data, version, ec);
    var dark := Colours(Encoded(data, version, ec, mask));
    ColoursKeys(Encoded(data, version, ec, mask));
    ColoursKeys(b);
    BuiltGrid(data, version, ec);
    ZigzagComplete(w);
    var plain := Unmask(dark, w, fn, mask);
    UnmaskKeys(dark, w, fn, mask);
    forall p | p in Zigzag(w) && p !in fn
      ensures p in plain && p in Colours(b) && plain[p] == Colours(b)[p]
    {
      UnmaskRestores(b, version, mask, FormatBits(ec, mask), p);
      ColourAt(b, p);
    }
    ReadBitsDepends(plain, Colours(b), fn, Zigzag(w));
    BitsOfBuilt(data, version, ec);
    BytesOfMsbStream(Codewords(data, version, ec));
  }

  lemma ReadWithBack(data: seq<byte>, version: nat, ec: EcLevel, mask: nat)
    requires 1 <= version <= 40 && Holds(version, |data|, ec) && mask < 8
    ensures IsPicture(Colours(Encoded(data, version, ec, mask)), Width(version))
    ensures ReadWith(Colours(Encoded(data, version, ec, mask)), version, ec, mask) == Some(data)
  {
    hide Encoded, Holds, EncodedData, InterleavedCodewords, CodewordsRead, Colours, ParsePayload, Deinterleave;
    CodewordsReadBack(data, version, ec, mask);
    InterleaveRoundTrip(EncodedData(data, version, ec), version, ec);
    PayloadRoundTrip(data, version, ec);
  }

  lemma UnmaskKeys(dark: map<Pos, bool>, w: nat, fn: set<Pos>, mask: nat)
    requires mask < 8 && IsPicture(dark, w)
    ensures Unmask(dark, w, fn, mask).Keys == dark.Keys
  {
    hide MaskApplies;
  }

  lemma ColourAt(g: Grid, p: Pos)
    requires p in g
    ensures p in Colours(g) && Colours(g)[p] == g[p].dark
  {
  }

  /** Every payload that fits, under every mask, is read back from the picture of its symbol. */
  lemma SymbolRoundTrip(data: seq<byte>, version: nat, ec: EcLevel, mask: nat)
    requires 1 <= version <= 40 && Holds(version, |data|, ec) && mask < 8
    ensures IsPicture(Colours(Encoded(data, version, ec, mask)), Width(version))
    ensures ReadSymbol(Colours(Encoded(data, version, ec, mask)), Width(version)) == Some(data)
  {
    hide Built, Holds, FormatBits, DrawFormat, Colours, MaskGrid, ReadFormat, ReadWith;
    ReadWithBack(data, version, ec, mask);
    BuiltGrid(data, version, ec);
    ReadFormatBack(MaskGrid(Built(data, version, ec), Width(version), mask), Width(version), ec, mask);
  }

  /** A reader of `g` recovers `data`. */
  ghost predicate ReadsAs(g: Grid, w: nat, data: seq<byte>) {
    IsPicture(Colours(g), w) && ReadSymbol(Colours(g), w) == Some(data)
  }

  /** Against the unmasked symbol, exactly the data modules of the mask's pattern are inverted. */
  lemma MaskShown(data: seq<byte>, version: nat, ec: EcLevel, mask: nat)
    requires 1 <= version <= 40 && Holds(version, |data|, ec) && mask < 8
    ensures ShowsMask(Built(data, version, ec), Encoded(data, version, ec, mask), mask)
  {
    hide Holds, Built, MaskGrid, DrawFormat, FormatBits, ShowsMask, IsFormat;
    var b, w := Built(data, version, ec), Width(version);
    BuiltGrid(data, version, ec);
    MaskGridShows(b, w, mask);
    TrialStart(data, version, ec);
    FormatCovered(b, w);
    StampedShows(b, MaskGrid(b, w, mask), w, mask, FormatBits(ec, mask));
  }

  lemma FormatCovered(b: Grid, w: nat)
    requires SameButFormat(b, b, w)
    ensures forall p: Pos :: p in b && Inside(w, p) && IsFormat(w, p) ==> b[p].Function?
  {
    hide IsFormat;
  }

  // ----- The encoder

  /** The version the encoder uses: the smallest that holds the payload. */
  predicate Smallest(version: nat, len: nat, ec: EcLevel) {
    && 1 <= version <= 40 && Holds(version, len, ec)
    && forall u :: 1 <= u < version ==> !Holds(u, len, ec)
  }

  /** `m` is a well-formed symbol of that version with picture `g`. */
  ghost predicate IsSymbol(m: Matrix, version: nat, g: Grid)
    reads m, m.modules
  {
    m.Valid() && m.width as int == Width(version) && m.grid == g
  }

  method ComputeCodewords(data: seq<byte>, version: nat, ec: EcLevel) returns (codewords: seq<byte>)
    requires 1 <= version <= 40 && Holds(version, |data|, ec)
    ensures codewords == Codewords(data, version, ec)
  {
    hide Holds, EncodedData, InterleavedCodewords;
    var encoded := EncodeData(data, version, ec);
    var tables := GfTables();
    codewords := Interleave(tables, encoded, version, ec);
  }

  lemma BuiltIs(data: seq<byte>, version: nat, ec: EcLevel)
    requires 1 <= version <= 40 && Holds(version, |data|, ec)
    ensures OnGrid(Patterns(version, ec), Zigzag(Width(version)))
    ensures Built(data, version, ec)
            == Place(Patterns(version, ec), Zigzag(Width(version)), MsbStream(Codewords(data, version, ec)))
  {
    hide Holds, Zigzag, Place, Codewords, Patterns, MsbStream;
    PatternsWalk(version, ec);
  }

  /** Function patterns plus placed codewords. */
  method BuildVersion(data: seq<byte>, version: nat, ec: EcLevel) returns (m: Matrix)
    requires 1 <= version <= 40 && Holds(version, |data|, ec)
    ensures fresh(m) && fresh(m.modules) && IsSymbol(m, version, Built(data, version, ec))
  {
    hide Holds, Shows, IsGrid, Zigzag, Place, Codewords, Patterns, Picture, Blank, MsbStream, Built;
    var codewords := ComputeCodewords(data, version, ec);
    BuiltIs(data, version, ec);
    m := new Matrix(version);
    m.DrawFunctionPatterns(version, ec);
    m.DrawCodewords(codewords);
  }

  method Build(data: seq<byte>, ec: EcLevel) returns (r: Option<Matrix>, ghost version: nat)
    ensures r == None <==> forall u :: 1 <= u <= 40 ==> !Holds(u, |data|, ec)
    ensures r.Some? ==> Smallest(version, |data|, ec) && fresh(r.value) && fresh(r.value.modules)
    ensures r.Some? ==> IsSymbol(r.value, version, Built(data, version, ec))
  {
    hide Holds, IsSymbol, Built;
    version := 0;
    var chosen := ChooseVersion(|data|, ec);
    match chosen {
      case None =>
        r := None;
      case Some(v) =>
        version := v;
        var m := BuildVersion(data, v, ec);
        r := Some(m);
    }
  }

  /** A symbol under a given mask; only masks 0 to 7 exist. */
  method EncodeWithMask(data: seq<byte>, ec: EcLevel, mask: nat) returns (r: Option<Matrix>, ghost version: nat)
    ensures r == None <==> mask > 7 || forall u :: 1 <= u <= 40 ==> !Holds(u, |data|, ec)
    ensures r.Some? ==> Smallest(version, |data|, ec) && fresh(r.value) && fresh(r.value.modules)
    ensures r.Some? ==> IsSymbol(r.value, version, Encoded(data, version, ec, mask))
    ensures r.Some? ==> ShowsMask(Built(data, version, ec), r.value.grid, mask)
    ensures r.Some? ==> ReadsAs(r.value.grid, Width(version), data)
  {
    hide Holds, Shows, Built, MaskGrid, DrawFormat, FormatBits, ReadSymbol, Colours;
    version := 0;
    if mask > 7 {
      r := None;
    } else {
      r, version := Build(data, ec);
      if r.Some? {
        r.value.ApplyMask(mask);
        r.value.DrawFormatInfo(ec, mask);
        SymbolRoundTrip(data, version, ec, mask);
        MaskShown(data, version, ec, mask);
      }
    }
  }

  ghost function Score(data: seq<byte>, version: nat, ec: EcLevel, mask: nat): nat
    requires 1 <= version <= 40 && Holds(version, |data|, ec) && mask < 8
  {
    Penalty(Encoded(data, version, ec, mask), Width(version))
  }

  method MaskPenalty(data: seq<byte>, ec: EcLevel, mask: nat) returns (r: Option<nat>, ghost version: nat)
    ensures r == None <==> mask > 7 || forall u :: 1 <= u <= 40 ==> !Holds(u, |data|, ec)
    ensures r.Some? ==> Smallest(version, |data|, ec) && r.value == Score(data, version, ec, mask)
  {
    hide Holds, Shows, Encoded, Penalty;
    var symbol;
    symbol, version := EncodeWithMask(data, ec, mask);
    if symbol.None? {
      r := None;
    } else {
      var score := ComputePenalty(symbol.value);
      r := Some(score);
    }
  }

  /** The lowest-numbered of the first `k` masks with the least score. */
  ghost predicate LeastPenalised(data: seq<byte>, version: nat, ec: EcLevel, best: nat, k: nat)
    requires 1 <= version <= 40 && Holds(version, |data|, ec) && k <= 8
  {
    && best < k
    && (forall i: nat :: i < k ==> Score(data, version, ec, best) <= Score(data, version, ec, i))
    && (forall i: nat :: i < best ==> Score(data, version, ec, best) < Score(data, version, ec, i))
  }

  /** The best so far, as the loop holds it: nothing yet, or a score and its mask. */
  ghost predicate BestSoFar(data: seq<byte>, version: nat, ec: EcLevel, score: nat, best: nat, k: nat)
    requires 1 <= version <= 40 && Holds(version, |data|, ec) && k <= 8
  {
    if k == 0 then score == 0xffff_ffff && best == 0
    else LeastPenalised(data, version, ec, best, k) && score == Score(data, version, ec, best)
  }

  lemma BestStep(data: seq<byte>, version: nat, ec: EcLevel, score: nat, best: nat, k: nat)
    requires 1 <= version <= 40 && Holds(version, |data|, ec) && k < 8
    requires BestSoFar(data, version, ec, score, best, k)
    ensures var next := Score(data, version, ec, k);
            if next < score then BestSoFar(data, version, ec, next, k, k + 1)
            else BestSoFar(data, version, ec, score, best, k + 1)
  {
    hide Holds, Score;
    ScoreBound(data, version, ec, k);
  }

  lemma ScoreBound(data: seq<byte>, version: nat, ec: EcLevel, mask: nat)
    requires 1 <= version <= 40 && Holds(version, |data|, ec) && mask < 8
    ensures Score(data, version, ec, mask) < 0xffff_ffff
  {
    hide Holds, Encoded, Penalty;
    PenaltyBound(Encoded(data, version, ec, mask), Width(version));
  }

  /** Before any trial, only format modules may differ, and they are function modules. */
  lemma TrialStart(data: seq<byte>, version: nat, ec: EcLevel)
    requires 1 <= version <= 40 && Holds(version, |data|, ec)
    ensures var b := Built(data, version, ec); SameButFormat(b, b, Width(version))
  {
    hide Holds, Built, FunctionPositions, IsFormat;
    var b, w := Built(data, version, ec), Width(version);
    BuiltGrid(data, version, ec);
    forall p | Inside(w, p) && IsFormat(w, p)
      ensures b[p].Function?
    {
      FormatIsFunction(version, p);
      assert p in FunctionSet(b);
    }
  }

  /** One trial in place yields the symbol a fresh build under that mask would be. */
  lemma TrialIsFresh(data: seq<byte>, version: nat, ec: EcLevel, g: Grid, mask: nat)
    requires 1 <= version <= 40 && Holds(version, |data|, ec) && mask < 8
    requires SameButFormat(Built(data, version, ec), g, Width(version))
    ensures var w := Width(version);
            var t := DrawFormat(MaskGrid(g, w, mask), w, FormatBits(ec, mask));
            t == Encoded(data, version, ec, mask) && SameButFormat(Built(data, version, ec), MaskGrid(t, w, mask), w)
  {
    hide Holds, Built, MaskGrid, DrawFormat, FormatBits, SameButFormat;
    SameGrids(Built(data, version, ec), g, Width(version));
    BuiltGrid(data, version, ec);
    TrialSame(Built(data, version, ec), g, Width(version), mask, FormatBits(ec, mask));
    TrialRestores(Built(data, version, ec), g, Width(version), mask, FormatBits(ec, mask));
  }

  lemma SameGrids(a: Grid, b: Grid, w: nat)
    requires SameButFormat(a, b, w)
    ensures IsGrid(a, w) && IsGrid(b, w)
  {
  }

  // The symbol under the lowest-numbered mask with the least penalty, found by masking, scoring and
  // unmasking one matrix in place.
  method Encode(data: seq<byte>, ec: EcLevel) returns (r: Option<Matrix>, ghost version: nat, ghost chosen: nat)
    ensures r == None <==> forall u :: 1 <= u <= 40 ==> !Holds(u, |data|, ec)
    ensures r.Some? ==> Smallest(version, |data|, ec) && fresh(r.value) && fresh(r.value.modules)
    ensures r.Some? ==> LeastPenalised(data, version, ec, chosen, 8)
    ensures r.Some? ==> IsSymbol(r.value, version, Encoded(data, version, ec, chosen))
    ensures r.Some? ==> ShowsMask(Built(data, version, ec), r.value.grid, chosen)
    ensures r.Some? ==> ReadsAs(r.value.grid, Width(version), data)
  {
    hide ReadSymbol, Colours, Holds, Shows, IsGrid, Built, Encoded, Penalty, MaskGrid, DrawFormat, FormatBits, SameButFormat, BestSoFar;
    chosen := 0;
    r, version := Build(data, ec);
    if r.Some? {
      var m := r.value;
      ghost var built, w := m.grid, Width(version);
      TrialStart(data, version, ec);
      var best := (0xffff_ffff, 0);
      BestStart(data, version, ec);
      var mask := 0;
      while mask < 8
        invariant 0 <= mask <= 8 && m.Valid() && fresh(m) && fresh(m.modules)
        invariant SameButFormat(built, m.grid, w)
        invariant best.0 >= 0 && 0 <= best.1 < 8 && BestSoFar(data, version, ec, best.0, best.1, mask)
      {
        TrialIsFresh(data, version, ec, m.grid, mask);
        m.ApplyMask(mask);
        m.DrawFormatInfo(ec, mask);
        var score := ComputePenalty(m);
        BestStep(data, version, ec, best.0, best.1, mask);
        if score < best.0 {
          best := (score, mask);
        }
        m.ApplyMask(mask);
        mask := mask + 1;
      }
      TrialIsFresh(data, version, ec, m.grid, best.1);
      m.ApplyMask(best.1);
      m.DrawFormatInfo(ec, best.1);
      chosen := best.1;
      SymbolRoundTrip(data, version, ec, best.1);
      MaskShown(data, version, ec, best.1);
      BestEnd(data, version, ec, best.0, best.1);
    }
  }

  lemma BestStart(data: seq<byte>, version: nat, ec: EcLevel)
    requires 1 <= version <= 40 && Holds(version, |data|, ec)
    ensures BestSoFar(data, version, ec, 0xffff_ffff, 0, 0)
  {
    hide Holds;
  }

  lemma BestEnd(data: seq<byte>, version: nat, ec: EcLevel, score: nat, best: nat)
    requires 1 <= version <= 40 && Holds(version, |data|, ec) && BestSoFar(data, version, ec, score, best, 8)
    ensures LeastPenalised(data, version, ec, best, 8)
  {
    hide Holds, Score;
  }
}
