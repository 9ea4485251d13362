/** What each drawing step of the function patterns does to the grid, and the picture they add up to. */
module QrPatterns {
  import opened BitLists
  import opened QrTables
  import opened QrGrid
  import opened QrLayout
  import opened QrFormat

  ghost function Blank(w: nat): (g: Grid) {
    map p | p in Block(0, 0, w, w) :: Data(false)
  }

  lemma BlankIs(w: nat)
    ensures IsGrid(Blank(w), w)
    ensures forall p :: p in Blank(w) ==> Blank(w)[p] == Data(false)
  {
    hide Block;
    BlockFacts(0, 0, w, w);
  }

  // ----- The steps

  predicate NearFinder(ox: int, oy: int, p: Pos) {
    ox - 1 <= p.0 <= ox + 7 && oy - 1 <= p.1 <= oy + 7
  }

  /** A dark 7x7 border and 3x3 core with a light ring between and a light separator around. */
  predicate FinderDark(dx: int, dy: int) {
    var onSeparator := !(0 <= dx < 7) || !(0 <= dy < 7);
    var border := dx == 0 || dx == 6 || dy == 0 || dy == 6;
    var core := 2 <= dx <= 4 && 2 <= dy <= 4;
    !onSeparator && (border || core)
  }

  ghost function DrawFinder(g: Grid, ox: int, oy: int): Grid {
    map p | p in g :: if NearFinder(ox, oy, p) then Function(FinderDark(p.0 - ox, p.1 - oy)) else g[p]
  }

  predicate TimingDark(p: Pos) {
    (if p.1 == 6 then p.0 else p.1) % 2 == 0
  }

  ghost function DrawTiming(g: Grid, w: int): Grid {
    map p | p in g :: if IsTiming(w, p) then Function(TimingDark(p)) else g[p]
  }

  function Abs(x: int): nat {
    if x < 0 then -x else x
  }

  function Max(a: nat, b: nat): nat {
    if a < b then b else a
  }

  /** Dark centre and border, light ring between. */
  predicate AlignmentDark(cx: int, cy: int, p: Pos) {
    Max(Abs(p.0 - cx), Abs(p.1 - cy)) != 1
  }

  ghost function DrawPattern(g: Grid, cx: int, cy: int): Grid {
    map p | p in g :: if InAlignment(cx, cy, p) then Function(AlignmentDark(cx, cy, p)) else g[p]
  }

  /** The first `n` patterns of row `i` of the pattern table. */
  ghost function DrawPatternRow(g: Grid, cs: seq<nat>, i: nat, n: nat): Grid
    requires i < |cs| && n <= |cs|
    decreases n, g
  {
    if n == 0 then g
    else
      var before := DrawPatternRow(g, cs, i, n - 1);
      if KeptPair(|cs|, i, n - 1) then DrawPattern(before, cs[i], cs[n - 1]) else before
  }

  ghost function DrawPatternTable(g: Grid, cs: seq<nat>, n: nat): Grid
    requires n <= |cs|
    decreases n, g
  {
    if n == 0 then g else DrawPatternRow(DrawPatternTable(g, cs, n - 1), cs, n - 1, |cs|)
  }

  function VersionBit(w: int, p: Pos): int {
    if p.1 < 6 then 3 * p.1 + (p.0 - (w - 11)) else 3 * p.0 + (p.1 - (w - 11))
  }

  ghost function DrawVersion(g: Grid, version: nat, bits: Bits): Grid
    requires |bits| == 18
  {
    var w := Width(version);
    map p | p in g :: if IsVersionInfo(version, w, p) then Function(bits[VersionBit(w, p)]) else g[p]
  }

  ghost function Finders(g: Grid, w: int): Grid {
    DrawFinder(DrawFinder(DrawFinder(g, 0, 0), w - 7, 0), 0, w - 7)
  }

  /** The whole sequence, on a blank grid. */
  ghost function Drawn(version: nat, versionBits: Bits): Grid
    requires 1 <= version <= 40 && |versionBits| == 18
  {
    var w, cs := Width(version), Centres(version);
    DrawVersion(DrawPatternTable(DrawTiming(Finders(Blank(w), w), w), cs, |cs|), version, versionBits)
  }

  // ----- The picture

  predicate FinderColour(w: int, p: Pos) {
    FinderDark(if p.0 < 8 then p.0 else p.0 - (w - 7), if p.1 < 8 then p.1 else p.1 - (w - 7))
  }

  /** What the function patterns show at `p`. */
  ghost predicate PictureAt(g: Grid, version: nat, versionBits: Bits, formatBits: Bits, p: Pos)
    requires 1 <= version <= 40 && |versionBits| == 18 && |formatBits| == 15
  {
    var w, cs := Width(version), Centres(version);
    && p in g
    && (IsFinder(w, p) ==> g[p] == Function(FinderColour(w, p)))
    && (IsTiming(w, p) ==> g[p] == Function(TimingDark(p)))
    && (forall i: nat, j: nat :: KeptPair(|cs|, i, j) && InAlignment(cs[i], cs[j], p) ==>
          g[p] == Function(AlignmentDark(cs[i], cs[j], p)))
    && (IsVersionInfo(version, w, p) ==> g[p] == Function(versionBits[VersionBit(w, p)]))
    && (IsFormat(w, p) ==> g[p] == FormatModule(w, formatBits, p))
    && (!IsFunctionModule(version, p) ==> g[p] == Data(false))
  }

  /** Every function pattern is in place and in colour, and nothing else is drawn. */
  ghost predicate Picture(g: Grid, version: nat, versionBits: Bits, formatBits: Bits)
    requires 1 <= version <= 40 && |versionBits| == 18 && |formatBits| == 15
  {
    IsGrid(g, Width(version)) && forall p :: Inside(Width(version), p) ==> PictureAt(g, version, versionBits, formatBits, p)
  }

  lemma {:induction false} Apart(cs: seq<nat>, w: int, i: nat, j: nat)
    requires CentresOk(cs, w) && i < j < |cs|
    ensures cs[i] + 12 <= cs[j]
    decreases j
  {
    if i < j - 1 {
      Apart(cs, w, i, j - 1);
    }
  }

  /** Two different patterns do not meet. */
  lemma OnePattern(cs: seq<nat>, w: int, i: nat, j: nat, k: nat, l: nat, p: Pos)
    requires CentresOk(cs, w) && i < |cs| && j < |cs| && k < |cs| && l < |cs|
    requires InAlignment(cs[i], cs[j], p) && InAlignment(cs[k], cs[l], p)
    ensures i == k && j == l
  {
    if i < k { Apart(cs, w, i, k); }
    if k < i { Apart(cs, w, k, i); }
    if j < l { Apart(cs, w, j, l); }
    if l < j { Apart(cs, w, l, j); }
  }

  ghost predicate RowMeets(cs: seq<nat>, i: nat, n: nat, p: Pos)
    requires i < |cs| && n <= |cs|
  {
    exists j: nat :: j < n && KeptPair(|cs|, i, j) && InAlignment(cs[i], cs[j], p)
  }

  lemma {:induction false} RowShows(g: Grid, cs: seq<nat>, w: int, i: nat, n: nat, p: Pos)
    requires CentresOk(cs, w) && i < |cs| && n <= |cs| && p in g
    ensures var r := DrawPatternRow(g, cs, i, n);
            && p in r
            && (!RowMeets(cs, i, n, p) ==> r[p] == g[p])
            && forall j: nat :: j < n && KeptPair(|cs|, i, j) && InAlignment(cs[i], cs[j], p) ==>
                 r[p] == Function(AlignmentDark(cs[i], cs[j], p))
    decreases n
  {
    hide CentresOk, AlignmentDark, InAlignment;
    if n > 0 {
      RowShows(g, cs, w, i, n - 1, p);
      if KeptPair(|cs|, i, n - 1) && InAlignment(cs[i], cs[n - 1], p) {
        forall j: nat | j < n && KeptPair(|cs|, i, j) && InAlignment(cs[i], cs[j], p)
          ensures j == n - 1
        {
          OnePattern(cs, w, i, j, i, n - 1, p);
        }
      } else if RowMeets(cs, i, n - 1, p) {
        var j: nat :| j < n - 1 && KeptPair(|cs|, i, j) && InAlignment(cs[i], cs[j], p);
        assert RowMeets(cs, i, n, p);
      }
    }
  }

  ghost predicate TableMeets(cs: seq<nat>, n: nat, p: Pos)
    requires n <= |cs|
  {
    exists i: nat :: i < n && RowMeets(cs, i, |cs|, p)
  }

  lemma {:induction false} TableShows(g: Grid, cs: seq<nat>, w: int, n: nat, p: Pos)
    requires CentresOk(cs, w) && n <= |cs| && p in g
    ensures var r := DrawPatternTable(g, cs, n);
            && p in r
            && (!TableMeets(cs, n, p) ==> r[p] == g[p])
            && forall i: nat, j: nat :: i < n && KeptPair(|cs|, i, j) && InAlignment(cs[i], cs[j], p) ==>
                 r[p] == Function(AlignmentDark(cs[i], cs[j], p))
    decreases n
  {
    hide CentresOk, AlignmentDark, InAlignment, DrawPatternRow;
    if n > 0 {
      TableShows(g, cs, w, n - 1, p);
      RowShows(DrawPatternTable(g, cs, n - 1), cs, w, n - 1, |cs|, p);
      if RowMeets(cs, n - 1, |cs|, p) {
        var l: nat :| l < |cs| && KeptPair(|cs|, n - 1, l) && InAlignment(cs[n - 1], cs[l], p);
        forall i: nat, j: nat | i < n && KeptPair(|cs|, i, j) && InAlignment(cs[i], cs[j], p)
          ensures i == n - 1 && j == l
        {
          OnePattern(cs, w, i, j, n - 1, l, p);
        }
      } else if TableMeets(cs, n - 1, p) {
        var i: nat :| i < n - 1 && RowMeets(cs, i, |cs|, p);
        assert TableMeets(cs, n, p);
      }
    }
  }

  lemma TableMeetsAlignment(cs: seq<nat>, p: Pos)
    ensures TableMeets(cs, |cs|, p) <==> IsAlignment(cs, p)
  {
    hide InAlignment;
    if TableMeets(cs, |cs|, p) {
      var i: nat :| i < |cs| && RowMeets(cs, i, |cs|, p);
      var j: nat :| j < |cs| && KeptPair(|cs|, i, j) && InAlignment(cs[i], cs[j], p);
      assert IsAlignment(cs, p);
    }
    if IsAlignment(cs, p) {
      var i: nat, j: nat :| KeptPair(|cs|, i, j) && InAlignment(cs[i], cs[j], p);
      assert RowMeets(cs, i, |cs|, p);
    }
  }

  lemma {:induction false} KeysRow(g: Grid, cs: seq<nat>, i: nat, n: nat)
    requires i < |cs| && n <= |cs|
    ensures DrawPatternRow(g, cs, i, n).Keys == g.Keys
    decreases n
  {
    if n > 0 {
      KeysRow(g, cs, i, n - 1);
    }
  }

  lemma {:induction false} KeysTable(g: Grid, cs: seq<nat>, n: nat)
    requires n <= |cs|
    ensures DrawPatternTable(g, cs, n).Keys == g.Keys
    decreases n
  {
    hide DrawPatternRow;
    if n > 0 {
      KeysTable(g, cs, n - 1);
      KeysRow(DrawPatternTable(g, cs, n - 1), cs, n - 1, |cs|);
    }
  }

  lemma FindersShow(g: Grid, w: int, p: Pos)
    requires w >= 21 && p in g && Inside(w, p)
    ensures Finders(g, w).Keys == g.Keys
    ensures Finders(g, w)[p] == if IsFinder(w, p) then Function(FinderColour(w, p)) else g[p]
  {
    hide FinderDark;
  }

  /** An alignment pattern clears the finders, the format and the version modules, and agrees with the timing lines. */
  lemma PatternClear(version: nat, cs: seq<nat>, i: nat, j: nat, p: Pos)
    requires 1 <= version <= 40 && CentresOk(cs, Width(version)) && KeptPair(|cs|, i, j) && InAlignment(cs[i], cs[j], p)
    ensures var w := Width(version);
            && !IsFinder(w, p) && !IsFormat(w, p) && !IsVersionInfo(version, w, p)
            && (IsTiming(w, p) ==> AlignmentDark(cs[i], cs[j], p) == TimingDark(p))
  {
    var w, n := Width(version), |cs|;
    if i > 0 { Apart(cs, w, 0, i); }
    if j > 0 { Apart(cs, w, 0, j); }
    if i < n - 1 { Apart(cs, w, i, n - 1); }
    if j < n - 1 { Apart(cs, w, j, n - 1); }
    if IsTiming(w, p) && p.1 == 6 {
      assert cs[j] == 6;
      Parity(cs[i], p.0);
    } else if IsTiming(w, p) {
      assert cs[i] == 6;
      Parity(cs[j], p.1);
    }
  }

  lemma Parity(c: nat, x: int)
    requires c % 2 == 0 && c - 2 <= x <= c + 2
    ensures Abs(x - c) != 1 <==> x % 2 == 0
  {
  }

  lemma DrawnKeys(version: nat, versionBits: Bits)
    requires 1 <= version <= 40 && |versionBits| == 18
    ensures IsGrid(Drawn(version, versionBits), Width(version))
  {
    hide Centres, Width, Blank, DrawPatternTable, DrawFinder;
    var w, cs := Width(version), Centres(version);
    BlankIs(w);
    FindersKeys(Blank(w), w);
    KeysTable(DrawTiming(Finders(Blank(w), w), w), cs, |cs|);
  }

  lemma FindersKeys(g: Grid, w: int)
    ensures Finders(g, w).Keys == g.Keys
  {
    hide FinderDark;
  }

  /** Each step leaves exactly its own modules behind: what the sequence draws at `p`. */
  lemma DrawnAt(version: nat, versionBits: Bits, p: Pos)
    requires 1 <= version <= 40 && |versionBits| == 18 && Inside(Width(version), p)
    ensures p in Drawn(version, versionBits)
    ensures var w, cs, m := Width(version), Centres(version), Drawn(version, versionBits)[p];
            && (IsVersionInfo(version, w, p) ==> m == Function(versionBits[VersionBit(w, p)]))
            && (!IsVersionInfo(version, w, p) ==>
                  && (forall i: nat, j: nat :: KeptPair(|cs|, i, j) && InAlignment(cs[i], cs[j], p) ==>
                        m == Function(AlignmentDark(cs[i], cs[j], p)))
                  && (!IsAlignment(cs, p) ==>
                        m == if IsTiming(w, p) then Function(TimingDark(p))
                             else if IsFinder(w, p) then Function(FinderColour(w, p))
                             else Data(false)))
  {
    hide Centres, CentresOk, Blank, DrawPatternTable, DrawFinder, Finders, IsTiming, IsFinder, TimingDark,
         FinderColour, AlignmentDark, InAlignment, TableMeets, IsAlignment, IsVersionInfo, VersionBit;
    var w, cs := Width(version), Centres(version);
    CentresFine(version);
    BlankIs(w);
    FindersShow(Blank(w), w, p);
    TableShows(DrawTiming(Finders(Blank(w), w), w), cs, w, |cs|, p);
    TableMeetsAlignment(cs, p);
  }

  /** Finder, timing, version and format modules are pairwise disjoint. */
  lemma RegionsDisjoint(version: nat, p: Pos)
    requires 1 <= version <= 40
    ensures var w := Width(version);
            && !(IsFinder(w, p) && IsTiming(w, p)) && !(IsFinder(w, p) && IsFormat(w, p))
            && !(IsTiming(w, p) && IsFormat(w, p))
            && (IsVersionInfo(version, w, p) ==> !IsFinder(w, p) && !IsTiming(w, p) && !IsFormat(w, p))
  {
  }

  /** After the format information goes on, the grid at `p` is what the picture asks for. */
  lemma StampedAt(version: nat, versionBits: Bits, formatBits: Bits, p: Pos)
    requires 1 <= version <= 40 && |versionBits| == 18 && |formatBits| == 15 && Inside(Width(version), p)
    requires IsGrid(Drawn(version, versionBits), Width(version))
    ensures var w, cs := Width(version), Centres(version);
            var m := DrawFormat(Drawn(version, versionBits), w, formatBits)[p];
            && (IsFinder(w, p) ==> m == Function(FinderColour(w, p)))
            && (IsTiming(w, p) ==> m == Function(TimingDark(p)))
            && (forall i: nat, j: nat :: KeptPair(|cs|, i, j) && InAlignment(cs[i], cs[j], p) ==>
                  m == Function(AlignmentDark(cs[i], cs[j], p)))
            && (IsVersionInfo(version, w, p) ==> m == Function(versionBits[VersionBit(w, p)]))
            && (IsFormat(w, p) ==> m == FormatModule(w, formatBits, p))
            && (!IsFunctionModule(version, p) ==> m == Data(false))
  {
    hide Centres, CentresOk, Drawn, IsTiming, IsFinder, TimingDark, FinderColour, AlignmentDark, InAlignment,
         IsVersionInfo, VersionBit, IsFormat, FormatModule;
    var w, cs := Width(version), Centres(version);
    CentresFine(version);
    DrawnAt(version, versionBits, p);
    RegionsDisjoint(version, p);
    forall i: nat, j: nat | KeptPair(|cs|, i, j) && InAlignment(cs[i], cs[j], p)
      ensures !IsFinder(w, p) && !IsFormat(w, p) && !IsVersionInfo(version, w, p)
      ensures IsTiming(w, p) ==> AlignmentDark(cs[i], cs[j], p) == TimingDark(p)
    {
      PatternClear(version, cs, i, j, p);
    }
  }

  /** The drawing sequence produces the picture, whatever order its overlaps are drawn in. */
  lemma PictureDrawn(version: nat, versionBits: Bits, formatBits: Bits)
    requires 1 <= version <= 40 && |versionBits| == 18 && |formatBits| == 15
    ensures IsGrid(Drawn(version, versionBits), Width(version))
    ensures Picture(DrawFormat(Drawn(version, versionBits), Width(version), formatBits), version, versionBits, formatBits)
  {
    hide Centres, Drawn, DrawFormat, IsTiming, IsFinder, TimingDark, FinderColour, AlignmentDark, InAlignment,
         IsVersionInfo, VersionBit, IsFormat, FormatModule, IsFunctionModule;
    DrawnKeys(version, versionBits);
    var g := DrawFormat(Drawn(version, versionBits), Width(version), formatBits);
    forall p | p in g
      ensures Inside(Width(version), p)
    {
    }
    forall p | Inside(Width(version), p)
      ensures PictureAt(g, version, versionBits, formatBits, p)
    {
      StampedAt(version, versionBits, formatBits, p);
    }
  }

  /** In the picture, the function modules are exactly those of the version's patterns. */
  lemma PictureFunctions(g: Grid, version: nat, versionBits: Bits, formatBits: Bits)
    requires 1 <= version <= 40 && |versionBits| == 18 && |formatBits| == 15
    requires Picture(g, version, versionBits, formatBits)
    ensures FunctionSet(g) == FunctionPositions(version)
  {
    hide Centres, Width, IsTiming, IsFinder, TimingDark, FinderColour, AlignmentDark, InAlignment,
         IsVersionInfo, VersionBit, IsFormat, FunctionPositions;
    FunctionPositionsAre(version);
    forall p
      ensures p in FunctionSet(g) <==> p in FunctionPositions(version)
    {
    }
  }

  function VersionBits(version: nat): (bits: Bits)
    requires version <= 40
    ensures |bits| == 18
  {
    WordBits(VersionWord(version as word), 18)
  }

  /** The function patterns of a version, with the format placeholder of mask 0. */
  ghost function Patterns(version: nat, ec: EcLevel): Grid
    requires 1 <= version <= 40
  {
    DrawnKeys(version, VersionBits(version));
    DrawFormat(Drawn(version, VersionBits(version)), Width(version), FormatBits(ec, 0))
  }

  lemma PatternsFunctions(version: nat, ec: EcLevel)
    requires 1 <= version <= 40
    ensures IsGrid(Patterns(version, ec), Width(version))
    ensures FunctionSet(Patterns(version, ec)) == FunctionPositions(version)
  {
    hide Drawn, DrawFormat, VersionBits, FormatBits, Picture, FunctionPositions, FunctionSet;
    PictureDrawn(version, VersionBits(version), FormatBits(ec, 0));
    PictureFunctions(Patterns(version, ec), version, VersionBits(version), FormatBits(ec, 0));
  }
}
