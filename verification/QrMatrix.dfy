/** The symbol under construction: a flat vector of modules, indexed in 16-bit arithmetic, changed in place. */
module QrMatrix {
  import opened Words
  import opened BitLists
  import opened HuffmanCodes
  import opened QrTables
  import opened QrData
  import opened QrGrid
  import opened QrLayout
  import opened QrFormat
  import opened QrPatterns

  newtype i16 = x: int | -0x8000 <= x < 0x8000

  // ----- The flat vector and the grid

  function Slot(w: nat, p: Pos): int {
    p.1 * w + p.0
  }

  ghost predicate Shows(ms: seq<Module>, w: nat, g: Grid) {
    && |ms| == Product(w, w)
    && IsGrid(g, w)
    && forall p :: Inside(w, p) ==> 0 <= Slot(w, p) < |ms| && ms[Slot(w, p)] == g[p]
  }

  lemma SlotBounds(w: nat, p: Pos)
    requires Inside(w, p)
    ensures 0 <= p.1 * w <= Slot(w, p) < Product(w, w)
  {
    MulMonotone(p.1 + 1, w, w);
  }

  lemma SlotInjective(w: nat, p: Pos, q: Pos)
    requires Inside(w, p) && Inside(w, q) && Slot(w, p) == Slot(w, q)
    ensures p == q
  {
    DivUnique(Slot(w, p), w, p.1, p.0);
    DivUnique(Slot(w, q), w, q.1, q.0);
  }

  lemma SetShows(ms: seq<Module>, w: nat, g: Grid, p: Pos, m: Module)
    requires Shows(ms, w, g) && Inside(w, p)
    ensures 0 <= Slot(w, p) < |ms| && Shows(ms[Slot(w, p) := m], w, g[p := m])
  {
    hide Slot, Product;
    SlotBounds(w, p);
    forall q | Inside(w, q) && q != p
      ensures Slot(w, q) != Slot(w, p)
    {
      if Slot(w, q) == Slot(w, p) {
        SlotInjective(w, q, p);
      }
    }
  }

  lemma BlankShows(ms: seq<Module>, w: nat)
    requires |ms| == Product(w, w) && forall k :: 0 <= k < |ms| ==> ms[k] == Data(false)
    ensures Shows(ms, w, Blank(w))
  {
    hide Slot, Product, Blank;
    BlankIs(w);
    forall p | Inside(w, p)
      ensures 0 <= Slot(w, p) < |ms|
    {
      SlotBounds(w, p);
    }
  }

  /** Every index of a symbol of width 177 or less fits in 16 signed bits, products included. */
  lemma IndexFits(w: int, x: int, y: int)
    requires 0 <= x < w <= 177 && 0 <= y < w
    ensures 0 <= y * w <= 31152 && 0 <= y * w + x <= 31328 && w * w <= 31329
  {
    MulMonotone(y, 176, w);
    MulMonotone(w, 177, 177);
    MulMonotone(w, 177, w);
  }

  // ----- How far each loop has painted

  ghost predicate FinderPainted(g0: Grid, g: Grid, ox: int, oy: int, dy: int, dx: int) {
    && g.Keys == g0.Keys
    && forall p :: p in g ==>
         g[p] == if NearFinder(ox, oy, p) && (p.1 - oy < dy || (p.1 - oy == dy && p.0 - ox < dx))
                 then Function(FinderDark(p.0 - ox, p.1 - oy)) else g0[p]
  }

  ghost predicate TimingPainted(g0: Grid, g: Grid, w: int, i: int) {
    && g.Keys == g0.Keys
    && forall p :: p in g ==>
         g[p] == if IsTiming(w, p) && (if p.1 == 6 then p.0 else p.1) < i then Function(TimingDark(p)) else g0[p]
  }

  lemma TimingStart(g: Grid, w: int)
    ensures TimingPainted(g, g, w, 8)
  {
  }

  lemma TimingStep(g0: Grid, g: Grid, w: nat, i: nat)
    requires IsGrid(g, w) && 8 <= i < w - 8 && TimingPainted(g0, g, w, i)
    ensures TimingPainted(g0, g[(i, 6) := Function(i % 2 == 0)][(6, i) := Function(i % 2 == 0)], w, i + 1)
  {
  }

  lemma TimingDone(g0: Grid, g: Grid, w: nat)
    requires TimingPainted(g0, g, w, w - 8)
    ensures g == DrawTiming(g0, w)
  {
    hide TimingDark;
  }

  ghost predicate PatternPainted(g0: Grid, g: Grid, cx: int, cy: int, dy: int, dx: int) {
    && g.Keys == g0.Keys
    && forall p :: p in g ==>
         g[p] == if InAlignment(cx, cy, p) && (p.1 - cy < dy || (p.1 - cy == dy && p.0 - cx < dx))
                 then Function(AlignmentDark(cx, cy, p)) else g0[p]
  }

  ghost predicate VersionPainted(g0: Grid, g: Grid, version: nat, bits: Bits, i: int)
    requires |bits| == 18
  {
    var w := Width(version);
    && g.Keys == g0.Keys
    && forall p :: p in g ==>
         g[p] == if IsVersionInfo(version, w, p) && VersionBit(w, p) < i then Function(bits[VersionBit(w, p)]) else g0[p]
  }

  /** The turn at which a format module is written. */
  function FormatTurn(w: int, p: Pos): int
    requires w >= 21 && IsFormat(w, p)
  {
    if p == (8, w - 8) then 30
    else if p.0 == 8 && p.1 <= 8 then FormatBit(w, p)
    else if p.1 == 8 && p.0 <= 8 then FormatBit(w, p)
    else 15 + FormatBit(w, p)
  }

  ghost predicate FormatPainted(g0: Grid, g: Grid, w: int, bits: Bits, n: int)
    requires w >= 21 && |bits| == 15
  {
    && g.Keys == g0.Keys
    && forall p :: p in g ==>
         g[p] == if IsFormat(w, p) && FormatTurn(w, p) < n then FormatModule(w, bits, p) else g0[p]
  }

  /** The module written in each turn. */
  function FormatPos(w: int, n: nat): Pos {
    if n < 6 then (8, n)
    else if n == 6 then (8, 7)
    else if n == 7 then (8, 8)
    else if n == 8 then (7, 8)
    else if n < 15 then (14 - n, 8)
    else if n < 23 then (w - 1 - (n - 15), 8)
    else if n < 30 then (8, w - 30 + n)
    else (8, w - 8)
  }

  lemma FormatTurnAt(w: int, bits: Bits, n: nat)
    requires w >= 21 && n <= 30 && |bits| == 15
    ensures var p := FormatPos(w, n);
            && Inside(w, p) && IsFormat(w, p) && FormatTurn(w, p) == n
            && FormatModule(w, bits, p) == Function(n == 30 || bits[if n < 15 then n else n - 15])
  {
  }

  lemma FormatTurnOf(w: int, p: Pos)
    requires w >= 21 && IsFormat(w, p)
    ensures 0 <= FormatTurn(w, p) <= 30 && FormatPos(w, FormatTurn(w, p)) == p
  {
  }

  lemma FormatStep(g0: Grid, g: Grid, w: int, bits: Bits, n: nat)
    requires w >= 21 && n <= 30 && |bits| == 15 && FormatPainted(g0, g, w, bits, n) && IsGrid(g, w)
    ensures FormatPainted(g0, g[FormatPos(w, n) := Function(n == 30 || bits[if n < 15 then n else n - 15])], w, bits, n + 1)
  {
    hide FormatPos, FormatTurn, FormatModule, IsFormat;
    FormatTurnAt(w, bits, n);
    forall q | IsFormat(w, q) && FormatTurn(w, q) == n
      ensures q == FormatPos(w, n)
    {
      FormatTurnOf(w, q);
    }
  }

  lemma FormatStart(g: Grid, w: int, bits: Bits)
    requires w >= 21 && |bits| == 15
    ensures FormatPainted(g, g, w, bits, 0)
  {
    forall p | IsFormat(w, p)
      ensures FormatTurn(w, p) >= 0
    {
      FormatTurnOf(w, p);
    }
  }

  lemma FormatDone(g0: Grid, g: Grid, w: int, bits: Bits)
    requires w >= 21 && |bits| == 15 && IsGrid(g0, w) && FormatPainted(g0, g, w, bits, 31)
    ensures g == DrawFormat(g0, w, bits)
  {
    hide FormatTurn, FormatPos, FormatModule, IsFormat;
    forall p | IsFormat(w, p)
      ensures FormatTurn(w, p) < 31
    {
      FormatTurnOf(w, p);
    }
  }

  lemma VersionStep(g0: Grid, g: Grid, version: nat, bits: Bits, i: nat)
    requires 7 <= version && |bits| == 18 && i < 18 && IsGrid(g, Width(version)) && VersionPainted(g0, g, version, bits, i)
    ensures var w := Width(version);
            var a, b, m := w - 11 + i % 3, i / 3, Function(bits[i]);
            VersionPainted(g0, g[(a, b) := m][(b, a) := m], version, bits, i + 1)
  {
    var w := Width(version);
    var a, b := w - 11 + i % 3, i / 3;
    VersionBitAt(version, i);
    hide IsVersionInfo, VersionBit;
    forall q | IsVersionInfo(version, w, q) && VersionBit(w, q) == i
      ensures q == (a, b) || q == (b, a)
    {
      VersionBitOf(version, q);
    }
  }

  lemma VersionBitAt(version: nat, i: nat)
    requires 7 <= version && i < 18
    ensures var w := Width(version);
            var a, b := w - 11 + i % 3, i / 3;
            && IsVersionInfo(version, w, (a, b)) && VersionBit(w, (a, b)) == i
            && IsVersionInfo(version, w, (b, a)) && VersionBit(w, (b, a)) == i
  {
  }

  lemma VersionBitOf(version: nat, q: Pos)
    requires IsVersionInfo(version, Width(version), q)
    ensures var w := Width(version);
            var i := VersionBit(w, q);
            && 0 <= i < 18 && (q == (w - 11 + i % 3, i / 3) || q == (i / 3, w - 11 + i % 3))
  {
    var w := Width(version);
    var i := VersionBit(w, q);
    if q.1 < 6 {
      DivUnique(i, 3, q.1, q.0 - (w - 11));
    } else {
      DivUnique(i, 3, q.0, q.1 - (w - 11));
    }
  }

  lemma VersionStart(g: Grid, version: nat, bits: Bits)
    requires |bits| == 18
    ensures VersionPainted(g, g, version, bits, 0)
  {
  }

  lemma VersionDone(g0: Grid, g: Grid, version: nat, bits: Bits)
    requires |bits| == 18 && VersionPainted(g0, g, version, bits, 18)
    ensures g == DrawVersion(g0, version, bits)
  {
    hide VersionBit, IsVersionInfo;
    forall q | IsVersionInfo(version, Width(version), q)
      ensures VersionBit(Width(version), q) < 18
    {
      VersionBitOf(version, q);
    }
  }

  /** The rows above `y`, and the modules left of `x` in row `y`, are masked. */
  ghost predicate Masked(g0: Grid, g: Grid, w: nat, pattern: nat, y: int, x: int)
    requires pattern < 8 && IsGrid(g0, w)
  {
    && IsGrid(g, w)
    && forall p: Pos :: Inside(w, p) ==>
         g[p] == if p.1 < y || (p.1 == y && p.0 < x) then MaskModule(g0[p], pattern, p) else g0[p]
  }

  lemma MaskStart(g: Grid, w: nat, pattern: nat)
    requires pattern < 8 && IsGrid(g, w)
    ensures Masked(g, g, w, pattern, 0, 0)
  {
    hide MaskModule;
  }

  lemma MaskStep(g0: Grid, g: Grid, w: nat, pattern: nat, x: nat, y: nat)
    requires pattern < 8 && IsGrid(g0, w) && x < w && y < w && Masked(g0, g, w, pattern, y, x)
    ensures (x, y) in g
    ensures g[(x, y)].Data? && MaskApplies(pattern, x, y) ==>
              Masked(g0, g[(x, y) := Data(!g[(x, y)].dark)], w, pattern, y, x + 1)
    ensures !(g[(x, y)].Data? && MaskApplies(pattern, x, y)) ==> Masked(g0, g, w, pattern, y, x + 1)
  {
    hide MaskModule, MaskApplies;
    MaskUnfold(g0[(x, y)], pattern, (x, y));
  }

  lemma MaskUnfold(m: Module, pattern: nat, p: Pos)
    requires pattern < 8 && p.0 >= 0 && p.1 >= 0
    ensures MaskModule(m, pattern, p) == if m.Data? && MaskApplies(pattern, p.0, p.1) then Data(!m.dark) else m
  {
    hide MaskApplies;
  }

  lemma MaskRow(g0: Grid, g: Grid, w: nat, pattern: nat, y: int)
    requires pattern < 8 && IsGrid(g0, w) && Masked(g0, g, w, pattern, y, w)
    ensures Masked(g0, g, w, pattern, y + 1, 0)
  {
    hide MaskModule;
  }

  lemma MaskDone(g0: Grid, g: Grid, w: nat, pattern: nat)
    requires pattern < 8 && IsGrid(g0, w) && Masked(g0, g, w, pattern, w, 0)
    ensures g == MaskGrid(g0, w, pattern)
  {
    hide MaskModule;
  }

  // ----- The walk, step by step

  ghost predicate OnGrid(g: Grid, ps: seq<Pos>) {
    forall i :: 0 <= i < |ps| ==> ps[i] in g
  }

  /** Placing what is left of the bits on what is left of the walk completes the target. */
  ghost predicate PlacesTo(g: Grid, ps: seq<Pos>, bits: Bits, target: Grid) {
    OnGrid(g, ps) && Place(g, ps, bits) == target
  }

  lemma WalkInside(g: Grid, w: nat)
    requires IsGrid(g, w) && w % 2 == 1 && w >= 7
    ensures OnGrid(g, Zigzag(w))
  {
    hide Zigzag;
    ZigzagComplete(w);
    forall i | 0 <= i < |Zigzag(w)|
      ensures Zigzag(w)[i] in g
    {
      assert Zigzag(w)[i] in Zigzag(w);
    }
  }

  lemma WalkStart(g: Grid, w: nat, bits: Bits)
    requires OnGrid(g, Zigzag(w))
    ensures PlacesTo(g, ZigzagFrom(w, w - 1), bits[0..], Place(g, Zigzag(w), bits))
  {
    assert bits[0..] == bits;
  }

  /** What is left of the walk, `k` modules into the pair at `right`. */
  function WalkFrom(w: nat, right: int, k: nat): seq<Pos>
    requires k <= 2 * w
  {
    PairPositions(w, right)[k..] + ZigzagFrom(w, right - 2)
  }

  lemma ColumnStart(g: Grid, w: nat, right: int, rest: Bits, target: Grid)
    requires 1 <= right && PlacesTo(g, ZigzagFrom(w, right), rest, target)
    ensures PlacesTo(g, WalkFrom(w, if right == 6 then 5 else right, 0), rest, target)
  {
    var r := if right == 6 then 5 else right;
    assert PairPositions(w, r)[0..] == PairPositions(w, r);
  }

  lemma ColumnEnd(g: Grid, w: nat, right: int, rest: Bits, target: Grid)
    requires PlacesTo(g, WalkFrom(w, right, 2 * w), rest, target)
    ensures PlacesTo(g, ZigzagFrom(w, right - 2), rest, target)
  {
    assert WalkFrom(w, right, 2 * w) == ZigzagFrom(w, right - 2);
  }

  lemma WalkEnd(g: Grid, w: nat, right: int, rest: Bits, target: Grid)
    requires right < 1 && PlacesTo(g, ZigzagFrom(w, right), rest, target)
    ensures g == target
  {
  }

  lemma AndTwo(x: nat)
    ensures And(x, 2) == 0 <==> x / 2 % 2 == 0
  {
    AndOdd(x / 2, 1);
    AndZero(x / 2 / 2);
    assert And(x, 2) == 2 * And(x / 2, 1);
    assert And(x / 2, 1) == (if x / 2 % 2 == 1 then 1 else 0) + 2 * And(x / 2 / 2, 0);
  }

  lemma {:induction false} PlaceMeets(g: Grid, ps: seq<Pos>, rest: Bits, target: Grid)
    requires ps != [] && PlacesTo(g, ps, rest, target)
    ensures ps[0] in g
    ensures g[ps[0]].Function? || rest == [] ==> PlacesTo(g, ps[1..], rest, target)
    ensures !(g[ps[0]].Function? || rest == []) ==> PlacesTo(g[ps[0] := Data(rest[0])], ps[1..], rest[1..], target)
  {
  }

  /** One visit of the walk: `j` of the pair at row step `vert`, with `bit` bits placed before. */
  lemma WalkStep(g: Grid, w: nat, right: nat, vert: nat, j: nat, bits: Bits, bit: nat, target: Grid)
    requires vert < w && j < 2 && bit <= |bits|
    requires PlacesTo(g, WalkFrom(w, right, 2 * vert + j), bits[bit..], target)
    ensures var p := (right - j, if And(right + 1, 2) == 0 then w - 1 - vert else vert);
            var next := WalkFrom(w, right, 2 * vert + j + 1);
            && p in g
            && (g[p].Function? || bit >= |bits| ==> PlacesTo(g, next, bits[bit..], target))
            && (!(g[p].Function? || bit >= |bits|) ==> PlacesTo(g[p := Data(bits[bit])], next, bits[bit + 1..], target))
  {
    hide PlacesTo, And;
    var r := 2 * vert + j;
    var ps := WalkFrom(w, right, r);
    AndTwo(right + 1);
    assert r / 2 == vert && r % 2 == j;
    assert ps[0] == PairAt(w, right, r);
    assert ps[1..] == WalkFrom(w, right, r + 1);
    if bit < |bits| {
      assert bits[bit..][1..] == bits[bit + 1..];
    }
    PlaceMeets(g, ps, bits[bit..], target);
  }

  lemma {:induction false} MsbBitAt(c: nat, n: nat, i: nat)
    requires i < n
    ensures MsbBits(c, n)[i] == (Shr(c, n - 1 - i) % 2 == 1)
    decreases n
  {
    hide Shr;
    if i > 0 {
      MsbBitAt(c, n - 1, i - 1);
    }
  }

  /** Bit `i` of the codeword stream, found in its byte. */
  lemma {:induction false} MsbStreamAt(data: seq<byte>, i: nat)
    requires i < 8 * |data|
    ensures MsbStream(data)[i] == (Shr(data[i / 8], 7 - i % 8) % 2 == 1)
    decreases |data|
  {
    hide MsbBits, Shr;
    if i < 8 {
      MsbBitAt(data[0], 8, i);
    } else {
      MsbStreamAt(data[1..], i - 8);
      assert (i - 8) / 8 == i / 8 - 1 && (i - 8) % 8 == i % 8;
    }
  }

  class Matrix {
    const width: i16
    const modules: array<Module>
    ghost var grid: Grid

    ghost predicate Valid()
      reads this, modules
    {
      21 <= width <= 177 && IsGrid(grid, width as int) && Shows(modules[..], width as int, grid)
    }

    constructor (version: nat)
      requires 1 <= version <= 40
      ensures Valid() && fresh(modules) && width as int == Width(version) && grid == Blank(Width(version))
    {
      var w := (17 + 4 * version) as i16;
      IndexFits(w as int, 0, 0);
      width := w;
      modules := new Module[(w * w) as int](_ => Data(false));
      grid := Blank(Width(version));
      new;
      BlankShows(modules[..], width as int);
    }

    function Get(x: i16, y: i16): (m: Module)
      requires Valid() && 0 <= x < width && 0 <= y < width
      reads this, modules
      ensures (x as int, y as int) in grid && m == grid[(x as int, y as int)]
    {
      IndexFits(width as int, x as int, y as int);
      SlotBounds(width as int, (x as int, y as int));
      modules[(y * width + x) as int]
    }

    method Set(x: i16, y: i16, m: Module)
      requires Valid() && 0 <= x < width && 0 <= y < width
      modifies modules, `grid
      ensures Valid() && grid == old(grid)[(x as int, y as int) := m]
    {
      IndexFits(width as int, x as int, y as int);
      SetShows(modules[..], width as int, grid, (x as int, y as int), m);
      modules[(y * width + x) as int] := m;
      grid := grid[(x as int, y as int) := m];
    }

    // ----- Function patterns

    method DrawFinderAt(ox: i16, oy: i16)
      requires Valid() && 0 <= ox <= width - 7 && 0 <= oy <= width - 7
      modifies modules, `grid
      ensures Valid() && grid == DrawFinder(old(grid), ox as int, oy as int)
    {
      hide Shows, FinderDark;
      ghost var g0 := grid;
      var dy: i16 := -1;
      while dy <= 7
        invariant -1 <= dy <= 8 && Valid() && FinderPainted(g0, grid, ox as int, oy as int, dy as int, -1)
      {
        var dx: i16 := -1;
        while dx <= 7
          invariant -1 <= dx <= 8 && Valid() && FinderPainted(g0, grid, ox as int, oy as int, dy as int, dx as int)
        {
          var x, y := ox + dx, oy + dy;
          if !(x < 0 || y < 0 || x >= width || y >= width) {
            Set(x, y, Function(FinderDark(dx as int, dy as int)));
          }
          dx := dx + 1;
        }
        dy := dy + 1;
      }
    }

    method DrawTimingLines()
      requires Valid()
      modifies modules, `grid
      ensures Valid() && grid == DrawTiming(old(grid), width as int)
    {
      hide Shows, TimingPainted, DrawTiming;
      ghost var g0 := grid;
      TimingStart(grid, width as int);
      var i: i16 := 8;
      while i < width - 8
        invariant 8 <= i <= width - 8 && Valid() && TimingPainted(g0, grid, width as int, i as int)
      {
        TimingStep(g0, grid, width as int, i as int);
        var dark := i % 2 == 0;
        Set(i, 6, Function(dark));
        Set(6, i, Function(dark));
        i := i + 1;
      }
      TimingDone(g0, grid, width as int);
    }

    method DrawPatternAt(cx: i16, cy: i16)
      requires Valid() && 2 <= cx < width - 2 && 2 <= cy < width - 2
      modifies modules, `grid
      ensures Valid() && grid == DrawPattern(old(grid), cx as int, cy as int)
    {
      hide Shows, AlignmentDark;
      ghost var g0 := grid;
      var dy: i16 := -2;
      while dy <= 2
        invariant -2 <= dy <= 3 && Valid() && PatternPainted(g0, grid, cx as int, cy as int, dy as int, -2)
      {
        var dx: i16 := -2;
        while dx <= 2
          invariant -2 <= dx <= 3 && Valid() && PatternPainted(g0, grid, cx as int, cy as int, dy as int, dx as int)
        {
          var ring := Max(Abs(dx as int), Abs(dy as int));
          RingIs(cx as int, cy as int, dx as int, dy as int);
          Set(cx + dx, cy + dy, Function(ring != 1));
          dx := dx + 1;
        }
        dy := dy + 1;
      }
    }

    /** Every pair of centres except the three on a finder pattern. */
    method DrawAlignment(cs: seq<nat>)
      requires Valid() && CentresOk(cs, width as int)
      modifies modules, `grid
      ensures Valid() && grid == DrawPatternTable(old(grid), cs, |cs|)
    {
      hide Shows, CentresOk, DrawPattern;
      ghost var g0 := grid;
      var i := 0;
      while i < |cs|
        invariant i <= |cs| && Valid() && grid == DrawPatternTable(g0, cs, i)
      {
        ghost var g1 := grid;
        var j := 0;
        while j < |cs|
          invariant j <= |cs| && Valid() && grid == DrawPatternRow(g1, cs, i, j)
        {
          var last := |cs| - 1;
          if !((i == 0 && (j == 0 || j == last)) || (i == last && j == 0)) {
            CentreInside(cs, width as int, i);
            CentreInside(cs, width as int, j);
            DrawPatternAt(cs[i] as i16, cs[j] as i16);
          }
          j := j + 1;
        }
        i := i + 1;
      }
    }

    method DrawVersionInfo(version: nat, bits: Bits)
      requires Valid() && 7 <= version <= 40 && width as int == Width(version) && |bits| == 18
      modifies modules, `grid
      ensures Valid() && grid == DrawVersion(old(grid), version, bits)
    {
      hide Shows, VersionPainted, DrawVersion;
      ghost var g0 := grid;
      VersionStart(grid, version, bits);
      var i: i16 := 0;
      while i < 18
        invariant 0 <= i <= 18 && Valid() && VersionPainted(g0, grid, version, bits, i as int)
      {
        VersionStep(g0, grid, version, bits, i as int);
        var dark := bits[i];
        var a := width - 11 + i % 3;
        var b := i / 3;
        Set(a, b, Function(dark));
        Set(b, a, Function(dark));
        i := i + 1;
      }
      VersionDone(g0, grid, version, bits);
    }

    // ----- Codewords

    /** The codeword bits along the zigzag, skipping function modules, until they run out. */
    method DrawCodewords(codewords: seq<byte>)
      requires Valid() && width % 2 == 1
      modifies modules, `grid
      ensures OnGrid(old(grid), Zigzag(width as int))
      ensures Valid() && grid == Place(old(grid), Zigzag(width as int), MsbStream(codewords))
    {
      hide Shows, IsGrid, PlacesTo, Place, Zigzag, ZigzagFrom, WalkFrom, MsbStream, Shr, And;
      ghost var w: nat := width as int;
      ghost var bits := MsbStream(codewords);
      WalkInside(grid, w);
      ghost var target := Place(grid, Zigzag(w), bits);
      WalkStart(grid, w, bits);
      var bit := 0;
      var total := |codewords| * 8;
      var right := width - 1;
      while right >= 1
        invariant -1 <= right < width && PairStart(right as int) && bit <= total
        invariant Valid() && PlacesTo(grid, ZigzagFrom(w, right as int), bits[bit..], target)
      {
        ColumnStart(grid, w, right as int, bits[bit..], target);
        if right == 6 {
          right := 5;
        }
        var vert: i16 := 0;
        while vert < width
          invariant 0 <= vert <= width && bit <= total
          invariant Valid() && PlacesTo(grid, WalkFrom(w, right as int, 2 * vert as int), bits[bit..], target)
        {
          var j: i16 := 0;
          while j < 2
            invariant 0 <= j <= 2 && bit <= total
            invariant Valid() && PlacesTo(grid, WalkFrom(w, right as int, 2 * vert as int + j as int), bits[bit..], target)
          {
            var x := right - j;
            var upward := And((right + 1) as int, 2) == 0;
            var y := if upward then width - 1 - vert else vert;
            WalkStep(grid, w, right as int, vert as int, j as int, bits, bit, target);
            if !(Get(x, y).Function? || bit >= total) {
              MsbStreamAt(codewords, bit);
              var dark := Shr(codewords[bit / 8], 7 - bit % 8) % 2 == 1;
              Set(x, y, Data(dark));
              bit := bit + 1;
            }
            j := j + 1;
          }
          vert := vert + 1;
        }
        ColumnEnd(grid, w, right as int, bits[bit..], target);
        right := right - 2;
      }
      WalkEnd(grid, w, right as int, bits[bit..], target);
    }

    // ----- Masking

    /** Inverts the data modules the mask selects. */
    method ApplyMask(pattern: nat)
      requires Valid() && pattern < 8
      modifies modules, `grid
      ensures Valid() && grid == MaskGrid(old(grid), width as int, pattern)
    {
      hide Shows, IsGrid, MaskApplies, MaskModule, Masked, MaskGrid;
      ghost var g0 := grid;
      MaskStart(g0, width as int, pattern);
      var y: i16 := 0;
      while y < width
        invariant 0 <= y <= width && Valid() && Masked(g0, grid, width as int, pattern, y as int, 0)
      {
        var x: i16 := 0;
        while x < width
          invariant 0 <= x <= width && Valid() && Masked(g0, grid, width as int, pattern, y as int, x as int)
        {
          MaskStep(g0, grid, width as int, pattern, x as int, y as int);
          var m := Get(x, y);
          if m.Data? {
            if MaskApplies(pattern, x as int, y as int) {
              Set(x, y, Data(!m.dark));
            }
          }
          x := x + 1;
        }
        MaskRow(g0, grid, width as int, pattern, y as int);
        y := y + 1;
      }
      MaskDone(g0, grid, width as int, pattern);
    }

    // ----- Format information

    method DrawFormatInfo(ec: EcLevel, mask: nat)
      requires Valid() && mask < 8
      modifies modules, `grid
      ensures Valid() && grid == DrawFormat(old(grid), width as int, FormatBits(ec, mask))
    {
      hide Shows, FormatWord, BitOf, FormatPainted, DrawFormat, Multiple, Stamped, Lowered, FormatData;
      var word := FormatInfoBits(ec, mask);
      var bits := WordBits(word, 15);
      ghost var g0 := grid;
      ghost var w := width as int;
      FormatStart(grid, w, bits);
      var i: i16 := 0;
      while i < 6
        invariant 0 <= i <= 6 && Valid() && FormatPainted(g0, grid, w, bits, i as int)
      {
        FormatStep(g0, grid, w, bits, i as int);
        Set(8, i, Function(bits[i]));
        i := i + 1;
      }
      FormatStep(g0, grid, w, bits, 6);
      Set(8, 7, Function(bits[6]));
      FormatStep(g0, grid, w, bits, 7);
      Set(8, 8, Function(bits[7]));
      FormatStep(g0, grid, w, bits, 8);
      Set(7, 8, Function(bits[8]));
      i := 9;
      while i < 15
        invariant 9 <= i <= 15 && Valid() && FormatPainted(g0, grid, w, bits, i as int)
      {
        FormatStep(g0, grid, w, bits, i as int);
        Set(14 - i, 8, Function(bits[i]));
        i := i + 1;
      }
      i := 0;
      while i < 8
        invariant 0 <= i <= 8 && Valid() && FormatPainted(g0, grid, w, bits, 15 + i as int)
      {
        FormatStep(g0, grid, w, bits, 15 + i as int);
        Set(width - 1 - i, 8, Function(bits[i]));
        i := i + 1;
      }
      while i < 15
        invariant 8 <= i <= 15 && Valid() && FormatPainted(g0, grid, w, bits, 15 + i as int)
      {
        FormatStep(g0, grid, w, bits, 15 + i as int);
        Set(8, width - 15 + i, Function(bits[i]));
        i := i + 1;
      }
      FormatStep(g0, grid, w, bits, 30);
      Set(8, width - 8, Function(true));
      FormatDone(g0, grid, w, bits);
    }

    /** All function patterns, with a format placeholder for mask 0. */
    method DrawFunctionPatterns(version: nat, ec: EcLevel)
      requires Valid() && 1 <= version <= 40 && width as int == Width(version) && grid == Blank(Width(version))
      modifies modules, `grid
      ensures Valid() && grid == Patterns(version, ec)
      ensures Picture(grid, version, VersionBits(version), FormatBits(ec, 0))
    {
      hide Shows, Blank, Width, Centres, CentresOk, DrawFinder, DrawTiming, DrawPatternTable, DrawFormat, Picture, VersionWord, BitOf,
           FormatBits, Multiple, Lowered;
      ghost var w := width as int;
      DrawFinderAt(0, 0);
      DrawFinderAt(width - 7, 0);
      DrawFinderAt(0, width - 7);
      DrawTimingLines();
      CentresFine(version);
      var cs := Centres(version);
      if version >= 2 {
        DrawAlignment(cs);
      }
      var word := VersionInfoBits(version as word);
      var bits := WordBits(word, 18);
      if version >= 7 {
        DrawVersionInfo(version, bits);
      } else {
        NoVersionInfo(grid, version, bits);
      }
      NoAlignment(DrawTiming(Finders(Blank(w), w), w), version);
      assert grid == Drawn(version, bits);
      DrawFormatInfo(ec, 0);
      PictureDrawn(version, bits, FormatBits(ec, 0));
    }
  }

  lemma RingIs(cx: int, cy: int, dx: int, dy: int)
    ensures AlignmentDark(cx, cy, (cx + dx, cy + dy)) <==> Max(Abs(dx), Abs(dy)) != 1
  {
  }

  lemma CentreInside(cs: seq<nat>, w: int, i: nat)
    requires CentresOk(cs, w) && i < |cs|
    ensures 6 <= cs[i] <= w - 7
  {
    if i > 0 { Apart(cs, w, 0, i); }
    if i < |cs| - 1 { Apart(cs, w, i, |cs| - 1); }
  }

  lemma NoVersionInfo(g: Grid, version: nat, bits: Bits)
    requires version < 7 && |bits| == 18
    ensures DrawVersion(g, version, bits) == g
  {
  }

  lemma NoAlignment(g: Grid, version: nat)
    requires 1 <= version <= 40
    ensures version == 1 ==> DrawPatternTable(g, Centres(version), |Centres(version)|) == g
  {
  }
}
