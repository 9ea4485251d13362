/** The symbol as a grid of modules: masking, the zigzag order, and placing and reading codeword bits. */
module QrGrid {
  import opened BitLists

  /** Column and row. */
  type Pos = (int, int)

  /** A function-pattern module is never masked; a data module carries a codeword bit. */
  datatype Module = Function(dark: bool) | Data(dark: bool)

  type Grid = map<Pos, Module>

  predicate Inside(w: nat, p: Pos) {
    0 <= p.0 < w && 0 <= p.1 < w
  }

  ghost predicate IsGrid(g: Grid, w: nat) {
    forall p: Pos :: p in g <==> Inside(w, p)
  }

  // ----- Masking

  /** Whether mask `pattern` inverts the module in column `x`, row `y`. */
  function MaskApplies(pattern: nat, x: nat, y: nat): bool
    requires pattern < 8
  {
    match pattern
    case 0 => (x + y) % 2 == 0
    case 1 => y % 2 == 0
    case 2 => x % 3 == 0
    case 3 => (x + y) % 3 == 0
    case 4 => (x / 3 + y / 2) % 2 == 0
    case 5 => (x * y) % 2 + (x * y) % 3 == 0
    case 6 => ((x * y) % 2 + (x * y) % 3) % 2 == 0
    case _ => ((x + y) % 2 + (x * y) % 3) % 2 == 0
  }

  function MaskModule(m: Module, pattern: nat, p: Pos): Module
    requires pattern < 8 && p.0 >= 0 && p.1 >= 0
  {
    if m.Data? && MaskApplies(pattern, p.0, p.1) then Data(!m.dark) else m
  }

  ghost function MaskGrid(g: Grid, w: nat, pattern: nat): (r: Grid)
    requires pattern < 8 && IsGrid(g, w)
    ensures IsGrid(r, w)
  {
    map p | p in g :: MaskModule(g[p], pattern, p)
  }

  /** Applying a mask twice restores the grid. */
  lemma MaskInvolution(g: Grid, w: nat, pattern: nat)
    requires pattern < 8 && IsGrid(g, w)
    ensures MaskGrid(MaskGrid(g, w, pattern), w, pattern) == g
  {
    hide MaskApplies;
  }

  // ----- The zigzag

  /** Two columns, `right` and the one left of it, walked row by row. */
  function PairAt(w: nat, right: int, r: nat): Pos {
    var vert := r / 2;
    (right - r % 2, if (right + 1) / 2 % 2 == 0 then w - 1 - vert else vert)
  }

  function PairPositions(w: nat, right: int): (ps: seq<Pos>)
    ensures |ps| == 2 * w
  {
    seq(2 * w, r requires 0 <= r < 2 * w => PairAt(w, right, r))
  }

  /** The column pairs from `right` leftwards, skipping column 6. */
  function ZigzagFrom(w: nat, right: int): seq<Pos>
    decreases right + 1
  {
    if right < 1 then []
    else
      var r := if right == 6 then 5 else right;
      PairPositions(w, r) + ZigzagFrom(w, r - 2)
  }

  function Zigzag(w: nat): seq<Pos> {
    ZigzagFrom(w, w - 1)
  }

  ghost predicate Distinct<T>(s: seq<T>) {
    forall i, j :: 0 <= i < j < |s| ==> s[i] != s[j]
  }

  /** Column pairs start on even columns right of the timing column and on odd ones left of it. */
  predicate PairStart(right: int) {
    right >= -1 && (if right >= 6 then right % 2 == 0 else right % 2 == 1)
  }

  lemma PairDistinct(w: nat, right: int)
    ensures Distinct(PairPositions(w, right))
  {
    forall i, j | 0 <= i < j < 2 * w
      ensures PairAt(w, right, i) != PairAt(w, right, j)
    {
      if i / 2 == j / 2 {
        assert i % 2 != j % 2;
      }
    }
  }

  lemma PairCovers(w: nat, right: int, p: Pos)
    ensures p in PairPositions(w, right) <==> (p.0 == right || p.0 == right - 1) && 0 <= p.1 < w
  {
    var ps := PairPositions(w, right);
    if p in ps {
      var r :| 0 <= r < 2 * w && ps[r] == p;
      assert p == PairAt(w, right, r);
    }
    if (p.0 == right || p.0 == right - 1) && 0 <= p.1 < w {
      var vert := if (right + 1) / 2 % 2 == 0 then w - 1 - p.1 else p.1;
      var r := 2 * vert + (right - p.0);
      assert r / 2 == vert && r % 2 == right - p.0;
      assert ps[r] == p;
    }
  }

  /** The walk from `right` visits every module of the columns up to it except column 6, each once. */
  lemma {:induction false} ZigzagVisits(w: nat, right: int)
    requires PairStart(right)
    ensures Distinct(ZigzagFrom(w, right))
    ensures forall p: Pos :: p in ZigzagFrom(w, right) <==> 0 <= p.0 <= right && p.0 != 6 && 0 <= p.1 < w
    decreases right + 1
  {
    hide PairPositions;
    if right >= 1 {
      var r := if right == 6 then 5 else right;
      var head, tail := PairPositions(w, r), ZigzagFrom(w, r - 2);
      ZigzagVisits(w, r - 2);
      PairDistinct(w, r);
      forall p: Pos
        ensures p in head <==> (p.0 == r || p.0 == r - 1) && 0 <= p.1 < w
      {
        PairCovers(w, r, p);
      }
      DistinctAppend(head, tail);
    }
  }

  lemma DistinctAppend<T>(a: seq<T>, b: seq<T>)
    requires Distinct(a) && Distinct(b) && forall x :: x in a ==> x !in b
    ensures Distinct(a + b)
  {
    forall i, j | 0 <= i < j < |a + b|
      ensures (a + b)[i] != (a + b)[j]
    {
      if i < |a| <= j {
        assert a[i] in a && b[j - |a|] in b;
      }
    }
  }

  /** For every odd width from 7 on, the zigzag is a walk over all modules outside column 6. */
  lemma ZigzagComplete(w: nat)
    requires w % 2 == 1 && w >= 7
    ensures Distinct(Zigzag(w))
    ensures forall p: Pos :: p in Zigzag(w) <==> Inside(w, p) && p.0 != 6
  {
    ZigzagVisits(w, w - 1);
  }

  // ----- Placing and reading bits

  /** Writes the bits into the data modules met along `ps`, until either runs out. */
  function Place(g: Grid, ps: seq<Pos>, bits: Bits): Grid
    requires forall i :: 0 <= i < |ps| ==> ps[i] in g
  {
    if ps == [] || bits == [] then g
    else if g[ps[0]].Function? then Place(g, ps[1..], bits)
    else Place(g[ps[0] := Data(bits[0])], ps[1..], bits[1..])
  }

  /** The colours of the non-function modules along `ps`. */
  function ReadBits(dark: map<Pos, bool>, fn: set<Pos>, ps: seq<Pos>): Bits
    requires forall i :: 0 <= i < |ps| ==> ps[i] in dark
  {
    if ps == [] then []
    else (if ps[0] in fn then [] else [dark[ps[0]]]) + ReadBits(dark, fn, ps[1..])
  }

  function FreeCount(fn: set<Pos>, ps: seq<Pos>): nat {
    if ps == [] then 0 else (if ps[0] in fn then 0 else 1) + FreeCount(fn, ps[1..])
  }

  ghost function FunctionSet(g: Grid): set<Pos> {
    set p | p in g && g[p].Function?
  }

  ghost function Colours(g: Grid): map<Pos, bool> {
    map p | p in g :: g[p].dark
  }

  /** Placement keeps the grid's shape, never touches a function module, and stays on the walk. */
  lemma {:induction false} PlaceKeeps(g: Grid, ps: seq<Pos>, bits: Bits)
    requires forall i :: 0 <= i < |ps| ==> ps[i] in g
    ensures Place(g, ps, bits).Keys == g.Keys
    ensures forall p :: p in g && (p !in ps || g[p].Function?) ==> Place(g, ps, bits)[p] == g[p]
    ensures forall p :: p in g ==> (Place(g, ps, bits)[p].Function? <==> g[p].Function?)
    decreases |ps|
  {
    if ps != [] && bits != [] {
      if g[ps[0]].Function? {
        PlaceKeeps(g, ps[1..], bits);
      } else {
        PlaceKeeps(g[ps[0] := Data(bits[0])], ps[1..], bits[1..]);
      }
    }
  }

  /** Reading along the same walk returns the placed bits first. */
  lemma {:induction false} ReadOfPlace(g: Grid, ps: seq<Pos>, bits: Bits)
    requires forall i :: 0 <= i < |ps| ==> ps[i] in g
    requires Distinct(ps) && |bits| <= FreeCount(FunctionSet(g), ps)
    ensures Place(g, ps, bits).Keys == g.Keys
    ensures |ReadBits(Colours(Place(g, ps, bits)), FunctionSet(g), ps)| == FreeCount(FunctionSet(g), ps)
    ensures ReadBits(Colours(Place(g, ps, bits)), FunctionSet(g), ps)[..|bits|] == bits
    decreases |ps|
  {
    PlaceKeeps(g, ps, bits);
    var r := Place(g, ps, bits);
    if bits == [] {
      ReadLength(Colours(r), FunctionSet(g), ps);
    } else if ps != [] {
      var rest := ps[1..];
      if g[ps[0]].Function? {
        ReadOfPlace(g, rest, bits);
        assert [] + ReadBits(Colours(r), FunctionSet(g), rest) == ReadBits(Colours(r), FunctionSet(g), rest);
      } else {
        var g' := g[ps[0] := Data(bits[0])];
        assert FunctionSet(g') == FunctionSet(g);
        ReadOfPlace(g', rest, bits[1..]);
        PlaceKeeps(g', rest, bits[1..]);
        assert ps[0] !in rest;
        assert r[ps[0]] == Data(bits[0]);
        assert bits == [bits[0]] + bits[1..];
      }
    }
  }

  lemma {:induction false} ReadLength(dark: map<Pos, bool>, fn: set<Pos>, ps: seq<Pos>)
    requires forall i :: 0 <= i < |ps| ==> ps[i] in dark
    ensures |ReadBits(dark, fn, ps)| == FreeCount(fn, ps)
    decreases |ps|
  {
    if ps != [] {
      ReadLength(dark, fn, ps[1..]);
    }
  }

  /** A walk without repetition meets as many free modules as there are. */
  lemma {:induction false} FreeCountIs(fn: set<Pos>, ps: seq<Pos>, free: set<Pos>)
    requires Distinct(ps) && forall p :: p in free <==> p in ps && p !in fn
    ensures FreeCount(fn, ps) == |free|
    decreases |ps|
  {
    if ps == [] {
      assert free == {};
    } else {
      var p := ps[0];
      assert p !in ps[1..];
      FreeCountIs(fn, ps[1..], free - {p});
    }
  }

  // ----- Format information

  /** The modules of both copies of the format information, and the dark module. */
  predicate IsFormat(w: int, p: Pos) {
    || (p.0 == 8 && ((0 <= p.1 <= 8 && p.1 != 6) || w - 8 <= p.1 < w))
    || (p.1 == 8 && ((0 <= p.0 <= 8 && p.0 != 6) || w - 8 <= p.0 < w))
  }

  /** Which of the fifteen bits a format module shows; the dark module below the second copy shows none. */
  function FormatBit(w: int, p: Pos): nat
    requires w >= 21 && IsFormat(w, p) && p != (8, w - 8)
  {
    if p.0 == 8 && p.1 < 6 then p.1
    else if p == (8, 7) then 6
    else if p == (8, 8) then 7
    else if p == (7, 8) then 8
    else if p.1 == 8 && p.0 < 6 then 14 - p.0
    else if p.1 == 8 then w - 1 - p.0
    else p.1 - (w - 15)
  }

  function FormatModule(w: int, bits: seq<bool>, p: Pos): Module
    requires w >= 21 && IsFormat(w, p) && |bits| == 15
  {
    if p == (8, w - 8) then Function(true) else Function(bits[FormatBit(w, p)])
  }

  ghost function DrawFormat(g: Grid, w: nat, bits: seq<bool>): (r: Grid)
    requires w >= 21 && IsGrid(g, w) && |bits| == 15
    ensures IsGrid(r, w)
  {
    map p | p in g :: if IsFormat(w, p) then FormatModule(w, bits, p) else g[p]
  }

  /** The two grids differ at most in their format modules, which are function modules in both. */
  ghost predicate SameButFormat(a: Grid, b: Grid, w: nat) {
    && IsGrid(a, w) && IsGrid(b, w)
    && forall p: Pos :: Inside(w, p) ==>
         if IsFormat(w, p) then a[p].Function? && b[p].Function? else a[p] == b[p]
  }

  /** Masking, writing format information, and unmasking leaves only the format modules changed. */
  lemma TrialRestores(a: Grid, b: Grid, w: nat, pattern: nat, bits: seq<bool>)
    requires w >= 21 && SameButFormat(a, b, w) && pattern < 8 && |bits| == 15
    ensures SameButFormat(a, MaskGrid(DrawFormat(MaskGrid(b, w, pattern), w, bits), w, pattern), w)
  {
    hide MaskApplies, IsFormat, FormatBit;
  }

  /** What is masked and stamped does not depend on earlier format information. */
  lemma TrialSame(a: Grid, b: Grid, w: nat, pattern: nat, bits: seq<bool>)
    requires w >= 21 && SameButFormat(a, b, w) && pattern < 8 && |bits| == 15
    ensures DrawFormat(MaskGrid(a, w, pattern), w, bits) == DrawFormat(MaskGrid(b, w, pattern), w, bits)
  {
    hide MaskApplies, IsFormat, FormatBit;
  }
}
