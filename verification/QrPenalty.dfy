/** The four mask penalty rules, each over the picture alone, and the loops that compute them. */
module QrPenalty {
  import opened Wrappers
  import opened Words
  import opened QrTables
  import opened QrGrid
  import opened Finite
  import opened QrLayout
  import opened QrPatterns
  import opened QrMatrix

  /** Module `k` of line `i`: a row when `horizontal`, else a column. */
  function Cross(horizontal: bool, i: int, k: int): Pos {
    if horizontal then (k, i) else (i, k)
  }

  ghost function Line(g: Grid, w: nat, horizontal: bool, i: nat): (s: seq<bool>)
    requires IsGrid(g, w) && i < w
    ensures |s| == w
  {
    seq(w, k requires 0 <= k < w => g[Cross(horizontal, i, k)].dark)
  }

  // ----- Rule 1: runs

  /** How many leading elements have colour `c`. */
  function Lead(c: bool, s: seq<bool>): (n: nat)
    ensures n <= |s|
  {
    if s == [] || s[0] != c then 0 else 1 + Lead(c, s[1..])
  }

  function RunCost(n: nat): nat {
    if n >= 5 then n - 2 else 0
  }

  /** The cost of the maximal runs of a line. */
  function LinePenalty(s: seq<bool>): nat
    decreases |s|
  {
    if s == [] then 0
    else
      var n := Lead(s[0], s);
      RunCost(n) + LinePenalty(s[n..])
  }

  ghost function Adjacent(g: Grid, w: nat, horizontal: bool, n: nat): nat
    requires IsGrid(g, w) && n <= w
    decreases n, g
  {
    if n == 0 then 0 else Adjacent(g, w, horizontal, n - 1) + LinePenalty(Line(g, w, horizontal, n - 1))
  }

  /** The cost still to come: of an open run of colour `last`, and of what follows. */
  function Pending(last: Option<bool>, run: nat, rest: seq<bool>): nat {
    match last
    case None => LinePenalty(rest)
    case Some(c) => RunCost(run + Lead(c, rest)) + LinePenalty(rest[Lead(c, rest)..])
  }

  lemma PendingStep(last: Option<bool>, run: nat, rest: seq<bool>)
    requires rest != [] && (last == None ==> run == 1)
    ensures last == Some(rest[0]) ==> Pending(last, run, rest) == Pending(last, run + 1, rest[1..])
    ensures last != Some(rest[0]) ==> Pending(last, run, rest) == RunCost(run) + Pending(Some(rest[0]), 1, rest[1..])
  {
    var n := Lead(rest[0], rest[1..]);
    assert Lead(rest[0], rest) == 1 + n;
    assert rest[1..][n..] == rest[1 + n..];
    if last.Some? && last.value != rest[0] {
      assert Lead(last.value, rest) == 0;
    }
  }

  lemma PendingEnd(last: Option<bool>, run: nat)
    requires last.Some?
    ensures Pending(last, run, []) == RunCost(run)
  {
  }

  method AdjacentPenalty(m: Matrix, horizontal: bool) returns (total: nat)
    requires m.Valid()
    ensures total == Adjacent(m.grid, m.width as int, horizontal, m.width as int)
  {
    hide Shows, Adjacent, Pending, LinePenalty;
    total := 0;
    ghost var w := m.width as int;
    var i: i16 := 0;
    AdjacentStep(m.grid, w, horizontal);
    while i < m.width
      invariant 0 <= i <= m.width && total == Adjacent(m.grid, w, horizontal, i as int)
    {
      total := LineRuns(m, horizontal, i, total);
      i := i + 1;
    }
  }

  lemma AdjacentStep(g: Grid, w: nat, horizontal: bool)
    requires IsGrid(g, w)
    ensures Adjacent(g, w, horizontal, 0) == 0
    ensures forall n: nat :: n < w ==>
              Adjacent(g, w, horizontal, n + 1) == Adjacent(g, w, horizontal, n) + LinePenalty(Line(g, w, horizontal, n))
  {
    hide LinePenalty;
  }

  /** One line: the step past the end is a sentinel that closes the last run. */
  method LineRuns(m: Matrix, horizontal: bool, i: i16, before: nat) returns (total: nat)
    requires m.Valid() && 0 <= i < m.width
    ensures total == before + LinePenalty(Line(m.grid, m.width as int, horizontal, i as int))
  {
    hide Shows, Pending, LinePenalty;
    total := before;
    ghost var s := Line(m.grid, m.width as int, horizontal, i as int);
    var last: Option<bool> := None;
    var run := 1;
    PendingStart(s);
    var j: i16 := 0;
    while j <= m.width
      invariant 0 <= j <= m.width + 1
      invariant j <= m.width ==> total + Pending(last, run, s[j..]) == before + LinePenalty(s)
      invariant last == None ==> run == 1
      invariant 0 < j <= m.width ==> last.Some?
      invariant j > m.width ==> total == before + LinePenalty(s)
    {
      var current := if j == m.width then None
                     else if horizontal then Some(m.Get(j, i).dark)
                     else Some(m.Get(i, j).dark);
      if j < m.width {
        PendingStep(last, run, s[j..]);
        assert s[j..][1..] == s[j + 1..];
      } else {
        PendingEnd(last, run);
      }
      if current == last {
        run := run + 1;
      } else {
        last := current;
        if run >= 5 {
          total := total + (run - 2);
        }
        run := 1;
      }
      j := j + 1;
    }
  }

  lemma PendingStart(s: seq<bool>)
    ensures Pending(None, 1, s[0..]) == LinePenalty(s)
  {
    assert s[0..] == s;
  }

  // ----- Rule 2: uniform 2x2 blocks

  predicate Uniform(g: Grid, w: int, p: Pos) {
    && p.0 < w - 1 && p.1 < w - 1
    && p in g && (p.0 + 1, p.1) in g && (p.0, p.1 + 1) in g && (p.0 + 1, p.1 + 1) in g
    && g[p].dark == g[(p.0 + 1, p.1)].dark
    && g[p].dark == g[(p.0, p.1 + 1)].dark
    && g[p].dark == g[(p.0 + 1, p.1 + 1)].dark
  }

  /** The top left corners of uniform blocks above row `y`, or in it and left of `x`. */
  ghost function UniformBlocks(g: Grid, w: int, y: int, x: int): set<Pos> {
    set p | p in g && Uniform(g, w, p) && (p.1 < y || (p.1 == y && p.0 < x))
  }

  ghost function Blocks(g: Grid, w: nat): nat {
    3 * |UniformBlocks(g, w, w, 0)|
  }

  lemma BlocksNone(g: Grid, w: nat)
    requires IsGrid(g, w)
    ensures UniformBlocks(g, w, 0, 0) == {}
  {
  }

  lemma BlocksStep(g: Grid, w: nat, y: int, x: int)
    requires IsGrid(g, w) && Inside(w, (x, y))
    ensures |UniformBlocks(g, w, y, x + 1)| == |UniformBlocks(g, w, y, x)| + if Uniform(g, w, (x, y)) then 1 else 0
  {
    hide Uniform;
    if Uniform(g, w, (x, y)) {
      assert UniformBlocks(g, w, y, x + 1) == UniformBlocks(g, w, y, x) + {(x, y)};
    } else {
      assert UniformBlocks(g, w, y, x + 1) == UniformBlocks(g, w, y, x);
    }
  }

  lemma BlocksRow(g: Grid, w: nat, y: int)
    requires IsGrid(g, w)
    ensures UniformBlocks(g, w, y, w - 1) == UniformBlocks(g, w, y + 1, 0)
  {
  }

  lemma BlocksLast(g: Grid, w: nat)
    requires IsGrid(g, w)
    ensures UniformBlocks(g, w, w - 1, 0) == UniformBlocks(g, w, w, 0)
  {
  }

  method BlockPenalty(m: Matrix) returns (total: nat)
    requires m.Valid()
    ensures total == Blocks(m.grid, m.width as int)
  {
    hide Shows, UniformBlocks;
    total := 0;
    ghost var w := m.width as int;
    BlocksNone(m.grid, w);
    var y: i16 := 0;
    while y < m.width - 1
      invariant 0 <= y <= m.width - 1 && total == 3 * |UniformBlocks(m.grid, w, y as int, 0)|
    {
      var x: i16 := 0;
      while x < m.width - 1
        invariant 0 <= x <= m.width - 1 && total == 3 * |UniformBlocks(m.grid, w, y as int, x as int)|
      {
        BlocksStep(m.grid, w, y as int, x as int);
        var a := m.Get(x, y).dark;
        if a == m.Get(x + 1, y).dark && a == m.Get(x, y + 1).dark && a == m.Get(x + 1, y + 1).dark {
          total := total + 3;
        }
        x := x + 1;
      }
      BlocksRow(m.grid, w, y as int);
      y := y + 1;
    }
    BlocksLast(m.grid, w);
  }

  // ----- Rule 3: finder-like patterns

  const PATTERN: seq<bool> := [true, false, true, true, true, false, true]

  predicate DarkIn(s: seq<bool>, from: int, to: int) {
    exists k :: from <= k < to && 0 <= k < |s| && s[k]
  }

  /** The pattern at `j`, with no dark module within four on one side. */
  predicate FinderLike(s: seq<bool>, j: nat) {
    && j + 7 <= |s| && s[j..j + 7] == PATTERN
    && (!DarkIn(s, j - 4, j) || !DarkIn(s, j + 7, j + 11))
  }

  ghost function FinderStarts(s: seq<bool>, n: nat): set<nat> {
    set j: nat | j < n && FinderLike(s, j)
  }

  ghost function FinderLines(g: Grid, w: nat, horizontal: bool, n: nat): nat
    requires IsGrid(g, w) && n <= w
    decreases n, g
  {
    if n == 0 then 0 else FinderLines(g, w, horizontal, n - 1) + 40 * |FinderStarts(Line(g, w, horizontal, n - 1), w)|
  }

  lemma StartsStep(s: seq<bool>, j: nat)
    ensures |FinderStarts(s, j + 1)| == |FinderStarts(s, j)| + if FinderLike(s, j) then 1 else 0
  {
    hide FinderLike;
    if FinderLike(s, j) {
      assert FinderStarts(s, j + 1) == FinderStarts(s, j) + {j};
    } else {
      assert FinderStarts(s, j + 1) == FinderStarts(s, j);
    }
  }

  lemma StartsEnd(s: seq<bool>)
    requires |s| >= 7
    ensures FinderStarts(s, 0) == {} && FinderStarts(s, |s| - 6) == FinderStarts(s, |s|)
  {
  }

  lemma PatternAt(s: seq<bool>, j: nat)
    requires j + 7 <= |s|
    ensures s[j..j + 7] == PATTERN <==> forall n :: 0 <= n < 7 ==> s[j + n] == PATTERN[n]
  {
    if forall n :: 0 <= n < 7 ==> s[j + n] == PATTERN[n] {
      assert s[j..j + 7] == PATTERN;
    }
    if s[j..j + 7] == PATTERN {
      forall n | 0 <= n < 7
        ensures s[j + n] == PATTERN[n]
      {
        assert s[j..j + 7][n] == PATTERN[n];
      }
    }
  }

  method HasPattern(m: Matrix, horizontal: bool, i: i16, j: i16) returns (all: bool)
    requires m.Valid() && 0 <= i < m.width && 0 <= j <= m.width - 7
    ensures var s := Line(m.grid, m.width as int, horizontal, i as int);
            all == (s[j..j + 7] == PATTERN)
  {
    hide Shows;
    ghost var s := Line(m.grid, m.width as int, horizontal, i as int);
    PatternAt(s, j as int);
    var k: i16 := 0;
    while k < 7
      invariant 0 <= k <= 7 && forall n :: 0 <= n < k as int ==> s[j as int + n] == PATTERN[n]
    {
      var at := if horizontal then m.Get(j + k, i).dark else m.Get(i, j + k).dark;
      if at != PATTERN[k] {
        assert s[j as int + k as int] != PATTERN[k as int];
        return false;
      }
      k := k + 1;
    }
    return true;
  }

  method DarkNear(m: Matrix, horizontal: bool, i: i16, from: i16, to: i16) returns (any: bool)
    requires m.Valid() && 0 <= i < m.width && -4 <= from <= to <= m.width + 4
    ensures any == DarkIn(Line(m.grid, m.width as int, horizontal, i as int), from as int, to as int)
  {
    hide Shows;
    ghost var s := Line(m.grid, m.width as int, horizontal, i as int);
    var k := from;
    while k < to
      invariant from <= k <= to && !DarkIn(s, from as int, k as int)
    {
      if 0 <= k < m.width && (if horizontal then m.Get(k, i).dark else m.Get(i, k).dark) {
        assert s[k];
        return true;
      }
      k := k + 1;
    }
    return false;
  }

  method FinderPenalty(m: Matrix, horizontal: bool) returns (total: nat)
    requires m.Valid()
    ensures total == FinderLines(m.grid, m.width as int, horizontal, m.width as int)
  {
    hide Shows, FinderStarts, FinderLines, Line, DarkIn;
    total := 0;
    ghost var w := m.width as int;
    FinderLinesStep(m.grid, w, horizontal);
    var i: i16 := 0;
    while i < m.width
      invariant 0 <= i <= m.width && total == FinderLines(m.grid, w, horizontal, i as int)
    {
      ghost var s := Line(m.grid, w, horizontal, i as int);
      ghost var before := total;
      StartsEnd(s);
      var j: i16 := 0;
      while j <= m.width - 7
        invariant 0 <= j <= m.width - 6 && total == before + 40 * |FinderStarts(s, j as int)|
      {
        StartsStep(s, j as int);
        var all := HasPattern(m, horizontal, i, j);
        if all {
          var left := DarkNear(m, horizontal, i, j - 4, j);
          var right := true;
          if left {
            right := DarkNear(m, horizontal, i, j + 7, j + 11);
          }
          if !left || !right {
            total := total + 40;
          }
        }
        j := j + 1;
      }
      i := i + 1;
    }
  }

  lemma FinderLinesStep(g: Grid, w: nat, horizontal: bool)
    requires IsGrid(g, w)
    ensures FinderLines(g, w, horizontal, 0) == 0
    ensures forall n: nat :: n < w ==>
              FinderLines(g, w, horizontal, n + 1)
              == FinderLines(g, w, horizontal, n) + 40 * |FinderStarts(Line(g, w, horizontal, n), w)|
  {
    hide FinderStarts, Line;
  }

  // ----- Rule 4: balance

  /** The dark modules among the first `n` of the flat vector. */
  ghost function DarkSet(g: Grid, w: nat, n: int): set<Pos> {
    set p | p in g && g[p].dark && Slot(w, p) < n
  }

  ghost function Balance(g: Grid, w: nat): nat
    requires w > 0
  {
    Abs(|DarkSet(g, w, Product(w, w))| * 200 / SquareOf(w) - 100)
  }

  function SquareOf(w: nat): (r: nat)
    requires w > 0
    ensures r > 0 && r == Product(w, w)
  {
    MulMonotone(1, w, w);
    w * w
  }

  lemma DarkStep(g: Grid, w: nat, n: nat)
    requires w > 0 && IsGrid(g, w) && n < Product(w, w)
    ensures var p := (n % w, n / w);
            && p in g && Slot(w, p) == n
            && |DarkSet(g, w, n + 1)| == |DarkSet(g, w, n)| + if g[p].dark then 1 else 0
  {
    hide Slot, Product;
    var p := (n % w, n / w);
    SlotOf(w, n);
    forall q | q in g && Slot(w, q) == n
      ensures q == p
    {
      SlotInjective(w, q, p);
    }
    if g[p].dark {
      assert DarkSet(g, w, n + 1) == DarkSet(g, w, n) + {p};
    } else {
      assert DarkSet(g, w, n + 1) == DarkSet(g, w, n);
    }
  }

  lemma SlotOf(w: nat, n: nat)
    requires w > 0 && n < Product(w, w)
    ensures Inside(w, (n % w, n / w)) && Slot(w, (n % w, n / w)) == n
  {
    if n / w >= w {
      MulMonotone(w, n / w, w);
    }
  }

  lemma DarkNone(g: Grid, w: nat)
    requires IsGrid(g, w)
    ensures DarkSet(g, w, 0) == {}
  {
    hide Slot;
    forall p | p in g
      ensures Slot(w, p) >= 0
    {
      SlotBounds(w, p);
    }
  }

  method BalancePenalty(m: Matrix) returns (r: nat)
    requires m.Valid()
    ensures r == Balance(m.grid, m.width as int)
  {
    hide DarkSet, Slot, Product;
    ghost var w := m.width as int;
    DarkNone(m.grid, w);
    var dark, k := 0, 0;
    while k < m.modules.Length
      invariant 0 <= k <= m.modules.Length && dark == |DarkSet(m.grid, w, k)|
    {
      DarkStep(m.grid, w, k);
      if m.modules[k].dark {
        dark := dark + 1;
      }
      k := k + 1;
    }
    ghost var length := SquareOf(w);
    var ratio := dark * 200 / m.modules.Length;
    r := Abs(ratio - 100);
  }

  // ----- The score

  ghost function Penalty(g: Grid, w: nat): nat
    requires IsGrid(g, w) && w > 0
  {
    Adjacent(g, w, true, w) + Adjacent(g, w, false, w) + Blocks(g, w)
    + FinderLines(g, w, true, w) + FinderLines(g, w, false, w) + Balance(g, w)
  }

  method ComputePenalty(m: Matrix) returns (score: nat)
    requires m.Valid()
    ensures score == Penalty(m.grid, m.width as int)
  {
    hide Shows, Adjacent, Blocks, FinderLines, Balance;
    var a := AdjacentPenalty(m, true);
    var b := AdjacentPenalty(m, false);
    var c := BlockPenalty(m);
    var d := FinderPenalty(m, true);
    var e := FinderPenalty(m, false);
    var f := BalancePenalty(m);
    score := a + b + c + d + e + f;
  }

  // ----- The score fits in 32 bits

  lemma {:induction false} LinePenaltyBound(s: seq<bool>)
    ensures LinePenalty(s) <= |s|
    decreases |s|
  {
    if s != [] {
      LinePenaltyBound(s[Lead(s[0], s)..]);
    }
  }

  lemma {:induction false} AdjacentBound(g: Grid, w: nat, horizontal: bool, n: nat)
    requires IsGrid(g, w) && n <= w
    ensures Adjacent(g, w, horizontal, n) <= Product(n, w)
    decreases n
  {
    hide LinePenalty, Product;
    ProductNext(n, w);
    if n > 0 {
      AdjacentBound(g, w, horizontal, n - 1);
      LinePenaltyBound(Line(g, w, horizontal, n - 1));
    }
  }

  lemma ProductNext(n: nat, w: nat)
    ensures Product(n, w) == if n == 0 then 0 else Product(n - 1, w) + w
  {
  }

  lemma {:induction false} StartsBound(s: seq<bool>, n: nat)
    ensures |FinderStarts(s, n)| <= n
  {
    hide FinderLike;
    if n > 0 {
      StartsBound(s, n - 1);
      StartsStep(s, n - 1);
    } else {
      assert FinderStarts(s, 0) == {};
    }
  }

  lemma {:induction false} FinderBound(g: Grid, w: nat, horizontal: bool, n: nat)
    requires IsGrid(g, w) && n <= w
    ensures FinderLines(g, w, horizontal, n) <= 40 * Product(n, w)
    decreases n
  {
    hide FinderStarts, Product;
    ProductNext(n, w);
    if n > 0 {
      FinderBound(g, w, horizontal, n - 1);
      StartsBound(Line(g, w, horizontal, n - 1), w);
    }
  }

  lemma GridSize(g: Grid, w: nat, s: set<Pos>)
    requires IsGrid(g, w) && forall p :: p in s ==> p in g
    ensures |s| <= Product(w, w)
  {
    hide Block, Product;
    BlockFacts(0, 0, w, w);
    SubsetSize(s, Block(0, 0, w, w));
  }

  lemma RatioBound(dark: nat, total: nat)
    requires dark <= total && total > 0
    ensures 0 <= dark * 200 / total <= 200
  {
    QuotientBelow(dark * 200, total, 201);
  }

  /** The penalty of every symbol is far below the initial best score, `u32::MAX`. */
  lemma PenaltyBound(g: Grid, w: nat)
    requires IsGrid(g, w) && 0 < w <= 177
    ensures Penalty(g, w) < 0xffff_ffff
  {
    hide Adjacent, FinderLines, UniformBlocks, DarkSet, Product;
    AdjacentBound(g, w, true, w);
    AdjacentBound(g, w, false, w);
    FinderBound(g, w, true, w);
    FinderBound(g, w, false, w);
    UniformInside(g, w);
    DarkInside(g, w);
    GridSize(g, w, UniformBlocks(g, w, w, 0));
    GridSize(g, w, DarkSet(g, w, Product(w, w)));
    SmallProduct(w);
    RatioBound(|DarkSet(g, w, Product(w, w))|, SquareOf(w));
  }

  lemma UniformInside(g: Grid, w: nat)
    ensures forall p :: p in UniformBlocks(g, w, w, 0) ==> p in g
  {
  }

  lemma DarkInside(g: Grid, w: nat)
    ensures forall p :: p in DarkSet(g, w, Product(w, w)) ==> p in g
  {
  }

  lemma SmallProduct(w: nat)
    requires w <= 177
    ensures Product(w, w) <= 31329
  {
    MulMonotone(w, 177, w);
    MulMonotone(w, 177, 177);
  }
}
