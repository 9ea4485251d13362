/** Which modules the function patterns of a version occupy, and how many are left for codewords. */
module QrLayout {
  import opened Finite
  import opened QrTables
  import opened QrGrid

  datatype Rect = Rect(x: int, y: int, w: nat, h: nat)

  predicate InRect(r: Rect, p: Pos) {
    r.x <= p.0 < r.x + r.w && r.y <= p.1 < r.y + r.h
  }

  // ----- The patterns

  /** Finder patterns with their separators, in three corners. */
  predicate IsFinder(w: int, p: Pos) {
    || (0 <= p.0 < 8 && 0 <= p.1 < 8)
    || (w - 8 <= p.0 < w && 0 <= p.1 < 8)
    || (0 <= p.0 < 8 && w - 8 <= p.1 < w)
  }

  predicate IsTiming(w: int, p: Pos) {
    (p.1 == 6 && 8 <= p.0 < w - 8) || (p.0 == 6 && 8 <= p.1 < w - 8)
  }

  /** A pair of centres that does not sit on a finder pattern. */
  predicate KeptPair(n: nat, i: nat, j: nat) {
    i < n && j < n && !((i == 0 && (j == 0 || j == n - 1)) || (i == n - 1 && j == 0))
  }

  predicate InAlignment(cx: int, cy: int, p: Pos) {
    cx - 2 <= p.0 <= cx + 2 && cy - 2 <= p.1 <= cy + 2
  }

  ghost predicate IsAlignment(cs: seq<nat>, p: Pos) {
    exists i: nat, j: nat :: KeptPair(|cs|, i, j) && InAlignment(cs[i], cs[j], p)
  }

  predicate IsVersionInfo(version: nat, w: int, p: Pos) {
    version >= 7 && ((w - 11 <= p.0 < w - 8 && 0 <= p.1 < 6) || (w - 11 <= p.1 < w - 8 && 0 <= p.0 < 6))
  }

  /** The modules of a version's function patterns. */
  ghost predicate IsFunctionModule(version: nat, p: Pos)
    requires 1 <= version <= 40
  {
    var w := Width(version);
    IsFinder(w, p) || IsTiming(w, p) || IsAlignment(Centres(version), p) || IsVersionInfo(version, w, p) || IsFormat(w, p)
  }

  /** Column 6 carries function modules only. */
  lemma ColumnSixIsFunction(version: nat, p: Pos)
    requires 1 <= version <= 40 && Inside(Width(version), p) && p.0 == 6
    ensures IsFunctionModule(version, p)
  {
    hide Centres;
  }

  // ----- The centres

  /** First at 6, the inner ones clear of the finder patterns, the last at `w - 7`; even and far apart. */
  predicate CentresOk(cs: seq<nat>, w: int) {
    && (|cs| > 0 ==> |cs| >= 2 && cs[0] == 6 && cs[|cs| - 1] == w - 7)
    && (forall i :: 0 < i < |cs| - 1 ==> 10 <= cs[i] <= w - 11)
    && (forall i :: 0 <= i < |cs| - 1 ==> cs[i] + 12 <= cs[i + 1])
    && forall i :: 0 <= i < |cs| ==> cs[i] % 2 == 0
  }

  lemma CentresFineTo13(version: nat)
    requires 1 <= version <= 13
    ensures CentresOk(Centres(version), Width(version))
  {
    if version <= 6 {
    } else if version <= 9 {
    } else {
    }
  }

  lemma CentresFineTo20(version: nat)
    requires 14 <= version <= 20
    ensures CentresOk(Centres(version), Width(version))
  {
    if version <= 16 {
    } else {
    }
  }

  lemma CentresFineTo27(version: nat)
    requires 21 <= version <= 27
    ensures CentresOk(Centres(version), Width(version))
  {
    if version <= 23 {
    } else {
    }
  }

  lemma CentresFineTo30(version: nat)
    requires 28 <= version <= 30
    ensures CentresOk(Centres(version), Width(version))
  {
  }

  lemma CentresFineTo32(version: nat)
    requires 31 <= version <= 32
    ensures CentresOk(Centres(version), Width(version))
  {
  }

  lemma CentresFineTo34(version: nat)
    requires 33 <= version <= 34
    ensures CentresOk(Centres(version), Width(version))
  {
  }

  lemma CentresFineTo36(version: nat)
    requires 35 <= version <= 36
    ensures CentresOk(Centres(version), Width(version))
  {
  }

  lemma CentresFineTo38(version: nat)
    requires 37 <= version <= 38
    ensures CentresOk(Centres(version), Width(version))
  {
  }

  lemma CentresFineTo40(version: nat)
    requires 39 <= version <= 40
    ensures CentresOk(Centres(version), Width(version))
  {
  }

  lemma CentresFine(version: nat)
    requires 1 <= version <= 40
    ensures CentresOk(Centres(version), Width(version))
  {
    hide Centres, CentresOk;
    if version <= 13 {
      CentresFineTo13(version);
    } else if version <= 20 {
      CentresFineTo20(version);
    } else if version <= 27 {
      CentresFineTo27(version);
    } else if version <= 30 {
      CentresFineTo30(version);
    } else if version <= 32 {
      CentresFineTo32(version);
    } else if version <= 34 {
      CentresFineTo34(version);
    } else if version <= 36 {
      CentresFineTo36(version);
    } else if version <= 38 {
      CentresFineTo38(version);
    } else {
      CentresFineTo40(version);
    }
  }

  // ----- Counting by rectangles

  function Area(rs: seq<Rect>): nat {
    if rs == [] then 0 else Product(rs[0].w, rs[0].h) + Area(rs[1..])
  }

  ghost predicate Covers(rs: seq<Rect>, p: Pos) {
    exists k :: 0 <= k < |rs| && InRect(rs[k], p)
  }

  function Row(x: int, y: int, n: nat): set<Pos> {
    if n == 0 then {} else Row(x, y, n - 1) + {(x + n - 1, y)}
  }

  function Block(x: int, y: int, w: nat, h: nat): set<Pos> {
    if h == 0 then {} else Block(x, y, w, h - 1) + Row(x, y + h - 1, w)
  }

  lemma {:induction false} RowFacts(x: int, y: int, n: nat)
    ensures |Row(x, y, n)| == n
    ensures forall p: Pos :: p in Row(x, y, n) <==> x <= p.0 < x + n && p.1 == y
  {
    if n != 0 {
      RowFacts(x, y, n - 1);
    }
  }

  lemma {:induction false} InBlock(x: int, y: int, w: nat, h: nat, p: Pos)
    ensures p in Block(x, y, w, h) <==> InRect(Rect(x, y, w, h), p)
  {
    hide Row;
    if h != 0 {
      InBlock(x, y, w, h - 1, p);
      RowFacts(x, y + h - 1, w);
    }
  }

  lemma RowBeyond(x: int, y: int, w: nat, h: nat)
    ensures Block(x, y, w, h) !! Row(x, y + h, w)
  {
    hide Block, Row;
    RowFacts(x, y + h, w);
    forall p | p in Row(x, y + h, w)
      ensures p !in Block(x, y, w, h)
    {
      InBlock(x, y, w, h, p);
    }
  }

  lemma {:induction false} BlockSize(x: int, y: int, w: nat, h: nat)
    ensures |Block(x, y, w, h)| == Product(w, h)
  {
    hide Row, Product;
    ProductStep(w, h);
    if h != 0 {
      BlockSize(x, y, w, h - 1);
      RowBeyond(x, y, w, h - 1);
      RowFacts(x, y + h - 1, w);
      DisjointSize(Block(x, y, w, h - 1), Row(x, y + h - 1, w));
    }
  }

  lemma BlockFacts(x: int, y: int, w: nat, h: nat)
    ensures |Block(x, y, w, h)| == Product(w, h)
    ensures forall p: Pos :: p in Block(x, y, w, h) <==> InRect(Rect(x, y, w, h), p)
  {
    hide Block, Product, InRect;
    BlockSize(x, y, w, h);
    forall p: Pos
      ensures p in Block(x, y, w, h) <==> InRect(Rect(x, y, w, h), p)
    {
      InBlock(x, y, w, h, p);
    }
  }

  /** A set covered by rectangles is no larger than their areas together. */
  lemma {:induction false} CoveredSize(s: set<Pos>, rs: seq<Rect>)
    requires forall p :: p in s ==> Covers(rs, p)
    ensures |s| <= Area(rs)
    decreases |rs|
  {
    hide InRect;
    if rs == [] {
      assert s == {};
    } else {
      var r := rs[0];
      var b := Block(r.x, r.y, r.w, r.h);
      BlockFacts(r.x, r.y, r.w, r.h);
      forall p | p in s - b
        ensures Covers(rs[1..], p)
      {
        var k :| 0 <= k < |rs| && InRect(rs[k], p);
        assert k > 0 && rs[1..][k - 1] == rs[k];
      }
      CoveredSize(s - b, rs[1..]);
      SubsetSize(s, b + (s - b));
      DisjointSize(b, s - b);
    }
  }

  lemma {:induction false} AreaAppend(a: seq<Rect>, b: seq<Rect>)
    ensures Area(a + b) == Area(a) + Area(b)
  {
    if a == [] {
      assert a + b == b;
    } else {
      assert (a + b)[1..] == a[1..] + b;
      AreaAppend(a[1..], b);
    }
  }

  lemma CoversAppend(a: seq<Rect>, b: seq<Rect>, p: Pos)
    ensures Covers(a + b, p) <==> Covers(a, p) || Covers(b, p)
  {
    hide InRect;
    if k :| 0 <= k < |a + b| && InRect((a + b)[k], p) {
      if k < |a| {
        assert InRect(a[k], p);
      } else {
        assert InRect(b[k - |a|], p);
      }
    }
    if k :| 0 <= k < |a| && InRect(a[k], p) {
      assert InRect((a + b)[k], p);
    }
    if k :| 0 <= k < |b| && InRect(b[k], p) {
      assert InRect((a + b)[|a| + k], p);
    }
  }

  // ----- The rectangles of a version

  function FixedRects(w: nat): seq<Rect>
    requires w >= 21
  {
    [Rect(0, 0, 8, 8), Rect(w - 8, 0, 8, 8), Rect(0, w - 8, 8, 8),
     Rect(8, 6, w - 16, 1), Rect(6, 8, 1, w - 16)]
  }

  function FormatRects(w: nat): seq<Rect> {
    [Rect(8, 0, 1, 6), Rect(8, 7, 1, 2), Rect(0, 8, 6, 1), Rect(7, 8, 1, 1), Rect(w - 8, 8, 8, 1), Rect(8, w - 8, 1, 8)]
  }

  function VersionRects(version: nat, w: nat): seq<Rect> {
    if version >= 7 then [Rect(w - 11, 0, 3, 6), Rect(0, w - 11, 6, 3)] else []
  }

  /** The part of an alignment pattern that is not on a timing line. */
  function PatternRects(cs: seq<nat>, i: nat, j: nat): seq<Rect>
    requires i < |cs| && j < |cs|
  {
    var x: int := cs[i] as int - 2;
    var y: int := cs[j] as int - 2;
    if !KeptPair(|cs|, i, j) then []
    else if i == 0 then [Rect(x, y, 2, 5), Rect(x + 3, y, 2, 5)]
    else if j == 0 then [Rect(x, y, 5, 2), Rect(x, y + 3, 5, 2)]
    else [Rect(x, y, 5, 5)]
  }

  function PatternRow(cs: seq<nat>, i: nat, n: nat): seq<Rect>
    requires i < |cs| && n <= |cs|
  {
    if n == 0 then [] else PatternRow(cs, i, n - 1) + PatternRects(cs, i, n - 1)
  }

  function PatternTable(cs: seq<nat>, n: nat): seq<Rect>
    requires n <= |cs|
  {
    if n == 0 then [] else PatternTable(cs, n - 1) + PatternRow(cs, n - 1, |cs|)
  }

  function RowArea(n: nat, i: nat, k: nat): int {
    if i == 0 then (if k == 0 then 0 else if k == n then 20 * (n - 2) else 20 * (k - 1))
    else if i == n - 1 then (if k == 0 then 0 else 25 * (k - 1))
    else (if k == 0 then 0 else 20 + 25 * (k - 1))
  }

  lemma AreaOfPattern(cs: seq<nat>, i: nat, j: nat)
    requires i < |cs| && j < |cs|
    ensures Area(PatternRects(cs, i, j)) == if !KeptPair(|cs|, i, j) then 0 else if i == 0 || j == 0 then 20 else 25
  {
    hide Area;
    var rs := PatternRects(cs, i, j);
    if |rs| == 0 {
      AreaOfNone();
    } else {
      AreaOfTail(rs, 0);
      if |rs| == 2 {
        AreaOfTail(rs, 1);
      }
    }
  }

  lemma {:induction false} AreaOfRow(cs: seq<nat>, i: nat, k: nat)
    requires i < |cs| && 2 <= |cs| && k <= |cs|
    ensures Area(PatternRow(cs, i, k)) == RowArea(|cs|, i, k)
    decreases k
  {
    hide Area, PatternRects;
    if k == 0 {
      AreaOfNone();
    } else {
      AreaOfRow(cs, i, k - 1);
      AreaAppend(PatternRow(cs, i, k - 1), PatternRects(cs, i, k - 1));
      AreaOfPattern(cs, i, k - 1);
    }
  }

  lemma AreaOfNone()
    ensures Area([]) == 0
  {
  }

  function TableArea(n: nat, k: nat): int {
    if k == 0 then 0
    else if k == n then 20 * (n - 2) + (k - 2) * (20 + 25 * (n - 1)) + 25 * (n - 1)
    else 20 * (n - 2) + (k - 1) * (20 + 25 * (n - 1))
  }

  lemma {:induction false} AreaOfTable(cs: seq<nat>, k: nat)
    requires 2 <= |cs| && k <= |cs|
    ensures Area(PatternTable(cs, k)) == TableArea(|cs|, k)
    decreases k
  {
    hide Area, PatternRow;
    if k == 0 {
      AreaOfNone();
    } else {
      AreaOfTable(cs, k - 1);
      AreaAppend(PatternTable(cs, k - 1), PatternRow(cs, k - 1, |cs|));
      AreaOfRow(cs, k - 1, |cs|);
      NextRow(k, 20 + 25 * (|cs| - 1));
    }
  }

  lemma NextRow(k: nat, a: int)
    requires k > 0
    ensures (k - 1) * a == (k - 2) * a + a
  {
  }

  lemma TableTotal(n: nat)
    requires n >= 2
    ensures TableArea(n, n) == 25 * (n - 1) * (n - 1) + 40 * (n - 2)
  {
    var m := n - 1;
    assert TableArea(n, n) == 20 * (m - 1) + (m - 1) * (20 + 25 * m) + 25 * m;
    assert (m - 1) * (20 + 25 * m) == 20 * (m - 1) + 25 * (m * m) - 25 * m;
  }

  function AllRects(version: nat): seq<Rect>
    requires 1 <= version <= 40
  {
    var w, cs := Width(version), Centres(version);
    FixedRects(w) + FormatRects(w) + VersionRects(version, w) + PatternTable(cs, |cs|)
  }

  lemma FixedArea(w: nat)
    requires w >= 21
    ensures Area(FixedRects(w)) == 192 + 2 * (w - 16)
  {
    hide Area;
    var rs := FixedRects(w);
    AreaOfTail(rs, 0);
    AreaOfTail(rs, 1);
    AreaOfTail(rs, 2);
    AreaOfTail(rs, 3);
    AreaOfTail(rs, 4);
  }

  /** The area of what follows position `k`, one rectangle at a time. */
  lemma AreaOfTail(rs: seq<Rect>, k: nat)
    requires k < |rs|
    ensures Area(rs[k..]) == rs[k].w * rs[k].h + Area(rs[k + 1..])
    ensures Area(rs[|rs|..]) == 0 && rs[0..] == rs
  {
    assert rs[k..][1..] == rs[k + 1..];
  }

  lemma FormatArea(w: nat)
    requires w >= 21
    ensures Area(FormatRects(w)) == 31
  {
    hide Area;
    var rs := FormatRects(w);
    AreaOfTail(rs, 0);
    AreaOfTail(rs, 1);
    AreaOfTail(rs, 2);
    AreaOfTail(rs, 3);
    AreaOfTail(rs, 4);
    AreaOfTail(rs, 5);
  }

  lemma VersionArea(version: nat, w: nat)
    ensures Area(VersionRects(version, w)) == if version >= 7 then 36 else 0
  {
    hide Area;
    var rs := VersionRects(version, w);
    if version >= 7 {
      AreaOfTail(rs, 0);
      AreaOfTail(rs, 1);
    } else {
      AreaOfNone();
    }
  }

  lemma AreaOfAll(version: nat)
    requires 1 <= version <= 40
    ensures Area(AllRects(version)) == FunctionModules(version)
  {
    hide Area, Centres, FixedRects, FormatRects, VersionRects, TableArea;
    var w, cs := Width(version), Centres(version);
    FixedArea(w);
    FormatArea(w);
    VersionArea(version, w);
    AreaAppend(FixedRects(w) + FormatRects(w) + VersionRects(version, w), PatternTable(cs, |cs|));
    AreaAppend(FixedRects(w) + FormatRects(w), VersionRects(version, w));
    AreaAppend(FixedRects(w), FormatRects(w));
    CentresFine(version);
    if |cs| == 0 {
      AreaOfNone();
    } else {
      AreaOfTable(cs, |cs|);
      TableTotal(|cs|);
    }
  }

  // ----- Every function module lies in a rectangle

  lemma FixedCovers(version: nat, p: Pos)
    requires 1 <= version <= 40
    requires IsFinder(Width(version), p) || IsTiming(Width(version), p)
    ensures Covers(FixedRects(Width(version)), p)
  {
    var rs := FixedRects(Width(version));
    assert InRect(rs[0], p) || InRect(rs[1], p) || InRect(rs[2], p) || InRect(rs[3], p) || InRect(rs[4], p);
  }

  lemma FormatCovers(w: nat, p: Pos)
    requires w >= 21 && IsFormat(w, p)
    ensures Covers(FormatRects(w), p)
  {
    var rs := FormatRects(w);
    assert InRect(rs[0], p) || InRect(rs[1], p) || InRect(rs[2], p) || InRect(rs[3], p) || InRect(rs[4], p) || InRect(rs[5], p);
  }

  lemma VersionCovers(version: nat, w: nat, p: Pos)
    requires IsVersionInfo(version, w, p)
    ensures Covers(VersionRects(version, w), p)
  {
    var rs := VersionRects(version, w);
    assert InRect(rs[0], p) || InRect(rs[1], p);
  }

  lemma {:induction false} RowCovers(cs: seq<nat>, i: nat, j: nat, n: nat, p: Pos)
    requires i < |cs| && j < n <= |cs| && Covers(PatternRects(cs, i, j), p)
    ensures Covers(PatternRow(cs, i, n), p)
    decreases n
  {
    hide Covers, PatternRects;
    CoversAppend(PatternRow(cs, i, n - 1), PatternRects(cs, i, n - 1), p);
    if j < n - 1 {
      RowCovers(cs, i, j, n - 1, p);
    }
  }

  lemma {:induction false} TableCovers(cs: seq<nat>, i: nat, j: nat, n: nat, p: Pos)
    requires i < n <= |cs| && j < |cs| && Covers(PatternRects(cs, i, j), p)
    ensures Covers(PatternTable(cs, n), p)
    decreases n
  {
    hide Covers, PatternRects, PatternRow;
    CoversAppend(PatternTable(cs, n - 1), PatternRow(cs, n - 1, |cs|), p);
    if i < n - 1 {
      TableCovers(cs, i, j, n - 1, p);
    } else {
      RowCovers(cs, i, j, |cs|, p);
    }
  }

  /** An alignment module is in its pattern's rectangles or on a timing line. */
  lemma AlignmentCovers(cs: seq<nat>, w: nat, i: nat, j: nat, p: Pos)
    requires CentresOk(cs, w) && KeptPair(|cs|, i, j) && InAlignment(cs[i], cs[j], p)
    ensures Covers(PatternRects(cs, i, j), p) || IsTiming(w, p)
  {
    var rs := PatternRects(cs, i, j);
    if i == 0 {
      if p.0 != 6 {
        assert InRect(rs[0], p) || InRect(rs[1], p);
      }
    } else if j == 0 {
      if p.1 != 6 {
        assert InRect(rs[0], p) || InRect(rs[1], p);
      }
    } else {
      assert InRect(rs[0], p);
    }
  }

  lemma FunctionModuleCovered(version: nat, p: Pos)
    requires 1 <= version <= 40 && IsFunctionModule(version, p)
    ensures Covers(AllRects(version), p)
  {
    hide Covers, Centres, FixedRects, FormatRects, VersionRects, PatternTable, IsFinder, IsTiming, IsFormat, InAlignment;
    var w, cs := Width(version), Centres(version);
    var a, b, c, d := FixedRects(w), FormatRects(w), VersionRects(version, w), PatternTable(cs, |cs|);
    CoversAppend(a + b + c, d, p);
    CoversAppend(a + b, c, p);
    CoversAppend(a, b, p);
    CentresFine(version);
    if IsFinder(w, p) || IsTiming(w, p) {
      FixedCovers(version, p);
    } else if IsFormat(w, p) {
      FormatCovers(w, p);
    } else if IsVersionInfo(version, w, p) {
      VersionCovers(version, w, p);
    } else {
      var i: nat, j: nat :| KeptPair(|cs|, i, j) && InAlignment(cs[i], cs[j], p);
      AlignmentCovers(cs, w, i, j, p);
      TableCovers(cs, i, j, |cs|, p);
    }
  }

  ghost function FunctionPositions(version: nat): set<Pos>
    requires 1 <= version <= 40
  {
    var w := Width(version);
    set p: Pos | p in Block(0, 0, w, w) && IsFunctionModule(version, p)
  }

  lemma InSquare(w: nat, p: Pos)
    ensures p in Block(0, 0, w, w) <==> Inside(w, p)
  {
    hide Block;
    InBlock(0, 0, w, w, p);
  }

  lemma IsFunctionPosition(version: nat, p: Pos)
    requires 1 <= version <= 40
    ensures p in FunctionPositions(version) <==> Inside(Width(version), p) && IsFunctionModule(version, p)
  {
    hide IsFunctionModule, Inside, Block, Width;
    InSquare(Width(version), p);
  }

  lemma FunctionPositionsAre(version: nat)
    requires 1 <= version <= 40
    ensures forall p: Pos :: p in FunctionPositions(version) <==> Inside(Width(version), p) && IsFunctionModule(version, p)
  {
    hide IsFunctionModule, Inside, FunctionPositions;
    forall p: Pos
      ensures p in FunctionPositions(version) <==> Inside(Width(version), p) && IsFunctionModule(version, p)
    {
      IsFunctionPosition(version, p);
    }
  }

  /** The modules of the symbol that are not function modules. */
  ghost function FreePositions(version: nat): set<Pos>
    requires 1 <= version <= 40
  {
    Block(0, 0, Width(version), Width(version)) - FunctionPositions(version)
  }

  lemma FreeOnWalk(version: nat, p: Pos)
    requires 1 <= version <= 40
    ensures p in FreePositions(version) <==> p in Zigzag(Width(version)) && p !in FunctionPositions(version)
  {
    hide IsFunctionModule, FunctionPositions, Zigzag, Block, Inside;
    var w := Width(version);
    InSquare(w, p);
    ZigzagComplete(w);
    IsFunctionPosition(version, p);
    if Inside(w, p) && p.0 == 6 {
      ColumnSixIsFunction(version, p);
    }
  }

  lemma FreePositionsCount(version: nat)
    requires 1 <= version <= 40
    ensures |FreePositions(version)| == Product(Width(version), Width(version)) - |FunctionPositions(version)|
  {
    hide IsFunctionModule, Block, Product;
    var w := Width(version);
    var fn, all, free := FunctionPositions(version), Block(0, 0, w, w), FreePositions(version);
    BlockSize(0, 0, w, w);
    assert fn <= all;
    DisjointSize(fn, free);
    assert fn + free == all;
  }

  /** The walk meets every module that is not a function module. */
  lemma FreeModulesMet(version: nat)
    requires 1 <= version <= 40
    ensures FreeCount(FunctionPositions(version), Zigzag(Width(version)))
            == Product(Width(version), Width(version)) - |FunctionPositions(version)|
  {
    hide FreePositions, FunctionPositions, Zigzag, Product, FreeCount;
    var w := Width(version);
    forall p: Pos
      ensures p in FreePositions(version) <==> p in Zigzag(w) && p !in FunctionPositions(version)
    {
      FreeOnWalk(version, p);
    }
    ZigzagComplete(w);
    FreeCountIs(FunctionPositions(version), Zigzag(w), FreePositions(version));
    FreePositionsCount(version);
  }

  /** There are no more function modules than their rectangles hold. */
  lemma FunctionModulesFew(version: nat)
    requires 1 <= version <= 40
    ensures |FunctionPositions(version)| <= FunctionModules(version)
  {
    hide IsFunctionModule, FunctionPositions, FunctionModules, Covers, Area, AllRects;
    FunctionPositionsAre(version);
    forall p | p in FunctionPositions(version)
      ensures Covers(AllRects(version), p)
    {
      FunctionModuleCovered(version, p);
    }
    CoveredSize(FunctionPositions(version), AllRects(version));
    AreaOfAll(version);
  }

  /** The zigzag of every version meets at least as many free modules as its codewords have bits. */
  lemma FreeModulesSuffice(version: nat, ec: EcLevel)
    requires 1 <= version <= 40
    ensures 8 * TotalCodewords(version, ec) <= FreeCount(FunctionPositions(version), Zigzag(Width(version)))
  {
    hide TotalCodewords, FunctionModules, FunctionPositions, Zigzag, FreeCount, Product;
    FreeModulesMet(version);
    FunctionModulesFew(version);
    CodewordsFit(version, ec);
    SquareIs(Width(version));
  }

  lemma SquareIs(w: nat)
    ensures Product(w, w) == w * w
  {
  }
}
