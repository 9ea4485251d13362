// The eight mask patterns by their shapes (ISO/IEC 18004:2006, section 6.8.1), and that a masked grid shows exactly
// the shape of its mask against the grid it was made from.
module QrMasks {
  import opened Words
  import opened QrGrid

  /** Whether the pattern of a mask has a cell in column `x`, row `y`. */
  predicate Chosen(mask: nat, x: nat, y: nat) {
    if mask == 0 then x % 2 == y % 2
    else if mask == 1 then y % 2 == 0
    else if mask == 2 then x % 3 == 0
    else if mask == 3 then (x + y) % 3 == 0
    else if mask == 4 then (x % 6 < 3) == (y % 4 < 2)
    else if mask == 5 then Multiplied(x, y) % 6 == 0
    else if mask == 6 then Multiplied(x, y) % 6 < 3
    else (Multiplied(x, y) % 6 < 3) == ((x + y) % 2 == Multiplied(x, y) % 2)
  }

  function Multiplied(x: nat, y: nat): nat {
    x * y
  }

  // ----- The shapes

  /** Mask 0 is a chequerboard. */
  lemma Chequerboard(x: nat, y: nat)
    ensures Chosen(0, 0, 0)
    ensures Chosen(0, x + 1, y) != Chosen(0, x, y) && Chosen(0, x, y + 1) != Chosen(0, x, y)
  {
  }

  /** Mask 1 is every other row, from the first. */
  lemma Rows(x: nat, y: nat)
    ensures Chosen(1, 0, 0)
    ensures Chosen(1, x + 1, y) == Chosen(1, x, y) && Chosen(1, x, y + 1) != Chosen(1, x, y)
  {
  }

  /** Mask 2 is every third column, from the first. */
  lemma Columns(x: nat, y: nat)
    ensures Chosen(2, 0, 0) && !Chosen(2, 1, 0) && !Chosen(2, 2, 0)
    ensures Chosen(2, x + 3, y) == Chosen(2, x, y) && Chosen(2, x, y + 1) == Chosen(2, x, y)
  {
  }

  /** Mask 3 is every third diagonal, from the corner. */
  lemma Diagonals(x: nat, y: nat)
    ensures Chosen(3, 0, 0) && !Chosen(3, 1, 0) && !Chosen(3, 2, 0)
    ensures Chosen(3, x + 3, y) == Chosen(3, x, y) && Chosen(3, x, y + 1) == Chosen(3, x + 1, y)
  {
  }

  /** Mask 4 is a chequerboard of cells three wide and two high. */
  lemma Cells(x: nat, y: nat)
    ensures Chosen(4, 0, 0)
    ensures Chosen(4, x + 1, y) == Chosen(4, x, y) <==> x % 3 != 2
    ensures Chosen(4, x, y + 1) == Chosen(4, x, y) <==> y % 2 != 1
  {
    SixCells(x);
    FourCells(y);
  }

  lemma SixCells(x: nat)
    ensures ((x + 1) % 6 < 3) == (x % 6 < 3) <==> x % 3 != 2
  {
    NextOfSix(x);
    OfSix(x);
    SmallSixths(x % 6);
  }

  lemma FourCells(y: nat)
    ensures ((y + 1) % 4 < 2) == (y % 4 < 2) <==> y % 2 != 1
  {
    NextOfFour(y);
    OfFour(y);
    SmallFourths(y % 4);
  }

  lemma NextOfFour(n: nat)
    ensures (n + 1) % 4 == if n % 4 == 3 then 0 else n % 4 + 1
  {
    var q, r := n / 4, n % 4;
    assert n == 4 * q + r;
    if r == 3 {
      assert n + 1 == 4 * (q + 1);
    } else {
      assert n + 1 == 4 * q + (r + 1);
    }
  }

  lemma OfFour(n: nat)
    ensures n % 2 == n % 4 % 2
  {
    var q, r := n / 4, n % 4;
    DivUnique(n, 2, 2 * q + r / 2, r % 2);
  }

  lemma SmallFourths(r: nat)
    requires r < 4
    ensures ((if r == 3 then 0 else r + 1) < 2) == (r < 2) <==> r % 2 != 1
  {
    assert r == 0 || r == 1 || r == 2 || r == 3;
  }

  lemma NextOfSix(n: nat)
    ensures (n + 1) % 6 == if n % 6 == 5 then 0 else n % 6 + 1
  {
    var q, r := n / 6, n % 6;
    assert n == 6 * q + r;
    if r == 5 {
      assert n + 1 == 6 * (q + 1);
    } else {
      assert n + 1 == 6 * q + (r + 1);
    }
  }

  lemma OfSix(n: nat)
    ensures n % 2 == n % 6 % 2 && n % 3 == n % 6 % 3
  {
    var q, r := n / 6, n % 6;
    DivUnique(n, 2, 3 * q + r / 2, r % 2);
    DivUnique(n, 3, 2 * q + r / 3, r % 3);
  }

  lemma SmallSixths(r: nat)
    requires r < 6
    ensures r % 2 + r % 3 == 0 <==> r == 0
    ensures (r % 2 + r % 3) % 2 == 0 <==> r < 3
    ensures ((if r == 5 then 0 else r + 1) < 3) == (r < 3) <==> r % 3 != 2
  {
    assert r == 0 || r == 1 || r == 2 || r == 3 || r == 4 || r == 5;
  }

  // ----- The patterns have these shapes

  lemma Sixths(n: nat)
    ensures n % 2 + n % 3 == 0 <==> n % 6 == 0
    ensures (n % 2 + n % 3) % 2 == 0 <==> n % 6 < 3
  {
    OfSix(n);
    SmallSixths(n % 6);
  }

  lemma Parities(s: nat, n: nat)
    ensures (s % 2 + n % 3) % 2 == 0 <==> ((n % 2 + n % 3) % 2 == 0) == (s % 2 == n % 2)
  {
  }

  lemma SumParity(x: nat, y: nat)
    ensures (x + y) % 2 == 0 <==> x % 2 == y % 2
  {
  }

  lemma Thirds(x: nat)
    ensures (x / 3) % 2 == 0 <==> x % 6 < 3
  {
    var q, r := x / 6, x % 6;
    assert x == 3 * (2 * q) + r;
    if r < 3 {
      assert x / 3 == 2 * q;
    } else {
      assert x == 3 * (2 * q + 1) + (r - 3);
      assert x / 3 == 2 * q + 1;
    }
  }

  lemma Halves(y: nat)
    ensures (y / 2) % 2 == 0 <==> y % 4 < 2
  {
    var q, r := y / 4, y % 4;
    assert y == 2 * (2 * q) + r;
    if r < 2 {
      assert y / 2 == 2 * q;
    } else {
      assert y == 2 * (2 * q + 1) + (r - 2);
      assert y / 2 == 2 * q + 1;
    }
  }

  lemma MaskIsChosen(mask: nat, x: nat, y: nat)
    requires mask < 8
    ensures MaskApplies(mask, x, y) <==> Chosen(mask, x, y)
  {
    if mask < 4 {
      SumParity(x, y);
    } else if mask == 4 {
      CellParity(x, y);
    } else {
      ProductMasks(mask, x, y, Multiplied(x, y));
    }
  }

  lemma CellParity(x: nat, y: nat)
    ensures (x / 3 + y / 2) % 2 == 0 <==> (x % 6 < 3) == (y % 4 < 2)
  {
    Thirds(x);
    Halves(y);
    SumParity(x / 3, y / 2);
  }

  lemma ProductMasks(mask: nat, x: nat, y: nat, n: nat)
    requires 5 <= mask < 8 && n == Multiplied(x, y)
    ensures MaskApplies(mask, x, y) <==> Chosen(mask, x, y)
  {
    Sixths(n);
    Parities(x + y, n);
  }

  // `g` differs from `before` in the colour of a data module exactly where the mask's pattern has a cell.
  ghost predicate ShowsMask(before: Grid, g: Grid, mask: nat) {
    forall p: Pos :: p in before && before[p].Data? && p.0 >= 0 && p.1 >= 0 ==>
      p in g && g[p].Data? && (g[p].dark != before[p].dark <==> Chosen(mask, p.0, p.1))
  }

  lemma MaskGridShows(g: Grid, w: nat, mask: nat)
    requires mask < 8 && IsGrid(g, w)
    ensures ShowsMask(g, MaskGrid(g, w, mask), mask)
  {
    hide MaskApplies, Chosen;
    forall p: Pos | p in g && g[p].Data? && p.0 >= 0 && p.1 >= 0
      ensures MaskModule(g[p], mask, p).Data? && (MaskModule(g[p], mask, p).dark != g[p].dark <==> Chosen(mask, p.0, p.1))
    {
      MaskIsChosen(mask, p.0, p.1);
    }
  }

  /** Format information, which covers no data module, leaves that as it is. */
  lemma StampedShows(before: Grid, g: Grid, w: nat, mask: nat, bits: seq<bool>)
    requires w >= 21 && IsGrid(g, w) && |bits| == 15 && ShowsMask(before, g, mask)
    requires forall p: Pos :: p in before && Inside(w, p) && IsFormat(w, p) ==> before[p].Function?
    ensures ShowsMask(before, DrawFormat(g, w, bits), mask)
  {
    hide Chosen, IsFormat, FormatModule;
  }
}
