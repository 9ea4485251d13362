// The block tables of ISO/IEC 18004:2006, section 6.5.1, table 9, the alignment positions, and
// version selection.
module QrTables {
  import opened Wrappers

  datatype EcLevel = L | M | Q | H

  /** Error-correction codewords per block, and two groups of blocks as (size, count). */
  datatype Layout = Layout(ecLen: nat, size1: nat, count1: nat, size2: nat, count2: nat)

  function Pick(ec: EcLevel, l: Layout, m: Layout, q: Layout, h: Layout): Layout {
    match ec case L => l case M => m case Q => q case H => h
  }

  function BlockLayout(version: nat, ec: EcLevel): Layout
    requires 1 <= version <= 40
  {
    match version
    case 1 => Pick(ec, Layout(7, 19, 1, 0, 0), Layout(10, 16, 1, 0, 0), Layout(13, 13, 1, 0, 0), Layout(17, 9, 1, 0, 0))
    case 2 => Pick(ec, Layout(10, 34, 1, 0, 0), Layout(16, 28, 1, 0, 0), Layout(22, 22, 1, 0, 0), Layout(28, 16, 1, 0, 0))
    case 3 => Pick(ec, Layout(15, 55, 1, 0, 0), Layout(26, 44, 1, 0, 0), Layout(18, 17, 2, 0, 0), Layout(22, 13, 2, 0, 0))
    case 4 => Pick(ec, Layout(20, 80, 1, 0, 0), Layout(18, 32, 2, 0, 0), Layout(26, 24, 2, 0, 0), Layout(16, 9, 4, 0, 0))
    case 5 => Pick(ec, Layout(26, 108, 1, 0, 0), Layout(24, 43, 2, 0, 0), Layout(18, 15, 2, 16, 2), Layout(22, 11, 2, 12, 2))
    case 6 => Pick(ec, Layout(18, 68, 2, 0, 0), Layout(16, 27, 4, 0, 0), Layout(24, 19, 4, 0, 0), Layout(28, 15, 4, 0, 0))
    case 7 => Pick(ec, Layout(20, 78, 2, 0, 0), Layout(18, 31, 4, 0, 0), Layout(18, 14, 2, 15, 4), Layout(26, 13, 4, 14, 1))
    case 8 => Pick(ec, Layout(24, 97, 2, 0, 0), Layout(22, 38, 2, 39, 2), Layout(22, 18, 4, 19, 2), Layout(26, 14, 4, 15, 2))
    case 9 => Pick(ec, Layout(30, 116, 2, 0, 0), Layout(22, 36, 3, 37, 2), Layout(20, 16, 4, 17, 4), Layout(24, 12, 4, 13, 4))
    case 10 => Pick(ec, Layout(18, 68, 2, 69, 2), Layout(26, 43, 4, 44, 1), Layout(24, 19, 6, 20, 2), Layout(28, 15, 6, 16, 2))
    case 11 => Pick(ec, Layout(20, 81, 4, 0, 0), Layout(30, 50, 1, 51, 4), Layout(28, 22, 4, 23, 4), Layout(24, 12, 3, 13, 8))
    case 12 => Pick(ec, Layout(24, 92, 2, 93, 2), Layout(22, 36, 6, 37, 2), Layout(26, 20, 4, 21, 6), Layout(28, 14, 7, 15, 4))
    case 13 => Pick(ec, Layout(26, 107, 4, 0, 0), Layout(22, 37, 8, 38, 1), Layout(24, 20, 8, 21, 4), Layout(22, 11, 12, 12, 4))
    case 14 => Pick(ec, Layout(30, 115, 3, 116, 1), Layout(24, 40, 4, 41, 5), Layout(20, 16, 11, 17, 5), Layout(24, 12, 11, 13, 5))
    case 15 => Pick(ec, Layout(22, 87, 5, 88, 1), Layout(24, 41, 5, 42, 5), Layout(30, 24, 5, 25, 7), Layout(24, 12, 11, 13, 7))
    case 16 => Pick(ec, Layout(24, 98, 5, 99, 1), Layout(28, 45, 7, 46, 3), Layout(24, 19, 15, 20, 2), Layout(30, 15, 3, 16, 13))
    case 17 => Pick(ec, Layout(28, 107, 1, 108, 5), Layout(28, 46, 10, 47, 1), Layout(28, 22, 1, 23, 15), Layout(28, 14, 2, 15, 17))
    case 18 => Pick(ec, Layout(30, 120, 5, 121, 1), Layout(26, 43, 9, 44, 4), Layout(28, 22, 17, 23, 1), Layout(28, 14, 2, 15, 19))
    case 19 => Pick(ec, Layout(28, 113, 3, 114, 4), Layout(26, 44, 3, 45, 11), Layout(26, 21, 17, 22, 4), Layout(26, 13, 9, 14, 16))
    case 20 => Pick(ec, Layout(28, 107, 3, 108, 5), Layout(26, 41, 3, 42, 13), Layout(30, 24, 15, 25, 5), Layout(28, 15, 15, 16, 10))
    case 21 => Pick(ec, Layout(28, 116, 4, 117, 4), Layout(26, 42, 17, 0, 0), Layout(28, 22, 17, 23, 6), Layout(30, 16, 19, 17, 6))
    case 22 => Pick(ec, Layout(28, 111, 2, 112, 7), Layout(28, 46, 17, 0, 0), Layout(30, 24, 7, 25, 16), Layout(24, 13, 34, 0, 0))
    case 23 => Pick(ec, Layout(30, 121, 4, 122, 5), Layout(28, 47, 4, 48, 14), Layout(30, 24, 11, 25, 14), Layout(30, 15, 16, 16, 14))
    case 24 => Pick(ec, Layout(30, 117, 6, 118, 4), Layout(28, 45, 6, 46, 14), Layout(30, 24, 11, 25, 16), Layout(30, 16, 30, 17, 2))
    case 25 => Pick(ec, Layout(26, 106, 8, 107, 4), Layout(28, 47, 8, 48, 13), Layout(30, 24, 7, 25, 22), Layout(30, 15, 22, 16, 13))
    case 26 => Pick(ec, Layout(28, 114, 10, 115, 2), Layout(28, 46, 19, 47, 4), Layout(28, 22, 28, 23, 6), Layout(30, 16, 33, 17, 4))
    case 27 => Pick(ec, Layout(30, 122, 8, 123, 4), Layout(28, 45, 22, 46, 3), Layout(30, 23, 8, 24, 26), Layout(30, 15, 12, 16, 28))
    case 28 => Pick(ec, Layout(30, 117, 3, 118, 10), Layout(28, 45, 3, 46, 23), Layout(30, 24, 4, 25, 31), Layout(30, 15, 11, 16, 31))
    case 29 => Pick(ec, Layout(30, 116, 7, 117, 7), Layout(28, 45, 21, 46, 7), Layout(30, 23, 1, 24, 37), Layout(30, 15, 19, 16, 26))
    case 30 => Pick(ec, Layout(30, 115, 5, 116, 10), Layout(28, 47, 19, 48, 10), Layout(30, 24, 15, 25, 25), Layout(30, 15, 23, 16, 25))
    case 31 => Pick(ec, Layout(30, 115, 13, 116, 3), Layout(28, 46, 2, 47, 29), Layout(30, 24, 42, 25, 1), Layout(30, 15, 23, 16, 28))
    case 32 => Pick(ec, Layout(30, 115, 17, 0, 0), Layout(28, 46, 10, 47, 23), Layout(30, 24, 10, 25, 35), Layout(30, 15, 19, 16, 35))
    case 33 => Pick(ec, Layout(30, 115, 17, 116, 1), Layout(28, 46, 14, 47, 21), Layout(30, 24, 29, 25, 19), Layout(30, 15, 11, 16, 46))
    case 34 => Pick(ec, Layout(30, 115, 13, 116, 6), Layout(28, 46, 14, 47, 23), Layout(30, 24, 44, 25, 7), Layout(30, 16, 59, 17, 1))
    case 35 => Pick(ec, Layout(30, 121, 12, 122, 7), Layout(28, 47, 12, 48, 26), Layout(30, 24, 39, 25, 14), Layout(30, 15, 22, 16, 41))
    case 36 => Pick(ec, Layout(30, 121, 6, 122, 14), Layout(28, 47, 6, 48, 34), Layout(30, 24, 46, 25, 10), Layout(30, 15, 2, 16, 64))
    case 37 => Pick(ec, Layout(30, 122, 17, 123, 4), Layout(28, 46, 29, 47, 14), Layout(30, 24, 49, 25, 10), Layout(30, 15, 24, 16, 46))
    case 38 => Pick(ec, Layout(30, 122, 4, 123, 18), Layout(28, 46, 13, 47, 32), Layout(30, 24, 48, 25, 14), Layout(30, 15, 42, 16, 32))
    case 39 => Pick(ec, Layout(30, 117, 20, 118, 4), Layout(28, 47, 40, 48, 7), Layout(30, 24, 43, 25, 22), Layout(30, 15, 10, 16, 67))
    case _ => Pick(ec, Layout(30, 118, 19, 119, 6), Layout(28, 47, 18, 48, 31), Layout(30, 24, 34, 25, 34), Layout(30, 15, 20, 16, 61))
  }

  /** Row and column centres of the alignment patterns, for versions 7 to 40. */
  function AlignmentPositions(version: nat): seq<nat>
    requires 7 <= version <= 40
  {
    match version
    case 7 => [6, 22, 38]
    case 8 => [6, 24, 42]
    case 9 => [6, 26, 46]
    case 10 => [6, 28, 50]
    case 11 => [6, 30, 54]
    case 12 => [6, 32, 58]
    case 13 => [6, 34, 62]
    case 14 => [6, 26, 46, 66]
    case 15 => [6, 26, 48, 70]
    case 16 => [6, 26, 50, 74]
    case 17 => [6, 30, 54, 78]
    case 18 => [6, 30, 56, 82]
    case 19 => [6, 30, 58, 86]
    case 20 => [6, 34, 62, 90]
    case 21 => [6, 28, 50, 72, 94]
    case 22 => [6, 26, 50, 74, 98]
    case 23 => [6, 30, 54, 78, 102]
    case 24 => [6, 28, 54, 80, 106]
    case 25 => [6, 32, 58, 84, 110]
    case 26 => [6, 30, 58, 86, 114]
    case 27 => [6, 34, 62, 90, 118]
    case 28 => [6, 26, 50, 74, 98, 122]
    case 29 => [6, 30, 54, 78, 102, 126]
    case 30 => [6, 26, 52, 78, 104, 130]
    case 31 => [6, 30, 56, 82, 108, 134]
    case 32 => [6, 34, 60, 86, 112, 138]
    case 33 => [6, 30, 58, 86, 114, 142]
    case 34 => [6, 34, 62, 90, 118, 146]
    case 35 => [6, 30, 54, 78, 102, 126, 150]
    case 36 => [6, 24, 50, 76, 102, 128, 154]
    case 37 => [6, 28, 54, 80, 106, 132, 158]
    case 38 => [6, 32, 58, 84, 110, 136, 162]
    case 39 => [6, 26, 54, 82, 110, 138, 166]
    case _ => [6, 30, 58, 86, 114, 142, 170]
  }

  /** All centres: none for version 1, the two of the generic rule up to version 6, the table above that. */
  function Centres(version: nat): seq<nat>
    requires 1 <= version <= 40
  {
    if version == 1 then [] else if version < 7 then [6, Width(version) - 7] else AlignmentPositions(version)
  }

  function Width(version: nat): nat {
    17 + 4 * version
  }

  function Product(a: nat, b: nat): nat {
    a * b
  }

  lemma ProductStep(a: nat, b: nat)
    ensures Product(a, b) == if b == 0 then 0 else Product(a, b - 1) + a
  {
  }

  /** The number of data codewords. */
  function DataCapacity(version: nat, ec: EcLevel): nat
    requires 1 <= version <= 40
  {
    var r := BlockLayout(version, ec);
    Product(r.size1, r.count1) + Product(r.size2, r.count2)
  }

  function CountBits(version: nat): nat {
    if version <= 9 then 8 else 16
  }

  /** A payload of `len` bytes fits `version`: mode, count and data, rounded up to whole codewords. */
  predicate Holds(version: nat, len: nat, ec: EcLevel)
    requires 1 <= version <= 40
  {
    (4 + CountBits(version) + len * 8 + 7) / 8 <= DataCapacity(version, ec)
  }

  /** The smallest version that holds the payload. */
  method ChooseVersion(len: nat, ec: EcLevel) returns (r: Option<nat>)
    ensures match r
            case Some(v) => 1 <= v <= 40 && Holds(v, len, ec) && forall u :: 1 <= u < v ==> !Holds(u, len, ec)
            case None => forall u :: 1 <= u <= 40 ==> !Holds(u, len, ec)
  {
    hide DataCapacity;
    for version := 1 to 41
      invariant forall u :: 1 <= u < version ==> !Holds(u, len, ec)
    {
      var neededBits := 4 + CountBits(version) + len * 8;
      if (neededBits + 7) / 8 <= DataCapacity(version, ec) {
        return Some(version);
      }
    }
    return None;
  }

  // ----- Facts read off the tables

  function TotalCodewords(version: nat, ec: EcLevel): nat
    requires 1 <= version <= 40
  {
    var r := BlockLayout(version, ec);
    DataCapacity(version, ec) + Product(r.ecLen, r.count1 + r.count2)
  }

  // The modules of the function patterns: three 8x8 finder corners, two timing lines, 31 format
  // modules, two 3x6 version blocks, and alignment patterns of 25 modules, or 20 beside a timing line.
  function FunctionModules(version: nat): int
    requires 1 <= version <= 40
  {
    var n := |Centres(version)|;
    192 + 2 * (Width(version) - 16) + 31 + (if version >= 7 then 36 else 0) +
    (if n == 0 then 0 else 25 * (n - 1) * (n - 1) + 40 * (n - 2))
  }

  /** The codewords of each version, the same at every level. */
  function VersionCodewords(version: nat): nat
    requires 1 <= version <= 40
  {
    match version
    case 1 => 26
    case 2 => 44
    case 3 => 70
    case 4 => 100
    case 5 => 134
    case 6 => 172
    case 7 => 196
    case 8 => 242
    case 9 => 292
    case 10 => 346
    case 11 => 404
    case 12 => 466
    case 13 => 532
    case 14 => 581
    case 15 => 655
    case 16 => 733
    case 17 => 815
    case 18 => 901
    case 19 => 991
    case 20 => 1085
    case 21 => 1156
    case 22 => 1258
    case 23 => 1364
    case 24 => 1474
    case 25 => 1588
    case 26 => 1706
    case 27 => 1828
    case 28 => 1921
    case 29 => 2051
    case 30 => 2185
    case 31 => 2323
    case 32 => 2465
    case 33 => 2611
    case 34 => 2761
    case 35 => 2876
    case 36 => 3034
    case 37 => 3196
    case 38 => 3362
    case 39 => 3532
    case _ => 3706
  }

  lemma CentreCount(v: nat)
    requires 1 <= v <= 40
    ensures |Centres(v)| == if v == 1 then 0 else v / 7 + 2
  {
  }

  /** The function patterns leave room for exactly the codewords and up to seven spare modules. */
  lemma FreeModules(v: nat, n: nat)
    requires 1 <= v <= 40 && n == if v == 1 then 0 else v / 7 + 2
    ensures 0 <= (17 + 4 * v) * (17 + 4 * v)
              - (192 + 2 * (1 + 4 * v) + 31 + (if v >= 7 then 36 else 0) +
                 (if n == 0 then 0 else 25 * (n - 1) * (n - 1) + 40 * (n - 2)))
              - 8 * VersionCodewords(v) < 8
  {
  }

  predicate RowTotal(v: nat, ec: EcLevel)
    requires 1 <= v <= 40
  {
    var r := BlockLayout(v, ec);
    r.size1 * r.count1 + r.size2 * r.count2 + r.ecLen * (r.count1 + r.count2) == VersionCodewords(v)
  }

  lemma TotalL(v: nat) requires 1 <= v <= 40 ensures RowTotal(v, L) {}
  lemma TotalM(v: nat) requires 1 <= v <= 40 ensures RowTotal(v, M) {}
  lemma TotalQ(v: nat) requires 1 <= v <= 40 ensures RowTotal(v, Q) {}
  lemma TotalH(v: nat) requires 1 <= v <= 40 ensures RowTotal(v, H) {}

  predicate RowSizes(v: nat, ec: EcLevel)
    requires 1 <= v <= 40
  {
    var r := BlockLayout(v, ec);
    0 < r.ecLen <= 30 && r.size1 <= 122 && r.size2 <= 123
  }

  lemma SizesL(v: nat) requires 1 <= v <= 40 ensures RowSizes(v, L) {}
  lemma SizesM(v: nat) requires 1 <= v <= 40 ensures RowSizes(v, M) {}
  lemma SizesQ(v: nat) requires 1 <= v <= 40 ensures RowSizes(v, Q) {}
  lemma SizesH(v: nat) requires 1 <= v <= 40 ensures RowSizes(v, H) {}

  /** Every block with its error correction is at most 153 codewords. */
  lemma BlockSizes(v: nat, ec: EcLevel)
    requires 1 <= v <= 40
    ensures RowSizes(v, ec)
  {
    hide BlockLayout, RowSizes;
    match ec case L => SizesL(v); case M => SizesM(v); case Q => SizesQ(v); case H => SizesH(v);
  }

  lemma RowTotals(v: nat, ec: EcLevel)
    requires 1 <= v <= 40
    ensures TotalCodewords(v, ec) == VersionCodewords(v)
  {
    hide BlockLayout, VersionCodewords;
    match ec case L => TotalL(v); case M => TotalM(v); case Q => TotalQ(v); case H => TotalH(v);
  }

  lemma VersionNine(ec: EcLevel)
    ensures DataCapacity(9, ec) <= 232
  {
  }

  lemma TotalBounds(v: nat)
    requires 1 <= v <= 40
    ensures VersionCodewords(v) <= 3706 && (v <= 8 ==> VersionCodewords(v) <= 242)
  {
  }

  /** A payload that fits a version has a length that fits the version's count field. */
  lemma CapacityBounds(v: nat, ec: EcLevel)
    requires 1 <= v <= 40
    ensures DataCapacity(v, ec) <= 3706 && (v <= 9 ==> DataCapacity(v, ec) <= 242)
  {
    hide BlockLayout, VersionCodewords, DataCapacity;
    RowTotals(v, ec);
    TotalBounds(v);
    if v == 9 {
      VersionNine(ec);
    }
  }

  /** The free modules of every symbol hold all its codeword bits, with at most seven to spare. */
  lemma CodewordsFit(v: nat, ec: EcLevel)
    requires 1 <= v <= 40
    ensures 0 <= Width(v) * Width(v) - FunctionModules(v) - 8 * TotalCodewords(v, ec) < 8
  {
    hide TotalCodewords, Centres, VersionCodewords;
    RowTotals(v, ec);
    CentreCount(v);
    FreeModules(v, |Centres(v)|);
  }
}
