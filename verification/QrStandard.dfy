// The tables and fixed patterns by the rules of ISO/IEC 18004:2006 rather than by their entries: block rows from the
// number of blocks, alignment centres from even spacing, the patterns from their pictures.
module QrStandard {
  import opened Wrappers
  import opened BitLists
  import opened Words
  import opened HuffmanCodes
  import opened QrTables
  import opened QrData
  import opened QrGrid
  import opened QrLayout
  import opened QrFormat
  import opened QrPatterns
  import opened QrPenalty

  // ----- Block rows (section 6.5.1)

  function PickRow(ec: EcLevel, l: (nat, nat), m: (nat, nat), q: (nat, nat), h: (nat, nat)): (nat, nat) {
    match ec case L => l case M => m case Q => q case H => h
  }

  /** Error-correction codewords per block, and the number of blocks. */
  function EcAndBlocks(version: nat, ec: EcLevel): (nat, nat)
    requires 1 <= version <= 40
  {
    match version
    case 1 => PickRow(ec, (7, 1), (10, 1), (13, 1), (17, 1))
    case 2 => PickRow(ec, (10, 1), (16, 1), (22, 1), (28, 1))
    case 3 => PickRow(ec, (15, 1), (26, 1), (18, 2), (22, 2))
    case 4 => PickRow(ec, (20, 1), (18, 2), (26, 2), (16, 4))
    case 5 => PickRow(ec, (26, 1), (24, 2), (18, 4), (22, 4))
    case 6 => PickRow(ec, (18, 2), (16, 4), (24, 4), (28, 4))
    case 7 => PickRow(ec, (20, 2), (18, 4), (18, 6), (26, 5))
    case 8 => PickRow(ec, (24, 2), (22, 4), (22, 6), (26, 6))
    case 9 => PickRow(ec, (30, 2), (22, 5), (20, 8), (24, 8))
    case 10 => PickRow(ec, (18, 4), (26, 5), (24, 8), (28, 8))
    case 11 => PickRow(ec, (20, 4), (30, 5), (28, 8), (24, 11))
    case 12 => PickRow(ec, (24, 4), (22, 8), (26, 10), (28, 11))
    case 13 => PickRow(ec, (26, 4), (22, 9), (24, 12), (22, 16))
    case 14 => PickRow(ec, (30, 4), (24, 9), (20, 16), (24, 16))
    case 15 => PickRow(ec, (22, 6), (24, 10), (30, 12), (24, 18))
    case 16 => PickRow(ec, (24, 6), (28, 10), (24, 17), (30, 16))
    case 17 => PickRow(ec, (28, 6), (28, 11), (28, 16), (28, 19))
    case 18 => PickRow(ec, (30, 6), (26, 13), (28, 18), (28, 21))
    case 19 => PickRow(ec, (28, 7), (26, 14), (26, 21), (26, 25))
    case 20 => PickRow(ec, (28, 8), (26, 16), (30, 20), (28, 25))
    case 21 => PickRow(ec, (28, 8), (26, 17), (28, 23), (30, 25))
    case 22 => PickRow(ec, (28, 9), (28, 17), (30, 23), (24, 34))
    case 23 => PickRow(ec, (30, 9), (28, 18), (30, 25), (30, 30))
    case 24 => PickRow(ec, (30, 10), (28, 20), (30, 27), (30, 32))
    case 25 => PickRow(ec, (26, 12), (28, 21), (30, 29), (30, 35))
    case 26 => PickRow(ec, (28, 12), (28, 23), (28, 34), (30, 37))
    case 27 => PickRow(ec, (30, 12), (28, 25), (30, 34), (30, 40))
    case 28 => PickRow(ec, (30, 13), (28, 26), (30, 35), (30, 42))
    case 29 => PickRow(ec, (30, 14), (28, 28), (30, 38), (30, 45))
    case 30 => PickRow(ec, (30, 15), (28, 29), (30, 40), (30, 48))
    case 31 => PickRow(ec, (30, 16), (28, 31), (30, 43), (30, 51))
    case 32 => PickRow(ec, (30, 17), (28, 33), (30, 45), (30, 54))
    case 33 => PickRow(ec, (30, 18), (28, 35), (30, 48), (30, 57))
    case 34 => PickRow(ec, (30, 19), (28, 37), (30, 51), (30, 60))
    case 35 => PickRow(ec, (30, 19), (28, 38), (30, 53), (30, 63))
    case 36 => PickRow(ec, (30, 20), (28, 40), (30, 56), (30, 66))
    case 37 => PickRow(ec, (30, 21), (28, 43), (30, 59), (30, 70))
    case 38 => PickRow(ec, (30, 22), (28, 45), (30, 62), (30, 74))
    case 39 => PickRow(ec, (30, 24), (28, 47), (30, 65), (30, 77))
    case _ => PickRow(ec, (30, 25), (28, 49), (30, 68), (30, 81))
  }

  // A row follows from those two numbers and the version's codewords: these are dealt out to the blocks as evenly as
  // can be, the shorter blocks first.
  predicate Even(r: Layout, ecLen: nat, blocks: nat, total: nat) {
    && blocks > 0 && r.ecLen == ecLen && r.count1 + r.count2 == blocks
    && r.size1 + ecLen == total / blocks && r.count2 == total % blocks
    && r.size2 == if r.count2 == 0 then 0 else r.size1 + 1
  }

  predicate RowEven(v: nat, ec: EcLevel)
    requires 1 <= v <= 40
  {
    Even(BlockLayout(v, ec), EcAndBlocks(v, ec).0, EcAndBlocks(v, ec).1, VersionCodewords(v))
  }

  lemma FirstL(v: nat) requires 1 <= v <= 8 ensures RowEven(v, L) {}
  lemma FirstM(v: nat) requires 1 <= v <= 8 ensures RowEven(v, M) {}
  lemma FirstQ(v: nat) requires 1 <= v <= 8 ensures RowEven(v, Q) {}
  lemma FirstH(v: nat) requires 1 <= v <= 8 ensures RowEven(v, H) {}
  lemma SecondL(v: nat) requires 9 <= v <= 16 ensures RowEven(v, L) {}
  lemma SecondM(v: nat) requires 9 <= v <= 16 ensures RowEven(v, M) {}
  lemma SecondQ(v: nat) requires 9 <= v <= 16 ensures RowEven(v, Q) {}
  lemma SecondH(v: nat) requires 9 <= v <= 16 ensures RowEven(v, H) {}
  lemma ThirdL(v: nat) requires 17 <= v <= 24 ensures RowEven(v, L) {}
  lemma ThirdM(v: nat) requires 17 <= v <= 24 ensures RowEven(v, M) {}
  lemma ThirdQ(v: nat) requires 17 <= v <= 24 ensures RowEven(v, Q) {}
  lemma ThirdH(v: nat) requires 17 <= v <= 24 ensures RowEven(v, H) {}
  lemma FourthL(v: nat) requires 25 <= v <= 32 ensures RowEven(v, L) {}
  lemma FourthM(v: nat) requires 25 <= v <= 32 ensures RowEven(v, M) {}
  lemma FourthQ(v: nat) requires 25 <= v <= 32 ensures RowEven(v, Q) {}
  lemma FourthH(v: nat) requires 25 <= v <= 32 ensures RowEven(v, H) {}
  lemma FifthL(v: nat) requires 33 <= v <= 40 ensures RowEven(v, L) {}
  lemma FifthM(v: nat) requires 33 <= v <= 40 ensures RowEven(v, M) {}
  lemma FifthQ(v: nat) requires 33 <= v <= 40 ensures RowEven(v, Q) {}
  lemma FifthH(v: nat) requires 33 <= v <= 40 ensures RowEven(v, H) {}

  lemma RowsEven(v: nat, ec: EcLevel)
    requires 1 <= v <= 40
    ensures RowEven(v, ec)
  {
    hide RowEven;
    match ec {
      case L =>
        if v <= 8 {
          FirstL(v);
        } else if v <= 16 {
          SecondL(v);
        } else if v <= 24 {
          ThirdL(v);
        } else if v <= 32 {
          FourthL(v);
        } else {
          FifthL(v);
        }
      case M =>
        if v <= 8 {
          FirstM(v);
        } else if v <= 16 {
          SecondM(v);
        } else if v <= 24 {
          ThirdM(v);
        } else if v <= 32 {
          FourthM(v);
        } else {
          FifthM(v);
        }
      case Q =>
        if v <= 8 {
          FirstQ(v);
        } else if v <= 16 {
          SecondQ(v);
        } else if v <= 24 {
          ThirdQ(v);
        } else if v <= 32 {
          FourthQ(v);
        } else {
          FifthQ(v);
        }
      case H =>
        if v <= 8 {
          FirstH(v);
        } else if v <= 16 {
          SecondH(v);
        } else if v <= 24 {
          ThirdH(v);
        } else if v <= 32 {
          FourthH(v);
        } else {
          FifthH(v);
        }
    }
  }

  // ----- Capacity (section 6.4.10)

  /** A payload fits iff its bytes, with two codewords of header up to version 9 and three beyond, are data codewords. */
  lemma HoldsIs(version: nat, len: nat, ec: EcLevel)
    requires 1 <= version <= 40
    ensures Holds(version, len, ec) <==> len + (if version <= 9 then 2 else 3) <= DataCapacity(version, ec)
  {
    hide DataCapacity;
    HeaderBytes(len, 12);
    HeaderBytes(len, 20);
  }

  lemma HeaderBytes(len: nat, header: nat)
    requires header == 12 || header == 20
    ensures (header + len * 8 + 7) / 8 == len + (header + 4) / 8
  {
  }

  /** The four mode bits, the length in eight bits up to version 9 and in sixteen beyond, and the bytes. */
  lemma SegmentIs(data: seq<byte>, version: nat, ec: EcLevel)
    requires 1 <= version <= 40 && Holds(version, |data|, ec)
    ensures var head := [false, true, false, false] + MsbBits(|data|, if version <= 9 then 8 else 16) + MsbStream(data);
            |head| <= |MsbStream(EncodedData(data, version, ec))| && head <= MsbStream(EncodedData(data, version, ec))
  {
    hide Holds, MsbBits, MsbStream, DataCapacity, MsbToBytes, TerminatedBits;
    HoldsRoom(data, version, ec);
    ModeBits();
    var cap := DataCapacity(version, ec);
    var t := TerminatedBits(data, version, cap);
    var pads := Pads(cap - |t| / 8);
    MsbStreamAppend(MsbToBytes(t), pads);
    MsbStreamOfBytes(t);
    var tail := SegmentPrefix(data, version, cap);
    assert MsbStream(EncodedData(data, version, ec)) == SegmentBits(data, version) + (tail + MsbStream(pads));
  }

  lemma ModeBits()
    ensures MsbBits(MODE_BYTE, 4) == [false, true, false, false]
  {
    assert Shr(4, 3) == 0 && Shr(4, 2) == 1 && Shr(4, 1) == 2 && Shr(4, 0) == 4;
  }

  // ----- Alignment centres (annex E)

  /** The least even number of which `gaps` together reach `span`. */
  predicate LeastEven(step: int, gaps: nat, span: nat) {
    step % 2 == 0 && step >= 2 && gaps * step >= span && gaps * (step - 2) < span
  }

  function Gap(cs: seq<nat>, i: nat): int
    requires 0 < i < |cs|
  {
    cs[i] as int - cs[i - 1] as int
  }

  // Two centres more than a seventh of the version, between 6 and seven from the far edge; all gaps but the first are
  // the least even one that suffices, but for version 32, whose gap is two less.
  predicate CentresEven(cs: seq<nat>, version: nat) {
    var w, n := Width(version), |cs|;
    && n == version / 7 + 2 && cs[0] == 6 && cs[n - 1] == w - 7
    && LeastEven(Gap(cs, n - 1) + (if version == 32 then 2 else 0), n - 1, w - 13)
    && forall i :: 1 < i < n ==> Gap(cs, i) == Gap(cs, n - 1)
  }

  lemma CentresTo6(version: nat)
    requires 2 <= version <= 6
    ensures CentresEven(Centres(version), version)
  {
  }

  lemma CentresTo13(version: nat)
    requires 7 <= version <= 13
    ensures CentresEven(Centres(version), version)
  {
  }

  lemma CentresTo17(version: nat)
    requires 14 <= version <= 17
    ensures CentresEven(Centres(version), version)
  {
  }

  lemma CentresTo20(version: nat)
    requires 18 <= version <= 20
    ensures CentresEven(Centres(version), version)
  {
  }

  lemma CentresTo23(version: nat)
    requires 21 <= version <= 23
    ensures CentresEven(Centres(version), version)
  {
  }

  lemma CentresTo27(version: nat)
    requires 24 <= version <= 27
    ensures CentresEven(Centres(version), version)
  {
  }

  lemma CentresTo29(version: nat)
    requires 28 <= version <= 29
    ensures CentresEven(Centres(version), version)
  {
  }

  lemma CentresTo32(version: nat)
    requires 30 <= version <= 32
    ensures CentresEven(Centres(version), version)
  {
  }

  lemma CentresTo34(version: nat)
    requires 33 <= version <= 34
    ensures CentresEven(Centres(version), version)
  {
  }

  lemma CentresTo36(version: nat)
    requires 35 <= version <= 36
    ensures CentresEven(Centres(version), version)
  {
  }

  lemma CentresTo38(version: nat)
    requires 37 <= version <= 38
    ensures CentresEven(Centres(version), version)
  {
  }

  lemma CentresTo40(version: nat)
    requires 39 <= version <= 40
    ensures CentresEven(Centres(version), version)
  {
  }

  lemma CentresRule(version: nat)
    requires 2 <= version <= 40
    ensures CentresEven(Centres(version), version)
  {
    hide Centres, CentresEven;
    if version <= 6 {
      CentresTo6(version);
    } else if version <= 13 {
      CentresTo13(version);
    } else if version <= 17 {
      CentresTo17(version);
    } else if version <= 20 {
      CentresTo20(version);
    } else if version <= 23 {
      CentresTo23(version);
    } else if version <= 27 {
      CentresTo27(version);
    } else if version <= 29 {
      CentresTo29(version);
    } else if version <= 32 {
      CentresTo32(version);
    } else if version <= 34 {
      CentresTo34(version);
    } else if version <= 36 {
      CentresTo36(version);
    } else if version <= 38 {
      CentresTo38(version);
    } else {
      CentresTo40(version);
    }
  }

  // ----- The patterns (sections 6.3.3 to 6.3.6)

  const FINDER: seq<string> := [
    "#######",
    "#.....#",
    "#.###.#",
    "#.###.#",
    "#.###.#",
    "#.....#",
    "#######"]

  /** A finder pattern is its 7x7 picture; the separator around it is light. */
  lemma FinderPicture(dx: int, dy: int)
    ensures FinderDark(dx, dy) <==> 0 <= dx < 7 && 0 <= dy < 7 && FINDER[dy][dx] == '#'
  {
    if 0 <= dx < 7 && 0 <= dy < 7 {
      FinderRow(dx, dy);
    }
  }

  lemma FinderRow(dx: int, dy: int)
    requires 0 <= dx < 7 && 0 <= dy < 7
    ensures FinderDark(dx, dy) <==> FINDER[dy][dx] == '#'
  {
    if dy == 0 || dy == 6 {
    } else if dy == 1 || dy == 5 {
    } else {
    }
  }

  const ALIGNMENT: seq<string> := [
    "#####",
    "#...#",
    "#.#.#",
    "#...#",
    "#####"]

  /** An alignment pattern is its 5x5 picture around the centre. */
  lemma AlignmentPicture(cx: int, cy: int, p: Pos)
    requires InAlignment(cx, cy, p)
    ensures AlignmentDark(cx, cy, p) <==> ALIGNMENT[p.1 - cy + 2][p.0 - cx + 2] == '#'
  {
    AlignmentRow(p.0 - cx, p.1 - cy);
  }

  lemma AlignmentRow(dx: int, dy: int)
    requires -2 <= dx <= 2 && -2 <= dy <= 2
    ensures AlignmentDark(0, 0, (dx, dy)) <==> ALIGNMENT[dy + 2][dx + 2] == '#'
  {
    if dy == -2 || dy == 2 {
    } else if dy == -1 || dy == 1 {
    } else {
    }
  }

  /** The timing lines alternate, dark in column and row 8. */
  lemma TimingAlternates(w: nat, k: int)
    ensures TimingDark((8, 6)) && TimingDark((6, 8))
    ensures k > 6 ==> TimingDark((k + 1, 6)) != TimingDark((k, 6)) && TimingDark((6, k + 1)) != TimingDark((6, k))
  {
  }

  /** What the third penalty rule looks for is the middle of a finder pattern, across and down. */
  lemma PatternIsFinder(k: nat)
    requires k < 7
    ensures |PATTERN| == 7 && PATTERN[k] == FinderDark(k, 3) == FinderDark(3, k)
  {
  }

  lemma {:induction false} ZeroRemainder(generator: word, degree: nat, n: nat)
    requires degree + n <= 32
    ensures Remainder(0, generator, degree, n) == 0
  {
    if n > 0 {
      ZeroRemainder(generator, degree, n - 1);
    }
  }

  lemma ZeroParts()
    ensures FormatData(M, 0) == 0 && Raised(0, 10) == 0 && Stamped(Both(0, 0)) == 0x5412
  {
  }

  /** Level M under mask 0 has no data bit set, so its format word is the fixed mask 101010000010010. */
  lemma ZeroFormat()
    ensures FormatWord(M, 0) == 0x5412
  {
    hide FormatData, Raised, Both, Stamped, Remainder;
    ZeroParts();
    ZeroRemainder(0x537, 10, 5);
  }

  /** Padding codewords alternate, 11101100 first (section 6.4.9). */
  lemma PadsAlternate(n: nat, i: nat)
    requires i < n
    ensures Pads(n)[i] == 236 || Pads(n)[i] == 17
    ensures Pads(n)[0] == 236 && (i + 1 < n ==> Pads(n)[i + 1] != Pads(n)[i])
  {
  }
}
