/** Bit lists, least significant bit first, and the byte strings they come from. */
module BitLists {
  import opened Words

  type Bits = seq<bool>

  /** The low `n` bits of `v`, least significant first. */
  function ToBits(v: nat, n: nat): (bits: Bits)
    ensures |bits| == n
  {
    if n == 0 then [] else [v % 2 == 1] + ToBits(v / 2, n - 1)
  }

  /** The number whose bits, least significant first, are `bits`. */
  function FromBits(bits: Bits): nat {
    if bits == [] then 0 else (if bits[0] then 1 else 0) + 2 * FromBits(bits[1..])
  }

  /** The bits of a byte string in the order DEFLATE reads them. */
  function ByteBits(data: seq<byte>): (bits: Bits)
    ensures |bits| == 8 * |data|
  {
    if data == [] then [] else ToBits(data[0], 8) + ByteBits(data[1..])
  }

  lemma {:induction false} FromToBits(v: nat, n: nat)
    ensures FromBits(ToBits(v, n)) == Low(v, n)
  {
    if n != 0 {
      FromToBits(v / 2, n - 1);
      assert ToBits(v, n)[1..] == ToBits(v / 2, n - 1);
    }
  }

  lemma {:induction false} ToFromBits(bits: Bits)
    ensures FromBits(bits) < Pow2(|bits|)
    ensures ToBits(FromBits(bits), |bits|) == bits
  {
    if bits != [] {
      ToFromBits(bits[1..]);
    }
  }

  /** Two words below `2^n` with the same bits are the same word. */
  lemma ToBitsInjective(a: nat, b: nat, n: nat)
    requires a < Pow2(n) && b < Pow2(n) && ToBits(a, n) == ToBits(b, n)
    ensures a == b
  {
    FromToBits(a, n);
    FromToBits(b, n);
    LowSmall(a, n);
    LowSmall(b, n);
  }

  lemma {:induction false} ToBitsSplit(v: nat, m: nat, n: nat)
    ensures ToBits(v, m + n) == ToBits(v, m) + ToBits(Shr(v, m), n)
  {
    if m != 0 {
      ToBitsSplit(v / 2, m - 1, n);
      assert m + n - 1 == m - 1 + n;
    }
  }

  /** Only the low `n` bits show in the low `n` bits. */
  lemma ToBitsLow(v: nat, n: nat)
    ensures ToBits(Low(v, n), n) == ToBits(v, n)
  {
    FromToBits(v, n);
    ToFromBits(ToBits(v, n));
  }

  /** Bits above `2^m` stack on top of a word below it. */
  lemma ToBitsAppend(a: nat, b: nat, m: nat, n: nat)
    requires a < Pow2(m)
    ensures ToBits(a + b * Pow2(m), m + n) == ToBits(a, m) + ToBits(b, n)
  {
    var v := a + b * Pow2(m);
    ToBitsSplit(v, m, n);
    ShrIsDivision(v, m);
    DivUnique(v, Pow2(m), b, a);
    LowIsMod(v, m);
    ToBitsLow(v, m);
  }

  lemma {:induction false} ByteBitsAppend(a: seq<byte>, b: seq<byte>)
    ensures ByteBits(a + b) == ByteBits(a) + ByteBits(b)
  {
    hide ToBits;
    if a == [] {
      assert a + b == b;
    } else {
      ByteBitsAppend(a[1..], b);
      assert (a + b)[1..] == a[1..] + b;
    }
  }

  lemma AppendAssoc<T>(a: seq<T>, b: seq<T>, c: seq<T>)
    ensures a + (b + c) == a + b + c
  {
  }

  lemma CutAppend<T>(s: seq<T>, a: seq<T>, b: seq<T>, n: nat)
    requires s == a + b && |a| == n
    ensures s[..n] == a && s[n..] == b
  {
  }

  lemma ByteBitsDrop(data: seq<byte>, i: nat)
    requires i <= |data|
    ensures ByteBits(data)[..8 * i] == ByteBits(data[..i])
    ensures ByteBits(data)[8 * i..] == ByteBits(data[i..])
  {
    hide ByteBits;
    ByteBitsAppend(data[..i], data[i..]);
    assert data == data[..i] + data[i..];
    CutAppend(ByteBits(data), ByteBits(data[..i]), ByteBits(data[i..]), 8 * i);
  }
}
