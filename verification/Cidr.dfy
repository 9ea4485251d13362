/** IPv4 and IPv6 networks over their address integers: masks, containment, hosts, and the range iterators. */
module Cidr {
  import opened Wrappers
  import opened Words

  const V4: nat := 32
  const V6: nat := 128

  /** An address as written, host bits included, and a prefix length; `width` is the family's. */
  datatype IpNet = IpNet(width: nat, addr: nat, prefixLen: nat) {
    predicate Valid() {
      addr < Pow2(width) && prefixLen <= width
    }

    function HostBits(): nat
      requires Valid()
    {
      width - prefixLen
    }

    /** `prefixLen` leading ones; a shift by the full width is avoided by the explicit case. */
    function Mask(): nat
      requires Valid()
    {
      if prefixLen == 0 then 0 else Shl(Pow2(width) - 1, width - prefixLen, width)
    }

    function Network(): nat
      requires Valid()
    {
      And(addr, Mask())
    }

    function Broadcast(): nat
      requires Valid()
    {
      Or(addr, Not(Mask(), width))
    }

    predicate Contains(other: nat)
      requires Valid()
    {
      And(other, Mask()) == And(addr, Mask())
    }
  }

  /** `!x` on a word of `width` bits. */
  function Not(x: nat, width: nat): int {
    Pow2(width) - 1 - x
  }

  // ----- What the mask arithmetic amounts to

  lemma OrOdd(a: nat, m: nat)
    ensures Or(a, 2 * m + 1) == 1 + 2 * Or(a / 2, m)
  {
    assert (2 * m + 1) / 2 == m;
  }

  lemma {:induction false} AndHighMask(a: nat, width: nat, h: nat)
    requires a < Pow2(width) && h <= width
    ensures Pow2(h) <= Pow2(width) && And(a, Pow2(width) - Pow2(h)) + Low(a, h) == a
    decreases h
  {
    hide And;
    Pow2Monotone(h, width);
    if h == 0 {
      AndMask(a, width);
      LowSmall(a, width);
    } else {
      AndHighMask(a / 2, width - 1, h - 1);
      AndEven(a, Pow2(width - 1) - Pow2(h - 1));
    }
  }

  lemma {:induction false} OrLowMask(a: nat, h: nat)
    ensures Or(a, Pow2(h) - 1) + Low(a, h) == a + Pow2(h) - 1
    decreases h
  {
    hide Or;
    if h == 0 {
      OrZero(a);
    } else {
      OrLowMask(a / 2, h - 1);
      OrOdd(a, Pow2(h - 1) - 1);
    }
  }

  /** Shifting all ones left by `h` clears exactly the low `h` bits. */
  lemma ShiftedOnes(width: nat, h: nat)
    requires h < width
    ensures Pow2(h) <= Pow2(width) && Shl(Pow2(width) - 1, h, width) == Pow2(width) - Pow2(h)
  {
    hide Pow2;
    var w, p := Pow2(width), Pow2(h);
    Pow2Monotone(h, width);
    OnesTimes(w, p);
    DivUnique((w - 1) * p, w, p - 1, w - p);
  }

  lemma OnesTimes(w: nat, p: nat)
    requires 1 <= p <= w
    ensures (w - 1) * p == (p - 1) * w + (w - p)
  {
  }

  lemma MaskIs(net: IpNet)
    requires net.Valid()
    ensures Pow2(net.HostBits()) <= Pow2(net.width)
    ensures net.Mask() == Pow2(net.width) - Pow2(net.HostBits())
  {
    if net.prefixLen > 0 {
      ShiftedOnes(net.width, net.HostBits());
    }
  }

  /** A network is the aligned block of `2^h` addresses around the address as written. */
  lemma BlockIs(net: IpNet)
    requires net.Valid()
    ensures net.Network() == net.addr - Low(net.addr, net.HostBits())
    ensures net.Broadcast() == net.Network() + Pow2(net.HostBits()) - 1
  {
    MaskIs(net);
    AndHighMask(net.addr, net.width, net.HostBits());
    OrLowMask(net.addr, net.HostBits());
  }

  lemma LowBound(x: nat, h: nat)
    ensures Low(x, h) < Pow2(h) && Low(x, h) <= x && (x - Low(x, h)) % Pow2(h) == 0
  {
    LowIsMod(x, h);
    DivMul(x / Pow2(h), Pow2(h));
    assert x - x % Pow2(h) == x / Pow2(h) * Pow2(h);
  }

  /** Aligned blocks of `2^h` addresses are disjoint or equal. */
  lemma SameBlock(a: nat, b: nat, h: nat)
    ensures a - Low(a, h) == b - Low(b, h) <==> a - Low(a, h) <= b < a - Low(a, h) + Pow2(h)
  {
    hide Pow2, Low;
    LowIsMod(a, h);
    LowIsMod(b, h);
    SameMultiple(a, b, Pow2(h));
  }

  lemma SameMultiple(a: nat, b: nat, m: nat)
    requires m > 0
    ensures a - a % m == b - b % m <==> a - a % m <= b < a - a % m + m
  {
    var base := a / m * m;
    assert base == a - a % m;
    if base <= b < base + m {
      DivUnique(b, m, a / m, b - base);
    }
  }

  /** Containment is lying between the network and the broadcast address, and the network is inside the space. */
  lemma ContainsRange(net: IpNet, other: nat)
    requires net.Valid() && other < Pow2(net.width)
    ensures net.Contains(other) <==> net.Network() <= other <= net.Broadcast()
    ensures net.Broadcast() < Pow2(net.width) && net.Contains(net.addr)
  {
    hide Low;
    BlockIs(net);
    MaskIs(net);
    AndHighMask(other, net.width, net.HostBits());
    SameBlock(net.addr, other, net.HostBits());
    AndHighMask(net.addr, net.width, net.HostBits());
    BroadcastFits(net);
  }

  lemma BroadcastFits(net: IpNet)
    requires net.Valid()
    ensures net.Network() <= net.addr <= net.Broadcast() < Pow2(net.width)
  {
    hide Low, And, Or, Pow2;
    var h := net.HostBits();
    BlockIs(net);
    LowBound(net.addr, h);
    Pow2Add(net.prefixLen, h);
    LowIsMod(net.addr, h);
    LastBlock(net.addr, Pow2(h), Pow2(net.prefixLen));
  }

  lemma LastBlock(a: nat, m: nat, k: nat)
    requires m > 0 && a < k * m
    ensures a - a % m + m <= k * m
  {
    QuotientBelow(a, m, k);
    MulMonotone(a / m + 1, k, m);
    assert a - a % m == a / m * m;
  }

  // ----- Hosts

  ghost function Range(low: nat, high: int): seq<nat> {
    if low > high then [] else seq(high - low + 1, i requires 0 <= i => low + i)
  }

  function SaturatingAdd(x: nat, y: nat, width: nat): nat {
    if x + y < Pow2(width) then x + y else Pow2(width) - 1
  }

  function SaturatingSub(x: nat, y: nat): nat {
    if x >= y then x - y else 0
  }

  function FirstHost(net: IpNet): nat
    requires net.Valid()
  {
    if net.width == V4 && net.prefixLen < 31 then SaturatingAdd(net.Network(), 1, V4) else net.Network()
  }

  function LastHost(net: IpNet): nat
    requires net.Valid()
  {
    if net.width == V4 && net.prefixLen < 31 then SaturatingSub(net.Broadcast(), 1) else net.Broadcast()
  }

  /** The assignable addresses, in order. */
  ghost function Hosts(net: IpNet): seq<nat>
    requires net.Valid()
  {
    Range(FirstHost(net), LastHost(net))
  }

  // Every address of the network is a host, except the first and last of an IPv4 network with a prefix
  // shorter than 31.
  lemma HostsAre(net: IpNet, a: nat)
    requires net.Valid()
    ensures a in Hosts(net) <==>
              && a < Pow2(net.width) && net.Contains(a)
              && (net.width == 32 && net.prefixLen < 31 ==> a != net.Network() && a != net.Broadcast())
    ensures |Hosts(net)| == Pow2(net.HostBits()) - if net.width == 32 && net.prefixLen < 31 then 2 else 0
  {
    hide Low, Or, And, FirstHost, LastHost, Pow2, Range;
    BroadcastFits(net);
    HostBounds(net);
    if a < Pow2(net.width) {
      ContainsRange(net, a);
    }
    InRange(FirstHost(net), LastHost(net), a);
  }

  lemma HostBounds(net: IpNet)
    requires net.Valid()
    ensures var small := net.width == V4 && net.prefixLen < 31;
            && FirstHost(net) == net.Network() + (if small then 1 else 0)
            && LastHost(net) == net.Broadcast() - (if small then 1 else 0)
    ensures net.Broadcast() - net.Network() + 1 == Pow2(net.HostBits())
    ensures net.width == V4 && net.prefixLen < 31 ==> FirstHost(net) <= LastHost(net)
    ensures net.Network() <= net.Broadcast()
  {
    hide Low, Or, And, Pow2;
    BroadcastFits(net);
    BlockIs(net);
    if net.width == V4 && net.prefixLen < 31 {
      Pow2Monotone(2, net.HostBits());
      Four();
    }
  }

  lemma Four()
    ensures Pow2(2) == 4
  {
  }

  lemma InRange(low: nat, high: int, a: nat)
    ensures a in Range(low, high) <==> low <= a <= high
    ensures |Range(low, high)| == if low > high then 0 else high - low + 1
  {
    if low <= a <= high {
      assert Range(low, high)[a - low] == a;
    }
  }

  /** The inclusive iterator: exhaustion is a flag, because the last address may be the last of the space. */
  class AddressRange {
    ghost const width: nat
    var next: nat
    var end: nat
    var done: bool

    ghost predicate Valid()
      reads this
    {
      next < Pow2(width) && end < Pow2(width)
    }

    /** What is still to come. */
    ghost function Rest(): seq<nat>
      reads this
    {
      if done then [] else Range(next, end)
    }

    constructor (ghost width: nat, next: nat, end: nat)
      requires next < Pow2(width) && end < Pow2(width)
      ensures Valid() && Rest() == Range(next, end)
    {
      this.width := width;
      this.next := next;
      this.end := end;
      this.done := false;
    }

    method Next() returns (r: Option<nat>)
      requires Valid()
      modifies this
      ensures Valid()
      ensures match r
              case None => old(Rest()) == [] && Rest() == []
              case Some(a) => old(Rest()) == [a] + Rest()
    {
      if done || next > end {
        return None;
      }
      var out := next;
      if next == end {
        done := true;
      } else {
        next := next + 1;
      }
      return Some(out);
    }
  }

  method HostRange(net: IpNet) returns (range: AddressRange)
    requires net.Valid()
    ensures fresh(range) && range.Valid() && range.Rest() == Hosts(net)
  {
    hide Low, Or, And;
    BroadcastFits(net);
    var start := net.Network();
    var end := net.Broadcast();
    if net.width == V4 && net.prefixLen < 31 {
      start := SaturatingAdd(start, 1, V4);
      end := SaturatingSub(end, 1);
    }
    range := new AddressRange(net.width, start, end);
  }
}
