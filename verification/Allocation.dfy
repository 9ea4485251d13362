/** First-fit address allocation, the client table it keeps consistent, and reassignment to a new network. */
module Allocation {
  import opened Wrappers
  import opened Words
  import opened Cidr

  // ----- First fit

  /** The addresses never handed out: the server's, and for IPv6 the address as written. */
  predicate Skips(net: IpNet, a: nat) {
    a == net.addr + 1 || (net.width == V6 && a == net.addr)
  }

  ghost function Offered(net: IpNet, hosts: seq<nat>): seq<nat> {
    if hosts == [] then []
    else (if Skips(net, hosts[0]) then [] else [hosts[0]]) + Offered(net, hosts[1..])
  }

  /** The hosts a client may get, in order. */
  ghost function Available(net: IpNet): seq<nat>
    requires net.Valid()
  {
    Offered(net, Hosts(net))
  }

  ghost function FirstFree(avail: seq<nat>, used: seq<nat>): Option<nat> {
    if avail == [] then None
    else if avail[0] !in used then Some(avail[0])
    else FirstFree(avail[1..], used)
  }

  ghost predicate Increasing(s: seq<nat>) {
    forall i, j :: 0 <= i < j < |s| ==> s[i] < s[j]
  }

  lemma {:induction false} OfferedIs(net: IpNet, hosts: seq<nat>)
    requires Increasing(hosts)
    ensures Increasing(Offered(net, hosts))
    ensures forall a :: a in Offered(net, hosts) <==> a in hosts && !Skips(net, a)
    decreases |hosts|
  {
    if hosts != [] {
      OfferedIs(net, hosts[1..]);
      assert hosts == [hosts[0]] + hosts[1..];
      FirstIsLeast(hosts);
      if !Skips(net, hosts[0]) {
        PrependIncreasing(hosts[0], Offered(net, hosts[1..]));
      }
    }
  }

  lemma PrependIncreasing(x: nat, s: seq<nat>)
    requires Increasing(s) && forall a :: a in s ==> x < a
    ensures Increasing([x] + s)
  {
    forall i, j | 0 <= i < j < |[x] + s|
      ensures ([x] + s)[i] < ([x] + s)[j]
    {
      assert s[j - 1] in s;
    }
  }

  lemma FirstIsLeast(s: seq<nat>)
    requires Increasing(s) && s != []
    ensures forall b :: b in s ==> s[0] <= b
    ensures forall b :: b in s[1..] ==> s[0] < b
  {
    forall b | b in s[1..]
      ensures s[0] < b
    {
      var k :| 0 <= k < |s[1..]| && s[1..][k] == b;
      assert s[k + 1] == b;
    }
    assert s == [s[0]] + s[1..];
  }

  lemma AvailableIs(net: IpNet)
    requires net.Valid()
    ensures Increasing(Available(net))
    ensures forall a: nat :: a in Available(net) <==> a in Hosts(net) && !Skips(net, a)
  {
    OfferedIs(net, Hosts(net));
  }

  lemma {:induction false} FirstFreeIs(avail: seq<nat>, used: seq<nat>)
    requires Increasing(avail)
    ensures match FirstFree(avail, used)
            case Some(a) => a in avail && a !in used && forall b :: b in avail && b < a ==> b in used
            case None => forall b :: b in avail ==> b in used
    decreases |avail|
  {
    if avail != [] {
      FirstFreeIs(avail[1..], used);
      assert avail == [avail[0]] + avail[1..];
      FirstIsLeast(avail);
    }
  }

  /** The allocator returns the least host that is neither reserved nor used, and fails exactly when there is none. */
  lemma NextIsLeast(net: IpNet, used: seq<nat>)
    requires net.Valid()
    ensures match FirstFree(Available(net), used)
            case Some(a) =>
              && a in Hosts(net) && !Skips(net, a) && a !in used
              && forall b: nat :: b in Hosts(net) && b < a ==> Skips(net, b) || b in used
            case None => forall b: nat :: b in Hosts(net) ==> Skips(net, b) || b in used
  {
    hide Hosts, Offered, FirstFree, Skips;
    AvailableIs(net);
    FirstFreeIs(Available(net), used);
  }

  lemma {:induction false} NoMoreThan(s: seq<nat>, used: seq<nat>)
    requires Increasing(s) && forall a :: a in s ==> a in used
    ensures |s| <= |used|
    decreases |s|
  {
    if s != [] {
      assert s[0] in s;
      var k :| 0 <= k < |used| && used[k] == s[0];
      var rest := used[..k] + used[k + 1..];
      forall a | a in s[1..]
        ensures a in rest
      {
        var j :| 0 <= j < |s[1..]| && s[1..][j] == a;
        assert s[j + 1] == a && a in used;
        var i :| 0 <= i < |used| && used[i] == a;
        assert i != k;
        if i < k { assert rest[i] == a; } else { assert rest[i - 1] == a; }
      }
      NoMoreThan(s[1..], rest);
    }
  }

  /** How many reserved addresses lie among the hosts. */
  ghost function Reserved(net: IpNet): nat
    requires net.Valid()
  {
    (if net.addr + 1 in Hosts(net) then 1 else 0) + if net.width == V6 && net.addr in Hosts(net) then 1 else 0
  }

  lemma {:induction false} OfferedCount(net: IpNet, hosts: seq<nat>)
    requires Increasing(hosts)
    ensures |Offered(net, hosts)| == |hosts| - (if net.addr + 1 in hosts then 1 else 0)
                                             - if net.width == V6 && net.addr in hosts then 1 else 0
    decreases |hosts|
  {
    if hosts != [] {
      OfferedCount(net, hosts[1..]);
      assert hosts == [hosts[0]] + hosts[1..];
      FirstIsLeast(hosts);
    }
  }

  lemma RangeIncreasing(net: IpNet)
    requires net.Valid()
    ensures Increasing(Hosts(net))
  {
  }

  /** Allocation cannot fail while fewer addresses are used than the network has unreserved hosts. */
  lemma Pigeonhole(net: IpNet, used: seq<nat>)
    requires net.Valid()
    ensures |Available(net)| == |Hosts(net)| - Reserved(net)
    ensures |used| < |Hosts(net)| - Reserved(net) ==> FirstFree(Available(net), used).Some?
  {
    hide Hosts, FirstFree, Skips;
    RangeIncreasing(net);
    OfferedCount(net, Hosts(net));
    AvailableIs(net);
    FirstFreeIs(Available(net), used);
    if FirstFree(Available(net), used) == None {
      NoMoreThan(Available(net), used);
    }
  }

  method NextIpv4(net: IpNet, used: seq<nat>) returns (r: Option<nat>)
    requires net.Valid() && net.width == V4 && net.addr + 1 < Pow2(V4)
    ensures r == FirstFree(Available(net), used)
  {
    hide Pow2, Hosts, Range;
    var serverIp := net.addr + 1;
    var hosts := HostRange(net);
    while true
      invariant hosts.Valid() && fresh(hosts)
      invariant FirstFree(Offered(net, hosts.Rest()), used) == FirstFree(Available(net), used)
      decreases |hosts.Rest()|
    {
      var host := hosts.Next();
      match host {
        case None =>
          return None;
        case Some(ip) =>
          OfferedStep(net, ip, hosts.Rest(), used);
          if ip != serverIp && ip !in used {
            return Some(ip);
          }
      }
    }
  }

  lemma OfferedStep(net: IpNet, a: nat, rest: seq<nat>, used: seq<nat>)
    ensures FirstFree(Offered(net, [a] + rest), used)
            == if !Skips(net, a) && a !in used then Some(a) else FirstFree(Offered(net, rest), used)
  {
    assert ([a] + rest)[1..] == rest;
    if !Skips(net, a) {
      assert ([a] + Offered(net, rest))[1..] == Offered(net, rest);
    } else {
      assert [] + Offered(net, rest) == Offered(net, rest);
    }
  }

  method NextIpv6(net: IpNet, used: seq<nat>) returns (r: Option<nat>)
    requires net.Valid() && net.width == V6 && net.addr + 1 < Pow2(V6)
    ensures r == FirstFree(Available(net), used)
  {
    hide Pow2, Hosts, Range;
    var networkAddr := net.addr;
    var serverIp := net.addr + 1;
    var hosts := HostRange(net);
    while true
      invariant hosts.Valid() && fresh(hosts)
      invariant FirstFree(Offered(net, hosts.Rest()), used) == FirstFree(Available(net), used)
      decreases |hosts.Rest()|
    {
      var host := hosts.Next();
      match host {
        case None =>
          return None;
        case Some(ip) =>
          OfferedStep(net, ip, hosts.Rest(), used);
          if ip != networkAddr && ip != serverIp && ip !in used {
            return Some(ip);
          }
      }
    }
  }

  /** The base address of an IPv6 network is kept back exactly when the network is written without host bits. */
  lemma BaseAddressOffered(net: IpNet)
    requires net.Valid() && net.width == 128
    ensures net.Network() in Available(net) <==> net.addr != net.Network()
  {
    hide Pow2, Low, And, Or;
    AvailableIs(net);
    HostsAre(net, net.Network());
    BroadcastFits(net);
    ContainsRange(net, net.Network());
  }

  // ----- The client table

  datatype Client = Client(id: nat, v4: Option<nat>, v6: Option<nat>)

  function UsedV4(rows: seq<Client>): seq<nat> {
    if rows == [] then [] else (if rows[0].v4.Some? then [rows[0].v4.value] else []) + UsedV4(rows[1..])
  }

  function UsedV6(rows: seq<Client>): seq<nat> {
    if rows == [] then [] else (if rows[0].v6.Some? then [rows[0].v6.value] else []) + UsedV6(rows[1..])
  }

  lemma {:induction false} UsedIs(rows: seq<Client>)
    ensures forall c :: c in rows && c.v4.Some? ==> c.v4.value in UsedV4(rows)
    ensures forall c :: c in rows && c.v6.Some? ==> c.v6.value in UsedV6(rows)
    decreases |rows|
  {
    if rows != [] {
      UsedIs(rows[1..]);
      assert rows == [rows[0]] + rows[1..];
    }
  }

  /** An address a client of `net` may hold. */
  ghost predicate Usable(net: IpNet, a: nat)
    requires net.Valid()
  {
    a < Pow2(net.width) && net.Contains(a) && a in Hosts(net) && !Skips(net, a)
  }

  lemma AvailableUsable(net: IpNet, a: nat)
    requires net.Valid() && a in Available(net)
    ensures Usable(net, a)
  {
    hide Pow2, Hosts, Offered, Skips;
    AvailableIs(net);
    HostsAre(net, a);
  }

  ghost predicate ValidNets(net4: IpNet, net6: Option<IpNet>) {
    && net4.Valid() && net4.width == V4 && net4.addr + 1 < Pow2(V4)
    && (net6.Some? ==> net6.value.Valid() && net6.value.width == V6 && net6.value.addr + 1 < Pow2(V6))
  }

  ghost predicate RowUsable(c: Client, net4: IpNet, net6: Option<IpNet>)
    requires ValidNets(net4, net6)
  {
    && c.v4.Some? && Usable(net4, c.v4.value)
    && (c.v6.Some? ==> net6.Some? && Usable(net6.value, c.v6.value))
  }

  predicate Clash(a: Client, b: Client) {
    a.id == b.id || (a.v4.Some? && a.v4 == b.v4) || (a.v6.Some? && a.v6 == b.v6)
  }

  /** Every client's addresses are inside the networks and off the server's, and no two clients share one. */
  ghost predicate Allocated(rows: seq<Client>, net4: IpNet, net6: Option<IpNet>)
    requires ValidNets(net4, net6)
  {
    && (forall c :: c in rows ==> RowUsable(c, net4, net6))
    && forall i, j :: 0 <= i < j < |rows| ==> !Clash(rows[i], rows[j])
  }

  datatype Table = Table(rows: seq<Client>, nextId: nat)

  ghost predicate TableOk(t: Table, net4: IpNet, net6: Option<IpNet>)
    requires ValidNets(net4, net6)
  {
    Allocated(t.rows, net4, net6) && forall c :: c in t.rows ==> c.id < t.nextId
  }

  /** The row an allocating create would insert, when both families have an address left. */
  ghost function NewClient(t: Table, net4: IpNet, net6: Option<IpNet>): Option<Client>
    requires ValidNets(net4, net6)
  {
    match FirstFree(Available(net4), UsedV4(t.rows))
    case None => None
    case Some(a) =>
      if net6 == None then Some(Client(t.nextId, Some(a), None))
      else match FirstFree(Available(net6.value), UsedV6(t.rows))
        case None => None
        case Some(b) => Some(Client(t.nextId, Some(a), Some(b)))
  }

  function Without(rows: seq<Client>, id: nat): seq<Client> {
    if rows == [] then []
    else (if rows[0].id == id then [] else [rows[0]]) + Without(rows[1..], id)
  }

  datatype Op = Create | Delete(id: nat)

  ghost function Step(t: Table, op: Op, net4: IpNet, net6: Option<IpNet>): Table
    requires ValidNets(net4, net6)
  {
    match op
    case Create =>
      var c := NewClient(t, net4, net6);
      if c == None then t else Table(t.rows + [c.value], t.nextId + 1)
    case Delete(id) => Table(Without(t.rows, id), t.nextId)
  }

  ghost function Run(t: Table, ops: seq<Op>, net4: IpNet, net6: Option<IpNet>): Table
    requires ValidNets(net4, net6)
    decreases |ops|
  {
    if ops == [] then t else Run(Step(t, ops[0], net4, net6), ops[1..], net4, net6)
  }

  lemma NewClientUsable(t: Table, net4: IpNet, net6: Option<IpNet>)
    requires ValidNets(net4, net6) && NewClient(t, net4, net6).Some?
    ensures var c := NewClient(t, net4, net6).value;
            && c.id == t.nextId && RowUsable(c, net4, net6)
            && c.v4.value !in UsedV4(t.rows)
            && (c.v6.Some? ==> c.v6.value !in UsedV6(t.rows))
  {
    hide Pow2, Usable, Available, FirstFree;
    AvailableIs(net4);
    FirstFreeIs(Available(net4), UsedV4(t.rows));
    AvailableUsable(net4, NewClient(t, net4, net6).value.v4.value);
    if net6.Some? {
      AvailableIs(net6.value);
      FirstFreeIs(Available(net6.value), UsedV6(t.rows));
      AvailableUsable(net6.value, NewClient(t, net4, net6).value.v6.value);
    }
  }

  lemma CreateKeeps(t: Table, net4: IpNet, net6: Option<IpNet>)
    requires ValidNets(net4, net6) && TableOk(t, net4, net6)
    ensures TableOk(Step(t, Create, net4, net6), net4, net6)
  {
    hide ValidNets, NewClient, RowUsable;
    if NewClient(t, net4, net6).Some? {
      NewClientUsable(t, net4, net6);
      UsedIs(t.rows);
      var c := NewClient(t, net4, net6).value;
      forall d | d in t.rows
        ensures !Clash(d, c)
      {
      }
    }
  }

  lemma {:induction false} WithoutIs(rows: seq<Client>, id: nat)
    requires forall i, j :: 0 <= i < j < |rows| ==> !Clash(rows[i], rows[j])
    ensures forall c :: c in Without(rows, id) <==> c in rows && c.id != id
    ensures forall i, j :: 0 <= i < j < |Without(rows, id)| ==> !Clash(Without(rows, id)[i], Without(rows, id)[j])
    decreases |rows|
  {
    hide Clash;
    if rows != [] {
      var rest := Without(rows[1..], id);
      WithoutIs(rows[1..], id);
      assert rows == [rows[0]] + rows[1..];
      forall c | c in rest
        ensures !Clash(rows[0], c)
      {
        var k :| 0 <= k < |rows[1..]| && rows[1..][k] == c;
        assert rows[k + 1] == c;
      }
      forall j | 0 <= j < |rest|
        ensures !Clash(rows[0], rest[j])
      {
        assert rest[j] in rest;
      }
    }
  }

  /** Over any run of creates and deletes, addresses stay distinct, inside the networks and off the server. */
  lemma {:induction false} RunKeeps(t: Table, ops: seq<Op>, net4: IpNet, net6: Option<IpNet>)
    requires ValidNets(net4, net6) && TableOk(t, net4, net6)
    ensures TableOk(Run(t, ops, net4, net6), net4, net6)
    decreases |ops|
  {
    hide ValidNets, RowUsable, Clash, NewClient;
    if ops != [] {
      match ops[0] {
        case Create => CreateKeeps(t, net4, net6);
        case Delete(id) => WithoutIs(t.rows, id);
      }
      RunKeeps(Step(t, ops[0], net4, net6), ops[1..], net4, net6);
    }
  }

  /** The same for every run from an empty table. */
  lemma EveryRun(ops: seq<Op>, net4: IpNet, net6: Option<IpNet>)
    requires ValidNets(net4, net6)
    ensures Allocated(Run(Table([], 1), ops, net4, net6).rows, net4, net6)
  {
    hide ValidNets, RowUsable, Clash, Run;
    RunKeeps(Table([], 1), ops, net4, net6);
  }

  class Clients {
    var table: Table

    constructor ()
      ensures table == Table([], 1)
    {
      table := Table([], 1);
    }

    /** Both addresses are chosen against the rows as they are, and nothing is inserted unless both are found. */
    method CreateClientAllocIp(net4: IpNet, net6: Option<IpNet>) returns (r: Option<nat>)
      requires ValidNets(net4, net6)
      modifies this
      ensures table == Step(old(table), Create, net4, net6)
      ensures r == if NewClient(old(table), net4, net6).Some? then Some(old(table).nextId) else None
    {
      hide Pow2, Available, FirstFree;
      var usedV4, usedV6 := CollectUsed(table.rows);
      var v4 := NextIpv4(net4, usedV4);
      if v4 == None {
        return None;
      }
      var v6: Option<nat> := None;
      if net6.Some? {
        v6 := NextIpv6(net6.value, usedV6);
        if v6 == None {
          return None;
        }
      }
      var id := table.nextId;
      table := Table(table.rows + [Client(id, v4, v6)], id + 1);
      return Some(id);
    }

    method DeleteClient(id: nat) returns (found: bool)
      modifies this
      ensures table == Table(Without(old(table).rows, id), old(table).nextId)
      ensures found <==> exists c :: c in old(table).rows && c.id == id
    {
      var kept: seq<Client>;
      kept, found := RemoveRow(table.rows, id);
      table := Table(kept, table.nextId);
    }
  }

  method RemoveRow(rows: seq<Client>, id: nat) returns (kept: seq<Client>, found: bool)
    ensures kept == Without(rows, id)
    ensures found <==> exists c :: c in rows && c.id == id
  {
    hide Without;
    kept, found := [], false;
    assert rows[0..] == rows;
    for k := 0 to |rows|
      invariant kept + Without(rows[k..], id) == Without(rows, id)
      invariant found <==> exists j :: 0 <= j < k && rows[j].id == id
    {
      WithoutStep(kept, rows, k, id);
      if rows[k].id == id {
        found := true;
      } else {
        kept := kept + [rows[k]];
      }
    }
    if found {
      var j :| 0 <= j < |rows| && rows[j].id == id;
      assert rows[j] in rows;
    }
    WithoutEnds(kept, rows, id);
  }

  lemma WithoutStep(kept: seq<Client>, rows: seq<Client>, k: nat, id: nat)
    requires k < |rows|
    ensures kept + Without(rows[k..], id)
            == (if rows[k].id == id then kept else kept + [rows[k]]) + Without(rows[k + 1..], id)
  {
    assert rows[k..][1..] == rows[k + 1..];
  }

  lemma WithoutEnds(kept: seq<Client>, rows: seq<Client>, id: nat)
    ensures kept + Without(rows[|rows|..], id) == kept
  {
  }

  method CollectUsed(rows: seq<Client>) returns (usedV4: seq<nat>, usedV6: seq<nat>)
    ensures usedV4 == UsedV4(rows) && usedV6 == UsedV6(rows)
  {
    usedV4, usedV6 := [], [];
    for k := 0 to |rows|
      invariant usedV4 + UsedV4(rows[k..]) == UsedV4(rows)
      invariant usedV6 + UsedV6(rows[k..]) == UsedV6(rows)
    {
      assert rows[k..][1..] == rows[k + 1..];
      if rows[k].v4.Some? {
        usedV4 := usedV4 + [rows[k].v4.value];
      }
      if rows[k].v6.Some? {
        usedV6 := usedV6 + [rows[k].v6.value];
      }
    }
  }

  // ----- Reassignment

  lemma {:induction false} FirstFreeAt(avail: seq<nat>, used: seq<nat>, k: nat)
    requires k <= |avail| && forall i :: 0 <= i < k ==> avail[i] in used
    requires k < |avail| ==> avail[k] !in used
    ensures FirstFree(avail, used) == if k < |avail| then Some(avail[k]) else None
    decreases k
  {
    if k > 0 {
      assert avail[0] in used;
      FirstFreeAt(avail[1..], used, k - 1);
    }
  }

  /** First fit after handing out the first `k` addresses is the next one. */
  lemma FirstFreeAfter(avail: seq<nat>, k: nat)
    requires Increasing(avail) && k <= |avail|
    ensures FirstFree(avail, avail[..k]) == if k < |avail| then Some(avail[k]) else None
  {
    forall i | 0 <= i < k
      ensures avail[i] in avail[..k]
    {
      assert avail[..k][i] == avail[i];
    }
    if k < |avail| {
      forall i | 0 <= i < k
        ensures avail[..k][i] != avail[k]
      {
      }
    }
    FirstFreeAt(avail, avail[..k], k);
  }

  /** Client `i` with the `i`-th available addresses; without an IPv6 network its old IPv6 address stays. */
  ghost function Reassigned(c: Client, i: nat, net4: IpNet, net6: Option<IpNet>): Client
    requires ValidNets(net4, net6) && i < |Available(net4)| && (net6.Some? ==> i < |Available(net6.value)|)
  {
    Client(c.id, Some(Available(net4)[i]), if net6.Some? then Some(Available(net6.value)[i]) else c.v6)
  }

  ghost predicate Enough(n: nat, net4: IpNet, net6: Option<IpNet>)
    requires ValidNets(net4, net6)
  {
    n <= |Available(net4)| && (net6.Some? ==> n <= |Available(net6.value)|)
  }

  /** The addresses computed for every client in turn, or failure when a network is too small for them. */
  method ChangeCidr(clients: seq<Client>, net4: IpNet, net6: Option<IpNet>) returns (r: Option<seq<Client>>)
    requires ValidNets(net4, net6)
    ensures r.Some? <==> Enough(|clients|, net4, net6)
    ensures r.Some? ==> |r.value| == |clients|
    ensures r.Some? ==> forall i :: 0 <= i < |clients| ==> r.value[i] == Reassigned(clients[i], i, net4, net6)
  {
    hide Pow2, Available, FirstFree;
    var usedV4, usedV6 := [], [];
    var rows: seq<Client> := [];
    AvailableIs(net4);
    if net6.Some? {
      AvailableIs(net6.value);
    }
    for k := 0 to |clients|
      invariant |rows| == k && Enough(k, net4, net6)
      invariant usedV4 == Available(net4)[..k]
      invariant net6.Some? ==> usedV6 == Available(net6.value)[..k]
      invariant forall i :: 0 <= i < k ==> rows[i] == Reassigned(clients[i], i, net4, net6)
    {
      FirstFreeAfter(Available(net4), k);
      var v4 := NextIpv4(net4, usedV4);
      if v4 == None {
        return None;
      }
      usedV4 := usedV4 + [v4.value];
      var v6 := clients[k].v6;
      if net6.Some? {
        FirstFreeAfter(Available(net6.value), k);
        v6 := NextIpv6(net6.value, usedV6);
        if v6 == None {
          return None;
        }
        usedV6 := usedV6 + [v6.value];
      }
      rows := rows + [Client(clients[k].id, v4, v6)];
    }
    return Some(rows);
  }

  ghost predicate IsReassignment(clients: seq<Client>, rows: seq<Client>, net4: IpNet, net6: Option<IpNet>)
    requires ValidNets(net4, net6)
  {
    && Enough(|clients|, net4, net6) && |rows| == |clients|
    && forall i :: 0 <= i < |clients| ==> rows[i] == Reassigned(clients[i], i, net4, net6)
  }

  // The new table is consistent for the new networks, except that with IPv6 switched off any client that had
  // an IPv6 address keeps it.
  lemma ReassignmentAllocated(clients: seq<Client>, rows: seq<Client>, net4: IpNet, net6: Option<IpNet>)
    requires ValidNets(net4, net6) && IsReassignment(clients, rows, net4, net6)
    requires forall i, j :: 0 <= i < j < |clients| ==> clients[i].id != clients[j].id
    ensures Allocated(rows, net4, net6) <==> net6.Some? || forall c :: c in clients ==> c.v6 == None
  {
    hide Pow2, Available, Usable;
    AvailableIs(net4);
    if net6.Some? {
      AvailableIs(net6.value);
    }
    if net6.Some? || forall c :: c in clients ==> c.v6 == None {
      forall c | c in rows
        ensures RowUsable(c, net4, net6)
      {
        var i :| 0 <= i < |rows| && rows[i] == c;
        ReassignedUsable(clients[i], i, net4, net6);
        assert clients[i] in clients;
      }
      forall i, j | 0 <= i < j < |rows|
        ensures !Clash(rows[i], rows[j])
      {
        assert clients[i] in clients && clients[j] in clients;
      }
    } else {
      var c :| c in clients && c.v6 != None;
      var i :| 0 <= i < |clients| && clients[i] == c;
      assert rows[i] in rows && rows[i].v6.Some?;
    }
  }

  lemma ReassignedUsable(c: Client, i: nat, net4: IpNet, net6: Option<IpNet>)
    requires ValidNets(net4, net6) && i < |Available(net4)| && (net6.Some? ==> i < |Available(net6.value)|)
    requires net6.Some? || c.v6 == None
    ensures RowUsable(Reassigned(c, i, net4, net6), net4, net6)
  {
    hide Pow2, Available, Usable;
    AvailableUsable(net4, Available(net4)[i]);
    if net6.Some? {
      AvailableUsable(net6.value, Available(net6.value)[i]);
    }
  }
}
