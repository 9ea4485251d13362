/** The per-client chain: rules compiled from each client's targets, and which packets the chain accepts. */
module Firewall {
  import opened Wrappers
  import opened Cidr

  datatype Proto = Tcp | Udp

  /** A parsed target: a destination address or block, and an optional port and protocol. */
  datatype Target = Target(dst: IpNet, port: Option<nat>, proto: Option<Proto>)

  predicate IsV6(t: Target) {
    t.dst.width == V6
  }

  /** A stored list: no value, the empty string, text that is not a list, or a list with its malformed entries. */
  datatype TargetList = Absent | EmptyText | NotAList | Entries(entries: seq<Option<Target>>)

  /** A stored address: no value, or text that is or is not an address of its family. */
  datatype AddressText = NoAddress | Malformed | Address(value: nat)

  datatype Client = Client(enabled: bool, v4: AddressText, v6: AddressText, firewallIps: TargetList, allowedIps: TargetList)

  // ----- Rules and packets

  datatype Rule =
    | Accept(v6: bool, src: nat, dst: IpNet, proto: Option<Proto>, dport: Option<nat>)
    | Drop

  datatype Transport = OverTcp(dport: nat) | OverUdp(dport: nat) | OtherTransport

  datatype Packet = Packet(v6: bool, src: nat, dst: nat, transport: Transport)

  predicate ValidTarget(t: Target) {
    t.dst.Valid() && (t.dst.width == V4 || t.dst.width == V6)
  }

  predicate ValidRule(r: Rule) {
    r.Accept? ==> r.dst.Valid() && (r.proto.Some? <==> r.dport.Some?)
  }

  predicate Over(proto: Proto, port: nat, transport: Transport) {
    match proto case Tcp => transport == OverTcp(port) case Udp => transport == OverUdp(port)
  }

  predicate Matches(r: Rule, p: Packet)
    requires ValidRule(r)
  {
    match r
    case Drop => true
    case Accept(v6, src, dst, proto, dport) =>
      && p.v6 == v6 && p.src == src && dst.Contains(p.dst)
      && (proto == None || Over(proto.value, dport.value, p.transport))
  }

  predicate ValidChain(chain: seq<Rule>) {
    forall r :: r in chain ==> ValidRule(r)
  }

  /** The first matching rule decides; a packet that none matches returns from the chain. */
  function Verdict(chain: seq<Rule>, p: Packet): Option<Rule>
    requires ValidChain(chain)
  {
    if chain == [] then None
    else if Matches(chain[0], p) then Some(chain[0])
    else Verdict(chain[1..], p)
  }

  predicate Accepts(chain: seq<Rule>, p: Packet)
    requires ValidChain(chain)
  {
    Verdict(chain, p).Some? && Verdict(chain, p).value.Accept?
  }

  // ----- What a client may reach

  /** With a port, only that port: over the protocol asked for, or over both; without one, everything. */
  predicate PortOpen(t: Target, transport: Transport) {
    match t.port
    case None => true
    case Some(n) =>
      || (transport == OverTcp(n) && t.proto != Some(Udp))
      || (transport == OverUdp(n) && t.proto != Some(Tcp))
  }

  /** The packet has the target's family, source and destination. */
  predicate Reaches(t: Target, src: nat, p: Packet)
    requires ValidTarget(t)
  {
    p.v6 == (t.dst.width == 128) && p.src == src && t.dst.Contains(p.dst)
  }

  /** `src` is the address stored; where none is, the unspecified one. */
  predicate SentFrom(a: AddressText, src: nat) {
    a == Address(src) || (a == NoAddress && src == 0)
  }

  /** The packet is what `t` lets the client send: a family that is switched off opens nothing. */
  predicate Opens(t: Target, c: Client, enableV6: bool, p: Packet)
    requires ValidTarget(t)
  {
    && Reaches(t, p.src, p) && PortOpen(t, p.transport)
    && if p.v6 then enableV6 && SentFrom(c.v6, p.src) else SentFrom(c.v4, p.src)
  }

  predicate ValidTargets(ts: seq<Option<Target>>) {
    forall i :: 0 <= i < |ts| && ts[i].Some? ==> ValidTarget(ts[i].value)
  }

  predicate ValidList(l: TargetList) {
    l.Entries? ==> ValidTargets(l.entries)
  }

  predicate ValidClient(c: Client) {
    ValidList(c.firewallIps) && ValidList(c.allowedIps)
  }

  /** Some well-formed entry opens the packet. */
  ghost predicate SomeOpens(ts: seq<Option<Target>>, c: Client, enableV6: bool, p: Packet)
    requires ValidTargets(ts)
  {
    exists i :: 0 <= i < |ts| && ts[i].Some? && Opens(ts[i].value, c, enableV6, p)
  }

  /** The list has text: then it alone decides, even when the text is no list. */
  predicate HasText(l: TargetList) {
    l.NotAList? || l.Entries?
  }

  ghost predicate ListOpens(l: TargetList, c: Client, enableV6: bool, p: Packet)
    requires ValidList(l)
  {
    l.Entries? && SomeOpens(l.entries, c, enableV6, p)
  }

  // The policy: an enabled client, neither of whose addresses is malformed, and a packet that its firewall list opens;
  // or without such a list, its allowed list; or without either, the defaults.
  ghost predicate ClientAllows(c: Client, defaults: seq<Option<Target>>, enableV6: bool, p: Packet)
    requires ValidClient(c) && ValidTargets(defaults)
  {
    && c.enabled && !c.v4.Malformed? && !c.v6.Malformed?
    && if HasText(c.firewallIps) then ListOpens(c.firewallIps, c, enableV6, p)
       else if HasText(c.allowedIps) then ListOpens(c.allowedIps, c, enableV6, p)
       else SomeOpens(defaults, c, enableV6, p)
  }

  // ----- Compilation

  function ListOf(l: TargetList): seq<Option<Target>> {
    match l case Entries(es) => es case _ => []
  }

  /** The firewall list if it has text, else the allowed list if it has text, else the defaults. */
  function TargetsOf(c: Client, defaults: seq<Option<Target>>): seq<Option<Target>> {
    if !(c.firewallIps.Absent? || c.firewallIps.EmptyText?) then ListOf(c.firewallIps)
    else if !(c.allowedIps.Absent? || c.allowedIps.EmptyText?) then ListOf(c.allowedIps)
    else defaults
  }

  /** An absent address stands for the unspecified one. */
  function SourceOf(a: AddressText): Option<nat> {
    match a case NoAddress => Some(0) case Malformed => None case Address(n) => Some(n)
  }

  function RulesFor(t: Target, src: nat): seq<Rule> {
    match t.port
    case None => [Accept(IsV6(t), src, t.dst, None, None)]
    case Some(n) =>
      (if t.proto == None || t.proto == Some(Tcp) then [Accept(IsV6(t), src, t.dst, Some(Tcp), Some(n))] else [])
      + (if t.proto == None || t.proto == Some(Udp) then [Accept(IsV6(t), src, t.dst, Some(Udp), Some(n))] else [])
  }

  /** The rules of one entry of a list: none when it is malformed or of a family that is switched off. */
  function EntryRules(e: Option<Target>, src4: nat, src6: nat, enableV6: bool): seq<Rule> {
    match e
    case None => []
    case Some(t) => if IsV6(t) && !enableV6 then [] else RulesFor(t, if IsV6(t) then src6 else src4)
  }

  function ListRules(ts: seq<Option<Target>>, src4: nat, src6: nat, enableV6: bool): seq<Rule> {
    if ts == [] then [] else EntryRules(ts[0], src4, src6, enableV6) + ListRules(ts[1..], src4, src6, enableV6)
  }

  function ClientRules(c: Client, defaults: seq<Option<Target>>, enableV6: bool): seq<Rule> {
    if !c.enabled || SourceOf(c.v4) == None || SourceOf(c.v6) == None then []
    else ListRules(TargetsOf(c, defaults), SourceOf(c.v4).value, SourceOf(c.v6).value, enableV6)
  }

  function AllRules(clients: seq<Client>, defaults: seq<Option<Target>>, enableV6: bool): seq<Rule> {
    if clients == [] then [] else ClientRules(clients[0], defaults, enableV6) + AllRules(clients[1..], defaults, enableV6)
  }

  method GenRules(t: Target, src: nat) returns (out: seq<Rule>)
    ensures out == RulesFor(t, src)
  {
    out := [];
    match t.port {
      case Some(n) =>
        var doTcp := t.proto == None || t.proto == Some(Tcp);
        var doUdp := t.proto == None || t.proto == Some(Udp);
        if doTcp {
          out := out + [Accept(IsV6(t), src, t.dst, Some(Tcp), Some(n))];
        }
        if doUdp {
          out := out + [Accept(IsV6(t), src, t.dst, Some(Udp), Some(n))];
        }
      case None =>
        out := out + [Accept(IsV6(t), src, t.dst, None, None)];
    }
  }

  method AppendClientRules(before: seq<Rule>, c: Client, defaults: seq<Option<Target>>, enableV6: bool) returns (txn: seq<Rule>)
    requires c.enabled
    ensures txn == before + ClientRules(c, defaults, enableV6)
  {
    hide RulesFor;
    txn := before;
    var targets := TargetsOf(c, defaults);
    var src4, src6 := SourceOf(c.v4), SourceOf(c.v6);
    if src4 == None {
      return;
    }
    if src6 == None {
      return;
    }
    for k := 0 to |targets|
      invariant txn + ListRules(targets[k..], src4.value, src6.value, enableV6)
             == before + ListRules(targets, src4.value, src6.value, enableV6)
    {
      ListStep(txn, targets, k, src4.value, src6.value, enableV6);
      if targets[k].None? {
        continue;
      }
      var t := targets[k].value;
      if IsV6(t) && !enableV6 {
        continue;
      }
      var rules := GenRules(t, if IsV6(t) then src6.value else src4.value);
      txn := txn + rules;
    }
  }

  lemma ListStep(txn: seq<Rule>, ts: seq<Option<Target>>, k: nat, src4: nat, src6: nat, enableV6: bool)
    requires k < |ts|
    ensures txn + ListRules(ts[k..], src4, src6, enableV6)
            == (txn + EntryRules(ts[k], src4, src6, enableV6)) + ListRules(ts[k + 1..], src4, src6, enableV6)
    ensures txn + [] == txn
  {
    hide EntryRules;
    assert ts[k..][1..] == ts[k + 1..];
  }

  /** All enabled clients in turn, then a drop. */
  method RebuildRules(clients: seq<Client>, defaults: seq<Option<Target>>, enableV6: bool) returns (chain: seq<Rule>)
    ensures chain == AllRules(clients, defaults, enableV6) + [Drop]
  {
    hide ListRules, TargetsOf, ClientRules, AllRules;
    chain := [];
    assert clients[0..] == clients;
    for k := 0 to |clients|
      invariant chain + AllRules(clients[k..], defaults, enableV6) == AllRules(clients, defaults, enableV6)
    {
      ClientStep(chain, clients, k, defaults, enableV6);
      if clients[k].enabled {
        chain := AppendClientRules(chain, clients[k], defaults, enableV6);
      }
    }
    NoClients(clients, chain, defaults, enableV6);
    chain := chain + [Drop];
  }

  lemma ClientStep(chain: seq<Rule>, clients: seq<Client>, k: nat, defaults: seq<Option<Target>>, enableV6: bool)
    requires k < |clients|
    ensures chain + AllRules(clients[k..], defaults, enableV6)
            == (chain + ClientRules(clients[k], defaults, enableV6)) + AllRules(clients[k + 1..], defaults, enableV6)
    ensures !clients[k].enabled ==> chain + ClientRules(clients[k], defaults, enableV6) == chain
  {
    hide ListRules, TargetsOf;
    assert clients[k..][1..] == clients[k + 1..];
  }

  lemma NoClients(clients: seq<Client>, chain: seq<Rule>, defaults: seq<Option<Target>>, enableV6: bool)
    ensures chain + AllRules(clients[|clients|..], defaults, enableV6) == chain
  {
  }

  // ----- The chain means the policy

  /** Some rule of the list accepts the packet. */
  ghost predicate SomeAccepts(rules: seq<Rule>, p: Packet)
    requires ValidChain(rules)
  {
    exists i :: 0 <= i < |rules| && rules[i].Accept? && Matches(rules[i], p)
  }

  lemma {:induction false} AcceptsThenDrop(rules: seq<Rule>, p: Packet)
    requires ValidChain(rules) && forall r :: r in rules ==> r.Accept?
    ensures ValidChain(rules + [Drop])
    ensures Accepts(rules + [Drop], p) <==> SomeAccepts(rules, p)
    ensures !SomeAccepts(rules, p) ==> Verdict(rules + [Drop], p) == Some(Drop)
    decreases |rules|
  {
    var chain := rules + [Drop];
    if rules == [] {
      assert Matches(chain[0], p);
    } else {
      assert chain[1..] == rules[1..] + [Drop];
      AcceptsThenDrop(rules[1..], p);
      SomeSplit([rules[0]], rules[1..], p);
      assert [rules[0]] + rules[1..] == rules;
      assert SomeAccepts([rules[0]], p) <==> Matches(rules[0], p) by {
        assert [rules[0]][0] == rules[0];
      }
    }
  }

  lemma SomeSplit(a: seq<Rule>, b: seq<Rule>, p: Packet)
    requires ValidChain(a) && ValidChain(b)
    ensures ValidChain(a + b)
    ensures SomeAccepts(a + b, p) <==> SomeAccepts(a, p) || SomeAccepts(b, p)
  {
    hide Matches, ValidRule;
    var ab := a + b;
    if SomeAccepts(ab, p) {
      var i :| 0 <= i < |ab| && ab[i].Accept? && Matches(ab[i], p);
      if i < |a| {
        assert a[i] == ab[i];
      } else {
        assert b[i - |a|] == ab[i];
      }
    }
    if SomeAccepts(a, p) {
      var i :| 0 <= i < |a| && a[i].Accept? && Matches(a[i], p);
      assert ab[i] == a[i];
    }
    if SomeAccepts(b, p) {
      var i :| 0 <= i < |b| && b[i].Accept? && Matches(b[i], p);
      assert ab[|a| + i] == b[i];
    }
  }

  ghost predicate AllAccept(rules: seq<Rule>) {
    ValidChain(rules) && forall r :: r in rules ==> r.Accept?
  }

  lemma OneRule(r: Rule, p: Packet)
    requires ValidRule(r)
    ensures ValidChain([r]) && (SomeAccepts([r], p) <==> r.Accept? && Matches(r, p))
  {
    assert [r][0] == r;
  }

  /** The rule for one protocol accepts exactly the target's packets over it. */
  lemma ProtoRuleMeans(t: Target, src: nat, proto: Proto, n: nat, p: Packet)
    requires ValidTarget(t)
    ensures AllAccept([Accept(IsV6(t), src, t.dst, Some(proto), Some(n))])
    ensures SomeAccepts([Accept(IsV6(t), src, t.dst, Some(proto), Some(n))], p)
            <==> Reaches(t, src, p) && Over(proto, n, p.transport)
  {
    hide Over;
    OneRule(Accept(IsV6(t), src, t.dst, Some(proto), Some(n)), p);
  }

  lemma RulesForMean(t: Target, src: nat, p: Packet)
    requires ValidTarget(t)
    ensures AllAccept(RulesFor(t, src))
    ensures SomeAccepts(RulesFor(t, src), p) <==> Reaches(t, src, p) && PortOpen(t, p.transport)
  {
    hide SomeAccepts, ValidRule, Reaches, ValidTarget;
    match t.port
    case None =>
      AnyRuleMeans(t, src, p);
    case Some(n) =>
      ProtoRuleMeans(t, src, Tcp, n, p);
      ProtoRuleMeans(t, src, Udp, n, p);
      var tcp := Accept(IsV6(t), src, t.dst, Some(Tcp), Some(n));
      var udp := Accept(IsV6(t), src, t.dst, Some(Udp), Some(n));
      match t.proto
      case None =>
        assert RulesFor(t, src) == [tcp] + [udp];
        SomeSplit([tcp], [udp], p);
      case Some(Tcp) =>
        assert RulesFor(t, src) == [tcp];
      case Some(Udp) =>
        assert RulesFor(t, src) == [udp];
  }

  lemma AnyRuleMeans(t: Target, src: nat, p: Packet)
    requires ValidTarget(t)
    ensures AllAccept([Accept(IsV6(t), src, t.dst, None, None)])
    ensures SomeAccepts([Accept(IsV6(t), src, t.dst, None, None)], p) <==> Reaches(t, src, p)
  {
    OneRule(Accept(IsV6(t), src, t.dst, None, None), p);
  }

  /** The addresses the rules are compiled with are those the policy speaks of. */
  predicate Sources(c: Client, src4: nat, src6: nat) {
    SourceOf(c.v4) == Some(src4) && SourceOf(c.v6) == Some(src6)
  }

  lemma EntryMeans(e: Option<Target>, c: Client, src4: nat, src6: nat, enableV6: bool, p: Packet)
    requires (e.Some? ==> ValidTarget(e.value)) && Sources(c, src4, src6)
    ensures AllAccept(EntryRules(e, src4, src6, enableV6))
    ensures SomeAccepts(EntryRules(e, src4, src6, enableV6), p)
            <==> e.Some? && Opens(e.value, c, enableV6, p)
  {
    hide RulesFor, PortOpen, SomeAccepts;
    if e == None {
      NoneAccept([], p);
    } else if IsV6(e.value) && !enableV6 {
      NoneAccept([], p);
    } else {
      RulesForMean(e.value, if IsV6(e.value) then src6 else src4, p);
    }
  }

  lemma {:induction false} ListMeans(ts: seq<Option<Target>>, c: Client, src4: nat, src6: nat, enableV6: bool, p: Packet)
    requires ValidTargets(ts) && Sources(c, src4, src6)
    ensures AllAccept(ListRules(ts, src4, src6, enableV6))
    ensures SomeAccepts(ListRules(ts, src4, src6, enableV6), p) <==> SomeOpens(ts, c, enableV6, p)
    decreases |ts|
  {
    hide EntryRules, Opens, SomeAccepts, ValidRule, ValidTarget, Sources;
    if ts == [] {
      NoneAccept([], p);
    } else {
      var rest := ts[1..];
      EntryMeans(ts[0], c, src4, src6, enableV6, p);
      ListMeans(rest, c, src4, src6, enableV6, p);
      SomeSplit(EntryRules(ts[0], src4, src6, enableV6), ListRules(rest, src4, src6, enableV6), p);
      if SomeOpens(rest, c, enableV6, p) {
        var i :| 0 <= i < |rest| && rest[i].Some? && Opens(rest[i].value, c, enableV6, p);
        assert ts[i + 1] == rest[i];
      }
      if SomeOpens(ts, c, enableV6, p) {
        var i :| 0 <= i < |ts| && ts[i].Some? && Opens(ts[i].value, c, enableV6, p);
        if i > 0 {
          assert rest[i - 1] == ts[i];
        }
      }
    }
  }

  lemma NoneAccept(rules: seq<Rule>, p: Packet)
    requires rules == []
    ensures AllAccept(rules) && !SomeAccepts(rules, p)
  {
  }

  lemma ClientMeans(c: Client, defaults: seq<Option<Target>>, enableV6: bool, p: Packet)
    requires ValidClient(c) && ValidTargets(defaults)
    ensures AllAccept(ClientRules(c, defaults, enableV6))
    ensures SomeAccepts(ClientRules(c, defaults, enableV6), p) <==> ClientAllows(c, defaults, enableV6, p)
  {
    hide ListRules, TargetsOf, ValidTargets, SomeAccepts, SomeOpens, ListOpens, ValidList;
    TargetsMean(c, defaults, enableV6, p);
    if !c.enabled || SourceOf(c.v4) == None || SourceOf(c.v6) == None {
      NoneAccept([], p);
    } else {
      ListMeans(TargetsOf(c, defaults), c, SourceOf(c.v4).value, SourceOf(c.v6).value, enableV6, p);
    }
  }

  /** The list the rules are compiled from opens what the policy says. */
  lemma TargetsMean(c: Client, defaults: seq<Option<Target>>, enableV6: bool, p: Packet)
    requires ValidClient(c) && ValidTargets(defaults)
    ensures ValidTargets(TargetsOf(c, defaults))
    ensures SomeOpens(TargetsOf(c, defaults), c, enableV6, p)
            <==> if HasText(c.firewallIps) then ListOpens(c.firewallIps, c, enableV6, p)
                 else if HasText(c.allowedIps) then ListOpens(c.allowedIps, c, enableV6, p)
                 else SomeOpens(defaults, c, enableV6, p)
  {
    hide Opens, ValidTarget;
  }

  ghost predicate ValidClients(clients: seq<Client>) {
    forall i :: 0 <= i < |clients| ==> ValidClient(clients[i])
  }

  ghost predicate SomeClientAllows(clients: seq<Client>, defaults: seq<Option<Target>>, enableV6: bool, p: Packet)
    requires ValidClients(clients) && ValidTargets(defaults)
  {
    exists i :: 0 <= i < |clients| && ClientAllows(clients[i], defaults, enableV6, p)
  }

  lemma {:induction false} AllMean(clients: seq<Client>, defaults: seq<Option<Target>>, enableV6: bool, p: Packet)
    requires ValidClients(clients) && ValidTargets(defaults)
    ensures AllAccept(AllRules(clients, defaults, enableV6))
    ensures SomeAccepts(AllRules(clients, defaults, enableV6), p) <==> SomeClientAllows(clients, defaults, enableV6, p)
    decreases |clients|
  {
    hide ClientRules, ClientAllows, SomeAccepts, ValidRule, ValidClient, ValidTargets;
    if clients == [] {
      NoneAccept([], p);
    } else {
      var rest := clients[1..];
      ClientMeans(clients[0], defaults, enableV6, p);
      AllMean(rest, defaults, enableV6, p);
      SomeSplit(ClientRules(clients[0], defaults, enableV6), AllRules(rest, defaults, enableV6), p);
      if SomeClientAllows(rest, defaults, enableV6, p) {
        var i :| 0 <= i < |rest| && ClientAllows(rest[i], defaults, enableV6, p);
        assert clients[i + 1] == rest[i];
      }
      if SomeClientAllows(clients, defaults, enableV6, p) {
        var i :| 0 <= i < |clients| && ClientAllows(clients[i], defaults, enableV6, p);
        if i > 0 {
          assert rest[i - 1] == clients[i];
        }
      }
    }
  }

  /** The rebuilt chain accepts a packet iff some client's policy allows it, and drops every other packet. */
  lemma ChainIsPolicy(clients: seq<Client>, defaults: seq<Option<Target>>, enableV6: bool, p: Packet)
    requires ValidClients(clients) && ValidTargets(defaults)
    ensures var chain := AllRules(clients, defaults, enableV6) + [Drop];
            && ValidChain(chain)
            && (Accepts(chain, p) <==> SomeClientAllows(clients, defaults, enableV6, p))
            && (!SomeClientAllows(clients, defaults, enableV6, p) ==> Verdict(chain, p) == Some(Drop))
  {
    hide AllRules, SomeAccepts, SomeClientAllows, ValidTargets, Verdict;
    AllMean(clients, defaults, enableV6, p);
    AcceptsThenDrop(AllRules(clients, defaults, enableV6), p);
  }

  /** The same addresses and the same switch; the lists may differ. */
  predicate SamePeer(c: Client, d: Client) {
    c.enabled == d.enabled && c.v4 == d.v4 && c.v6 == d.v6
  }

  lemma SameOpens(ts: seq<Option<Target>>, c: Client, d: Client, enableV6: bool, p: Packet)
    requires ValidTargets(ts) && SamePeer(c, d)
    ensures SomeOpens(ts, c, enableV6, p) <==> SomeOpens(ts, d, enableV6, p)
  {
    hide Reaches, PortOpen, ValidTarget;
  }

  // Precedence, on what the compiled rules accept: where the firewall list has text, neither the allowed list nor the
  // defaults matter; where only the allowed list has, the defaults do not.
  lemma Precedence(c: Client, d: Client, defaults: seq<Option<Target>>, others: seq<Option<Target>>, enableV6: bool, p: Packet)
    requires ValidClient(c) && ValidClient(d) && ValidTargets(defaults) && ValidTargets(others) && SamePeer(c, d)
    requires c.firewallIps == d.firewallIps && (HasText(c.firewallIps) || (c.allowedIps == d.allowedIps && HasText(c.allowedIps)))
    ensures AllAccept(ClientRules(c, defaults, enableV6)) && AllAccept(ClientRules(d, others, enableV6))
    ensures SomeAccepts(ClientRules(c, defaults, enableV6), p) <==> SomeAccepts(ClientRules(d, others, enableV6), p)
  {
    hide ClientRules, SomeAccepts, SomeOpens, ValidRule, ValidTargets;
    ClientMeans(c, defaults, enableV6, p);
    ClientMeans(d, others, enableV6, p);
    if c.firewallIps.Entries? {
      SameOpens(c.firewallIps.entries, c, d, enableV6, p);
    }
    if c.allowedIps.Entries? && c.allowedIps == d.allowedIps {
      SameOpens(c.allowedIps.entries, c, d, enableV6, p);
    }
  }
}
