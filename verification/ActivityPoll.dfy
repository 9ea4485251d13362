/** One polling pass, and its interleavings with deletions: a deleted peer is gone after the next pass that records. */
module ActivityPoll {
  import opened Wrappers
  import opened Activity
  import ActivityRuns

  datatype Peer = Peer(key: int, handshake: bool, rx: int, tx: int)

  /** A client row: its id and public key. */
  datatype Row = Row(id: int, key: int)

  function FindPeer(peers: seq<Peer>, key: int): Option<Peer> {
    if peers == [] then None else if peers[0].key == key then Some(peers[0]) else FindPeer(peers[1..], key)
  }

  /** A client is sampled when the kernel lists its key and has seen a handshake. */
  function SampleOf(c: Row, peers: seq<Peer>): Option<Sample> {
    match FindPeer(peers, c.key)
    case None => None
    case Some(p) => if p.handshake then Some(Sample(c.id, p.rx, p.tx)) else None
  }

  /** Peer `i` is the first with that key. */
  predicate FirstWith(peers: seq<Peer>, key: int, i: int) {
    0 <= i < |peers| && peers[i].key == key && forall j :: 0 <= j < i ==> peers[j].key != key
  }

  lemma {:induction false} FindPeerIs(peers: seq<Peer>, key: int)
    ensures FindPeer(peers, key) == None <==> forall i :: 0 <= i < |peers| ==> peers[i].key != key
    ensures forall i :: FirstWith(peers, key, i) ==> FindPeer(peers, key) == Some(peers[i])
    decreases |peers|
  {
    if peers != [] && peers[0].key != key {
      FindPeerIs(peers[1..], key);
      forall i | FirstWith(peers, key, i)
        ensures FindPeer(peers, key) == Some(peers[i])
      {
        assert FirstWith(peers[1..], key, i - 1) by {
          forall j | 0 <= j < i - 1
            ensures peers[1..][j].key != key
          {
            assert peers[j + 1].key != key;
          }
        }
      }
    }
  }

  // A client is sampled iff the first peer with its key has shaken hands, and the sample carries that peer's received
  // and sent bytes under the client's own id.
  lemma SampleIs(c: Row, peers: seq<Peer>, s: Sample)
    ensures SampleOf(c, peers) == Some(s) <==>
              exists i :: FirstWith(peers, c.key, i) && peers[i].handshake
                          && s.client == c.id && s.rx == peers[i].rx && s.tx == peers[i].tx
  {
    FindPeerIs(peers, c.key);
    if FindPeer(peers, c.key).Some? {
      var i := Earliest(peers, c.key);
    }
  }

  lemma {:induction false} Earliest(peers: seq<Peer>, key: int) returns (i: int)
    requires FindPeer(peers, key).Some?
    ensures FirstWith(peers, key, i)
    decreases |peers|
  {
    if peers[0].key == key {
      i := 0;
    } else {
      var k := Earliest(peers[1..], key);
      i := k + 1;
      forall j | 0 <= j < i
        ensures peers[j].key != key
      {
        if j > 0 {
          assert peers[1..][j - 1].key != key;
        }
      }
    }
  }

  function SamplesOf(clients: seq<Row>, peers: seq<Peer>): seq<Sample> {
    if clients == [] then []
    else (match SampleOf(clients[0], peers) case None => [] case Some(s) => [s]) + SamplesOf(clients[1..], peers)
  }

  function Ids(clients: seq<Row>): (ids: seq<int>)
    ensures |ids| == |clients|
  {
    seq(|clients|, i requires 0 <= i < |clients| => clients[i].id)
  }

  method CollectSamples(clients: seq<Row>, peers: seq<Peer>) returns (samples: seq<Sample>)
    ensures samples == SamplesOf(clients, peers)
  {
    hide SampleOf, SamplesOf;
    samples := [];
    assert clients[0..] == clients;
    for k := 0 to |clients|
      invariant samples + SamplesOf(clients[k..], peers) == SamplesOf(clients, peers)
    {
      CollectStep(samples, clients, k, peers);
      var s := SampleOf(clients[k], peers);
      if s.Some? {
        samples := samples + [s.value];
      }
    }
    CollectEnd(clients, peers);
  }

  lemma CollectStep(samples: seq<Sample>, clients: seq<Row>, k: nat, peers: seq<Peer>)
    requires k < |clients|
    ensures samples + SamplesOf(clients[k..], peers)
            == (match SampleOf(clients[k], peers) case None => samples case Some(s) => samples + [s])
               + SamplesOf(clients[k + 1..], peers)
  {
    hide SampleOf;
    assert clients[k..][1..] == clients[k + 1..];
  }

  lemma CollectEnd(clients: seq<Row>, peers: seq<Peer>)
    ensures SamplesOf(clients[|clients|..], peers) == []
  {
  }

  lemma RecordNothing(st: Store, day: int, seen: int)
    ensures Recorded(st, day, seen, []) == st
  {
  }

  // One pass over a dump and a client list, either of which may have failed: nothing when one has, or when the dump
  // is empty; else reconcile with the client list, then record what was sampled.
  method PollOnce(store: ActivityStore, dump: Option<seq<Peer>>, list: Option<seq<Row>>, day: int, seen: int) returns (r: Option<nat>)
    modifies store
    ensures dump == None || (dump != Some([]) && list == None) ==> r == None
    ensures dump == Some([]) ==> r == Some(0)
    ensures dump == None || dump == Some([]) || list == None ==> store.entries == old(store.entries)
    ensures dump.Some? && dump.value != [] && list.Some? ==>
              var samples := SamplesOf(list.value, dump.value);
              && store.entries == Recorded(Retained(old(store.entries), Ids(list.value)), day, seen, samples)
              && r == Some(|samples|)
  {
    hide Retained, Ids, SamplesOf, Recorded;
    if dump == None {
      return None;
    }
    var peers := dump.value;
    if peers == [] {
      return Some(0);
    }
    if list == None {
      return None;
    }
    var clients := list.value;
    var dropped := store.RetainClients(Ids(clients));
    var samples := CollectSamples(clients, peers);
    if samples == [] {
      RecordNothing(store.entries, day, seen);
      return Some(0);
    }
    var n := store.RecordSamples(day, seen, samples);
    return Some(n);
  }

  // ----- Interleavings

  /** Where the poller is: waiting, holding a dump, holding the client list as well, or holding the samples it derived. */
  datatype Phase = Idle | Dumped(peers: seq<Peer>) | Listed(clients: seq<Row>, peers: seq<Peer>) | Ready(samples: seq<Sample>)

  datatype World = World(store: Store, rows: seq<Row>, phase: Phase)

  /** The poller's steps, of which the first two may fail, and what others do in between. */
  datatype Event =
    | Dump(peers: Option<seq<Peer>>)
    | List(ok: bool)
    | Reconcile
    | Finish(day: int, seen: int)
    | DeleteRow(id: int)
    | ForgetEntry(id: int)
    | InsertRow(row: Row)
    | PruneDays(cutoff: int)
    | PurgeAll

  function RowsWithout(rows: seq<Row>, id: int): seq<Row> {
    if rows == [] then [] else (if rows[0].id == id then [] else [rows[0]]) + RowsWithout(rows[1..], id)
  }

  function Step(w: World, e: Event): World {
    match e
    case Dump(peers) => if w.phase.Idle? && peers.Some? && peers.value != [] then w.(phase := Dumped(peers.value)) else w
    case List(ok) =>
      (match w.phase
       case Dumped(peers) => w.(phase := if ok then Listed(w.rows, peers) else Idle)
       case _ => w)
    case Reconcile =>
      (match w.phase
       case Listed(clients, peers) => World(Retained(w.store, Ids(clients)), w.rows, Ready(SamplesOf(clients, peers)))
       case _ => w)
    case Finish(day, seen) =>
      (match w.phase
       case Ready(samples) => World(Recorded(w.store, day, seen, samples), w.rows, Idle)
       case _ => w)
    case DeleteRow(id) => w.(rows := RowsWithout(w.rows, id))
    case ForgetEntry(id) => w.(store := w.store - {id})
    case InsertRow(row) => w.(rows := w.rows + [row])
    case PruneDays(cutoff) => w.(store := Pruned(w.store, cutoff))
    case PurgeAll => w.(store := map[])
  }

  function Run(w: World, events: seq<Event>): World
    decreases |events|
  {
    if events == [] then w else Run(Step(w, events[0]), events[1..])
  }

  predicate NoRow(rows: seq<Row>, id: int) {
    forall i :: 0 <= i < |rows| ==> rows[i].id != id
  }

  predicate NoSample(samples: seq<Sample>, id: int) {
    forall i :: 0 <= i < |samples| ==> samples[i].client != id
  }

  /** Neither the table, nor the store, nor anything the poller holds knows `id`. */
  predicate Gone(w: World, id: int) {
    && NoRow(w.rows, id) && id !in w.store
    && match w.phase
       case Idle => true
       case Dumped(_) => true
       case Listed(clients, _) => NoRow(clients, id)
       case Ready(samples) => NoSample(samples, id)
  }

  /** The row is deleted, and the poller read the table after that. */
  predicate Leaving(w: World, id: int) {
    NoRow(w.rows, id) && w.phase.Listed? && NoRow(w.phase.clients, id)
  }

  predicate NotInserted(events: seq<Event>, id: int) {
    forall i :: 0 <= i < |events| && events[i].InsertRow? ==> events[i].row.id != id
  }

  predicate NotPolling(events: seq<Event>) {
    forall i :: 0 <= i < |events| ==> !events[i].Dump? && !events[i].List? && !events[i].Reconcile? && !events[i].Finish?
  }

  lemma {:induction false} RowsWithoutLacks(rows: seq<Row>, id: int, other: int)
    ensures NoRow(RowsWithout(rows, id), id) && (NoRow(rows, other) ==> NoRow(RowsWithout(rows, id), other))
    decreases |rows|
  {
    if rows != [] {
      RowsWithoutLacks(rows[1..], id, other);
    }
  }

  lemma {:induction false} NoSampleOf(clients: seq<Row>, peers: seq<Peer>, id: int)
    requires NoRow(clients, id)
    ensures NoSample(SamplesOf(clients, peers), id)
    decreases |clients|
  {
    hide FindPeer;
    if clients != [] {
      NoSampleOf(clients[1..], peers, id);
    }
  }

  lemma {:induction false} RecordedLacks(st: Store, day: int, seen: int, samples: seq<Sample>, id: int)
    requires id !in st && NoSample(samples, id)
    ensures id !in Recorded(st, day, seen, samples)
    decreases |samples|
  {
    hide Folded, Entry;
    if samples != [] {
      var s := samples[0];
      RecordedLacks(st[s.client := Folded(Entry(st, s.client), day, seen, s)], day, seen, samples[1..], id);
    }
  }

  lemma RetainedLacks(st: Store, clients: seq<Row>, id: int)
    requires NoRow(clients, id)
    ensures id !in Retained(st, Ids(clients))
  {
  }

  lemma GoneStep(w: World, e: Event, id: int)
    requires Gone(w, id) && (e.InsertRow? ==> e.row.id != id)
    ensures Gone(Step(w, e), id)
  {
    hide Recorded, Pruned, SamplesOf, Ids, RowsWithout;
    match e
    case Reconcile =>
      if w.phase.Listed? {
        NoSampleOf(w.phase.clients, w.phase.peers, id);
        RetainedLacks(w.store, w.phase.clients, id);
      }
    case Finish(day, seen) =>
      if w.phase.Ready? {
        RecordedLacks(w.store, day, seen, w.phase.samples, id);
      }
    case DeleteRow(other) =>
      RowsWithoutLacks(w.rows, other, id);
    case PruneDays(cutoff) =>
      PrunedLacks(w.store, cutoff, id);
    case _ =>
  }

  lemma PrunedLacks(st: Store, cutoff: int, id: int)
    requires id !in st
    ensures id !in Pruned(st, cutoff)
  {
  }

  /** Once gone, a client stays gone unless its id is inserted again. */
  lemma {:induction false} GoneStays(w: World, events: seq<Event>, id: int)
    requires Gone(w, id) && NotInserted(events, id)
    ensures Gone(Run(w, events), id)
    decreases |events|
  {
    hide Gone, Step;
    if events != [] {
      GoneStep(w, events[0], id);
      GoneStays(Step(w, events[0]), events[1..], id);
    }
  }

  lemma {:induction false} LeavingStays(w: World, events: seq<Event>, id: int)
    requires Leaving(w, id) && NotInserted(events, id) && NotPolling(events)
    ensures Leaving(Run(w, events), id)
    decreases |events|
  {
    hide Pruned, RowsWithout, Ids, SamplesOf, Recorded;
    if events != [] {
      if events[0].DeleteRow? {
        RowsWithoutLacks(w.rows, events[0].id, id);
      }
      LeavingStays(Step(w, events[0]), events[1..], id);
    }
  }

  lemma {:induction false} RunAppend(w: World, a: seq<Event>, b: seq<Event>)
    ensures Run(w, a + b) == Run(Run(w, a), b)
    decreases |a|
  {
    hide Step;
    if a == [] {
      assert a + b == b;
    } else {
      assert (a + b)[1..] == a[1..] + b;
      RunAppend(Step(w, a[0]), a[1..], b);
    }
  }

  lemma RunOne(w: World, e: Event)
    ensures Run(w, [e]) == Step(w, e)
  {
    hide Step;
    assert [e][1..] == [];
  }

  lemma ReconcileClears(w: World, id: int)
    requires Leaving(w, id)
    ensures Gone(Step(w, Reconcile), id)
  {
    hide SamplesOf, Ids;
    NoSampleOf(w.phase.clients, w.phase.peers, id);
    RetainedLacks(w.store, w.phase.clients, id);
  }

  /** The row is deleted and the poller is yet to read the table. */
  predicate Unlisted(w: World, id: int) {
    NoRow(w.rows, id) && w.phase.Dumped?
  }

  lemma {:induction false} UnlistedStays(w: World, events: seq<Event>, id: int)
    requires Unlisted(w, id) && NotInserted(events, id) && NotPolling(events)
    ensures Unlisted(Run(w, events), id)
    decreases |events|
  {
    hide Pruned, RowsWithout, Ids, SamplesOf, Recorded;
    if events != [] {
      if events[0].DeleteRow? {
        RowsWithoutLacks(w.rows, events[0].id, id);
      }
      UnlistedStays(Step(w, events[0]), events[1..], id);
    }
  }

  lemma ListLeaves(w: World, id: int)
    requires Unlisted(w, id)
    ensures Leaving(Step(w, List(true)), id)
  {
  }

  // A client whose row is gone by the time the client list is read is gone from the store once that pass has
  // reconciled, however deletions, inserts, prunes and purges interleave, and for good.
  lemma UnlistedPeerVanishes(w: World, between: seq<Event>, later: seq<Event>, id: int)
    requires Unlisted(w, id) && NotInserted(between, id) && NotPolling(between) && NotInserted(later, id)
    ensures Gone(Run(w, [List(true)] + between + [Reconcile] + later), id)
  {
    hide Run, Gone, Leaving, Unlisted;
    RunAppend(w, [List(true)] + between + [Reconcile], later);
    RunAppend(w, [List(true)] + between, [Reconcile]);
    RunAppend(w, [List(true)], between);
    RunOne(w, List(true));
    ListLeaves(w, id);
    LeavingStays(Step(w, List(true)), between, id);
    var mid := Run(Step(w, List(true)), between);
    RunOne(mid, Reconcile);
    ReconcileClears(mid, id);
    GoneStays(Step(mid, Reconcile), later, id);
  }

  // In particular one deleted before a pass begins, when its dump is not empty and neither query fails.
  lemma DeletedPeerVanishes(w: World, peers: seq<Peer>, before: seq<Event>, between: seq<Event>, later: seq<Event>, id: int)
    requires NoRow(w.rows, id) && w.phase.Idle? && peers != []
    requires NotInserted(before, id) && NotPolling(before)
    requires NotInserted(between, id) && NotPolling(between) && NotInserted(later, id)
    ensures Gone(Run(w, ([Dump(Some(peers))] + before) + ([List(true)] + between + [Reconcile] + later)), id)
  {
    hide Run, Gone, NotInserted, NotPolling;
    RunAppend(w, [Dump(Some(peers))] + before, [List(true)] + between + [Reconcile] + later);
    RunAppend(w, [Dump(Some(peers))], before);
    RunOne(w, Dump(Some(peers)));
    UnlistedStays(Step(w, Dump(Some(peers))), before, id);
    UnlistedPeerVanishes(Run(Step(w, Dump(Some(peers))), before), between, later, id);
  }

  /** A pass ends before it reconciles when the dump fails or is empty, and when the client query fails. */
  predicate EndsEarly(dump: Option<seq<Peer>>, ok: bool) {
    dump == None || dump == Some([]) || !ok
  }

  /** Such a pass keeps whatever the store holds; any other hands the store to the reconciliation. */
  lemma EarlyReturnKeeps(w: World, dump: Option<seq<Peer>>, ok: bool)
    requires w.phase.Idle?
    ensures Run(w, [Dump(dump), List(ok)])
            == if EndsEarly(dump, ok) then w else w.(phase := Listed(w.rows, dump.value))
  {
    RunAppend(w, [Dump(dump)], [List(ok)]);
    assert [Dump(dump)] + [List(ok)] == [Dump(dump), List(ok)];
    RunOne(w, Dump(dump));
    RunOne(Step(w, Dump(dump)), List(ok));
  }

  /** A delete that lands between reconciling and recording is undone by the record; the next pass repairs it. */
  lemma DeletedPeerReturns(w: World, s: Sample, day: int, seen: int)
    requires w.phase == Ready([s])
    ensures var r := Run(w, [DeleteRow(s.client), ForgetEntry(s.client), Finish(day, seen)]);
            NoRow(r.rows, s.client) && s.client in r.store
  {
    hide RowsWithout, Folded, Entry, Recorded;
    var events := [DeleteRow(s.client), ForgetEntry(s.client), Finish(day, seen)];
    RunAppend(w, [events[0]], events[1..]);
    RunAppend(Step(w, events[0]), [events[1]], [events[2]]);
    assert [events[0]] + events[1..] == events && [events[1]] + [events[2]] == events[1..];
    RunOne(w, events[0]);
    RunOne(Step(w, events[0]), events[1]);
    RunOne(Step(Step(w, events[0]), events[1]), events[2]);
    RowsWithoutLacks(w.rows, s.client, s.client);
    ActivityRuns.RecordOne(w.store - {s.client}, day, seen, s);
  }

  /** Reconciling keeps exactly the entries of the clients listed, as they are. */
  lemma ReconcileIs(w: World, id: int)
    requires w.phase.Listed?
    ensures var r := Step(w, Reconcile).store;
            && (id in r <==> id in w.store && exists i :: 0 <= i < |w.phase.clients| && w.phase.clients[i].id == id)
            && (id in r ==> r[id] == w.store[id])
  {
    hide SamplesOf;
    var clients := w.phase.clients;
    if i :| 0 <= i < |clients| && clients[i].id == id {
      assert Ids(clients)[i] == id;
    }
    if id in Ids(clients) {
      var i :| 0 <= i < |clients| && Ids(clients)[i] == id;
      assert clients[i].id == id;
    }
  }

  // ----- Every interleaving is a run of the store

  /** What an event does to the store. */
  function StoreOps(w: World, e: Event): seq<ActivityRuns.Op> {
    match e
    case Reconcile => if w.phase.Listed? then [ActivityRuns.Retain(Ids(w.phase.clients))] else []
    case Finish(day, seen) => if w.phase.Ready? then [ActivityRuns.Record(day, seen, w.phase.samples)] else []
    case ForgetEntry(id) => [ActivityRuns.Forget(id)]
    case PruneDays(cutoff) => [ActivityRuns.Prune(cutoff)]
    case PurgeAll => [ActivityRuns.Purge]
    case _ => []
  }

  function AllStoreOps(w: World, events: seq<Event>): seq<ActivityRuns.Op>
    decreases |events|
  {
    if events == [] then [] else StoreOps(w, events[0]) + AllStoreOps(Step(w, events[0]), events[1..])
  }

  lemma StepIsStoreRun(w: World, e: Event, more: seq<ActivityRuns.Op>)
    ensures ActivityRuns.Run(w.store, StoreOps(w, e) + more) == ActivityRuns.Run(Step(w, e).store, more)
  {
    hide Recorded, Pruned, Retained, Ids, SamplesOf, RowsWithout;
    var ops := StoreOps(w, e);
    if ops == [] {
      assert ops + more == more;
    } else {
      assert (ops + more)[0] == ops[0] && (ops + more)[1..] == more;
    }
  }

  /** However polls, deletions, prunes and purges interleave, the store goes through a run of its own operations. */
  lemma {:induction false} PollingIsStoreRun(w: World, events: seq<Event>)
    ensures Run(w, events).store == ActivityRuns.Run(w.store, AllStoreOps(w, events))
    decreases |events|
  {
    hide Step, StoreOps;
    if events != [] {
      PollingIsStoreRun(Step(w, events[0]), events[1..]);
      StepIsStoreRun(w, events[0], AllStoreOps(Step(w, events[0]), events[1..]));
    }
  }

  /** So whatever the interleaving, from an empty store every entry keeps its books and its bound on days. */
  lemma PollingConserves(rows: seq<Row>, events: seq<Event>, id: int)
    requires id in Run(World(map[], rows, Idle), events).store
    ensures var w := World(map[], rows, Idle);
            var a, ops := Run(w, events).store[id], AllStoreOps(w, events);
            id in ActivityRuns.RunLedger(map[], map[], ops)
            && ActivityRuns.Conserved(a, ActivityRuns.RunLedger(map[], map[], ops)[id]) && |a.days| <= 366
  {
    hide Run, AllStoreOps;
    var w := World(map[], rows, Idle);
    PollingIsStoreRun(w, events);
    ActivityRuns.EveryRun(AllStoreOps(w, events), id);
  }
}
