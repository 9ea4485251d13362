/** Per-client activity kept in memory: folding samples, pruning and eviction, and what every run conserves. */
module Activity {
  import opened Wrappers

  /** One day above the longest retention that can be configured. */
  const MAX_DAYS_PER_CLIENT := 365 + 1

  datatype DayCell = DayCell(hits: int, rx: int, tx: int)

  /** Buckets by day, in chronological order; days are numbered. */
  type Days = seq<(int, DayCell)>

  datatype ClientActivity = ClientActivity(totalRx: int, totalTx: int, lastRx: Option<int>, lastTx: Option<int>,
                                           lastSeen: Option<int>, days: Days)

  type Store = map<int, ClientActivity>

  datatype Sample = Sample(client: int, rx: int, tx: int)

  const NoActivity := ClientActivity(0, 0, None, None, None, [])

  ghost predicate Chronological(days: Days) {
    forall i, j :: 0 <= i < j < |days| ==> days[i].0 < days[j].0
  }

  // ----- Days

  /** One more hit, and the bytes, in the bucket of `day`, which is created if it is absent. */
  function Bump(days: Days, day: int, rx: int, tx: int): Days {
    if days == [] || day < days[0].0 then [(day, DayCell(1, rx, tx))] + days
    else if days[0].0 == day then
      var c := days[0].1;
      [(day, DayCell(c.hits + 1, c.rx + rx, c.tx + tx))] + days[1..]
    else [days[0]] + Bump(days[1..], day, rx, tx)
  }

  /** How many of the oldest days are over the limit. */
  function Excess(days: Days): nat {
    if |days| > MAX_DAYS_PER_CLIENT then |days| - MAX_DAYS_PER_CLIENT else 0
  }

  /** How many days lie before the cutoff. */
  function Older(days: Days, cutoff: int): (n: nat)
    ensures n <= |days|
  {
    if days == [] || days[0].0 >= cutoff then 0 else 1 + Older(days[1..], cutoff)
  }

  function Find(days: Days, day: int): DayCell {
    if days == [] then DayCell(0, 0, 0) else if days[0].0 == day then days[0].1 else Find(days[1..], day)
  }

  function Series(days: Days, wanted: seq<int>): (r: seq<DayCell>)
    ensures |r| == |wanted|
  {
    seq(|wanted|, i requires 0 <= i < |wanted| => Find(days, wanted[i]))
  }

  function AddCells(a: DayCell, b: DayCell): DayCell {
    DayCell(a.hits + b.hits, a.rx + b.rx, a.tx + b.tx)
  }

  function Sum(days: Days): DayCell {
    if days == [] then DayCell(0, 0, 0) else AddCells(days[0].1, Sum(days[1..]))
  }

  lemma {:induction false} SumSplit(days: Days, n: nat)
    requires n <= |days|
    ensures Sum(days) == AddCells(Sum(days[..n]), Sum(days[n..]))
    decreases n
  {
    hide AddCells;
    if n == 0 {
      assert days[0..] == days && days[..0] == [];
      AddNone(Sum(days));
    } else {
      SumSplit(days[1..], n - 1);
      assert days[1..][..n - 1] == days[..n][1..];
      assert days[1..][n - 1..] == days[n..];
      AddAssoc(days[0].1, Sum(days[..n][1..]), Sum(days[n..]));
    }
  }

  lemma AddNone(a: DayCell)
    ensures AddCells(DayCell(0, 0, 0), a) == a
  {
  }

  lemma AddAssoc(a: DayCell, b: DayCell, c: DayCell)
    ensures AddCells(AddCells(a, b), c) == AddCells(a, AddCells(b, c))
  {
  }

  lemma {:induction false} BumpSum(days: Days, day: int, rx: int, tx: int)
    ensures Sum(Bump(days, day, rx, tx)) == AddCells(Sum(days), DayCell(1, rx, tx))
    decreases |days|
  {
    var b := Bump(days, day, rx, tx);
    if days == [] || day < days[0].0 {
      assert b[1..] == days;
    } else if days[0].0 == day {
      assert b[1..] == days[1..];
    } else {
      BumpSum(days[1..], day, rx, tx);
      assert b[1..] == Bump(days[1..], day, rx, tx);
    }
  }

  lemma {:induction false} BumpKeeps(days: Days, day: int, rx: int, tx: int)
    requires Chronological(days)
    ensures Chronological(Bump(days, day, rx, tx))
    ensures |days| <= |Bump(days, day, rx, tx)| <= |days| + 1
    ensures forall k :: 0 <= k < |Bump(days, day, rx, tx)| ==>
              Bump(days, day, rx, tx)[k].0 == day || exists j :: 0 <= j < |days| && days[j].0 == Bump(days, day, rx, tx)[k].0
    decreases |days|
  {
    var b := Bump(days, day, rx, tx);
    if days == [] || day < days[0].0 {
      forall k | 1 <= k < |b|
        ensures b[k] == days[k - 1]
      {
      }
    } else if days[0].0 == day {
    } else {
      var rest := Bump(days[1..], day, rx, tx);
      BumpKeeps(days[1..], day, rx, tx);
      forall k | 0 <= k < |rest|
        ensures rest[k].0 > days[0].0
        ensures rest[k].0 == day || exists j :: 0 <= j < |days| && days[j].0 == rest[k].0
      {
        if rest[k].0 != day {
          var j :| 0 <= j < |days[1..]| && days[1..][j].0 == rest[k].0;
          assert days[j + 1].0 == rest[k].0;
        }
      }
    }
  }

  lemma {:induction false} BumpFind(days: Days, day: int, rx: int, tx: int, other: int)
    requires Chronological(days)
    ensures Find(Bump(days, day, rx, tx), other)
            == if other == day then AddCells(Find(days, day), DayCell(1, rx, tx)) else Find(days, other)
    decreases |days|
  {
    var b := Bump(days, day, rx, tx);
    if days == [] || day < days[0].0 {
      assert b[1..] == days;
      FindBefore(days, day);
    } else if days[0].0 == day {
      assert b[1..] == days[1..];
    } else {
      BumpFind(days[1..], day, rx, tx, other);
      assert b[1..] == Bump(days[1..], day, rx, tx);
    }
  }

  predicate HasDay(days: Days, day: int) {
    exists k :: 0 <= k < |days| && days[k].0 == day
  }

  /** The day is there afterwards; one bucket is added unless it was there before; an older day goes first. */
  lemma {:induction false} BumpPlace(days: Days, day: int, rx: int, tx: int)
    requires Chronological(days)
    ensures HasDay(Bump(days, day, rx, tx), day)
    ensures |Bump(days, day, rx, tx)| == |days| + if HasDay(days, day) then 0 else 1
    ensures Bump(days, day, rx, tx)[0].0 == if days == [] || day < days[0].0 then day else days[0].0
    decreases |days|
  {
    var b := Bump(days, day, rx, tx);
    if days == [] || day < days[0].0 {
      assert b[0].0 == day;
      NotBefore(days, day);
    } else if days[0].0 == day {
      assert b[0].0 == day;
    } else {
      BumpPlace(days[1..], day, rx, tx);
      var k :| 0 <= k < |b[1..]| && b[1..][k].0 == day;
      assert b[k + 1].0 == day;
      if HasDay(days, day) {
        var j :| 0 <= j < |days| && days[j].0 == day;
        assert days[1..][j - 1].0 == day;
      }
      if HasDay(days[1..], day) {
        var j :| 0 <= j < |days[1..]| && days[1..][j].0 == day;
        assert days[j + 1].0 == day;
      }
    }
  }

  lemma NotBefore(days: Days, day: int)
    requires Chronological(days) && (days == [] || day < days[0].0)
    ensures !HasDay(days, day)
  {
    if days != [] {
      forall k | 0 <= k < |days|
        ensures days[k].0 >= days[0].0
      {
      }
    }
  }

  /** Dropping the first day leaves every other as it was. */
  lemma FindRest(days: Days, day: int)
    requires Chronological(days) && days != []
    ensures Find(days[1..], day) == if day == days[0].0 then DayCell(0, 0, 0) else Find(days, day)
  {
    if day == days[0].0 {
      FindBefore(days[1..], day);
    }
  }

  lemma {:induction false} FindBefore(days: Days, day: int)
    requires Chronological(days) && (days == [] || day < days[0].0)
    ensures Find(days, day) == DayCell(0, 0, 0)
    decreases |days|
  {
    if days != [] {
      FindBefore(days[1..], day);
    }
  }

  /** What is dropped is exactly what is older than the cutoff. */
  lemma {:induction false} OlderIs(days: Days, cutoff: int)
    requires Chronological(days)
    ensures forall k :: 0 <= k < |days| ==> (days[k].0 < cutoff <==> k < Older(days, cutoff))
    decreases |days|
  {
    if days != [] && days[0].0 < cutoff {
      OlderIs(days[1..], cutoff);
      forall k | 0 < k < |days|
        ensures days[k] == days[1..][k - 1]
      {
      }
    }
  }

  // ----- One sample

  /** A clamped increase: nothing without a baseline, nothing when the counter went back. */
  function Delta(last: Option<int>, now: int): nat {
    match last
    case None => 0
    case Some(prev) => if now > prev then now - prev else 0
  }

  function Bumped(a: ClientActivity, day: int, s: Sample): Days {
    Bump(a.days, day, Delta(a.lastRx, s.rx), Delta(a.lastTx, s.tx))
  }

  function Folded(a: ClientActivity, day: int, seen: int, s: Sample): ClientActivity {
    ClientActivity(a.totalRx + Delta(a.lastRx, s.rx), a.totalTx + Delta(a.lastTx, s.tx), Some(s.rx), Some(s.tx), Some(seen),
                   Bumped(a, day, s)[Excess(Bumped(a, day, s))..])
  }

  function Entry(st: Store, id: int): ClientActivity {
    if id in st then st[id] else NoActivity
  }

  function Recorded(st: Store, day: int, seen: int, samples: seq<Sample>): Store
    decreases |samples|
  {
    if samples == [] then st
    else
      var s := samples[0];
      Recorded(st[s.client := Folded(Entry(st, s.client), day, seen, s)], day, seen, samples[1..])
  }

  // ----- The other operations

  function Trimmed(a: ClientActivity, cutoff: int): ClientActivity {
    a.(days := a.days[Older(a.days, cutoff)..])
  }

  predicate WorthKeeping(a: ClientActivity) {
    a.days != [] || a.totalRx > 0 || a.totalTx > 0
  }

  function Pruned(st: Store, cutoff: int): Store {
    map id | id in st && WorthKeeping(Trimmed(st[id], cutoff)) :: Trimmed(st[id], cutoff)
  }

  // Pruning keeps an entry iff it holds a day from the cutoff on, or has ever booked a byte; of its days exactly those
  // from the cutoff on stay, and its totals are untouched.
  lemma PrunedIs(st: Store, cutoff: int, id: int)
    requires id in st && Chronological(st[id].days)
    ensures id in Pruned(st, cutoff) <==>
              st[id].totalRx > 0 || st[id].totalTx > 0 || exists k :: 0 <= k < |st[id].days| && st[id].days[k].0 >= cutoff
    ensures id in Pruned(st, cutoff) ==>
              var a := Pruned(st, cutoff)[id];
              && a == st[id].(days := a.days)
              && forall cell :: cell in a.days <==> cell in st[id].days && cell.0 >= cutoff
  {
    var days := st[id].days;
    OlderIs(days, cutoff);
    var n := Older(days, cutoff);
    if n < |days| {
      assert days[n].0 >= cutoff;
    }
    forall cell
      ensures cell in days[n..] <==> cell in days && cell.0 >= cutoff
    {
      if cell in days[n..] {
        var k :| 0 <= k < |days[n..]| && days[n..][k] == cell;
        assert days[n + k] == cell;
      }
      if cell in days && cell.0 >= cutoff {
        var k :| 0 <= k < |days| && days[k] == cell;
        assert days[n..][k - n] == cell;
      }
    }
  }

  function Retained(st: Store, live: seq<int>): Store {
    map id | id in st && id in live :: st[id]
  }

  /** How many of a client's oldest buckets go: those before the cutoff, or all of them. */
  function Dropped(days: Days, cutoff: Option<int>): (n: nat)
    ensures n <= |days|
  {
    match cutoff case None => |days| case Some(c) => Older(days, c)
  }

  /** The dropped buckets of the clients in `ids`, as (client, position) pairs. */
  ghost function Buckets(st: Store, ids: set<int>, cutoff: Option<int>): set<(int, int)> {
    set id, k | id in ids && id in st && 0 <= k < Dropped(st[id].days, cutoff) :: (id, k)
  }

  lemma BucketsNone(st: Store, cutoff: Option<int>)
    ensures Buckets(st, {}, cutoff) == {}
  {
  }

  lemma BucketsStep(st: Store, ids: set<int>, id: int, cutoff: Option<int>)
    requires id in st && id !in ids
    ensures |Buckets(st, ids + {id}, cutoff)| == |Buckets(st, ids, cutoff)| + Dropped(st[id].days, cutoff)
  {
    hide Dropped;
    var n := Dropped(st[id].days, cutoff);
    var added := Column(id, n);
    ColumnSize(id, n);
    assert Buckets(st, ids + {id}, cutoff) == Buckets(st, ids, cutoff) + added;
  }

  ghost function Column(id: int, n: nat): set<(int, int)> {
    set k | 0 <= k < n :: (id, k)
  }

  lemma {:induction false} ColumnSize(id: int, n: nat)
    ensures |Column(id, n)| == n
  {
    if n > 0 {
      ColumnSize(id, n - 1);
      assert Column(id, n) == Column(id, n - 1) + {(id, n - 1)};
    }
  }

  /** Some clients' histories trimmed, the rest as they were. */
  ghost function TrimmedSome(st: Store, ids: set<int>, cutoff: int): Store {
    map id | id in st :: if id in ids then Trimmed(st[id], cutoff) else st[id]
  }

  lemma TrimmedNone(st: Store, cutoff: int)
    ensures TrimmedSome(st, {}, cutoff) == st
  {
  }

  lemma TrimmedStep(st: Store, ids: set<int>, id: int, cutoff: int)
    requires id in st && id !in ids
    ensures id in TrimmedSome(st, ids, cutoff) && TrimmedSome(st, ids, cutoff)[id] == st[id]
    ensures TrimmedSome(st, ids + {id}, cutoff) == TrimmedSome(st, ids, cutoff)[id := Trimmed(st[id], cutoff)]
  {
    hide Trimmed;
  }

  lemma TrimmedAll(st: Store, cutoff: int)
    ensures var t := TrimmedSome(st, st.Keys, cutoff);
            (map id | id in t && WorthKeeping(t[id]) :: t[id]) == Pruned(st, cutoff)
  {
    hide Trimmed, WorthKeeping;
  }

  lemma NonEmpty(s: set<int>)
    ensures s == {} || exists id: int :: id in s
  {
    if forall id: int :: id !in s {
      assert s == {};
    }
  }

  class ActivityStore {
    var entries: Store

    constructor ()
      ensures entries == map[]
    {
      entries := map[];
    }

    /** Folds one tick in, evicting oldest days over the limit. */
    method RecordSamples(day: int, seen: int, samples: seq<Sample>) returns (n: nat)
      modifies this
      ensures entries == Recorded(old(entries), day, seen, samples) && n == |samples|
    {
      hide Bump;
      for k := 0 to |samples|
        invariant Recorded(entries, day, seen, samples[k..]) == Recorded(old(entries), day, seen, samples)
      {
        var s := samples[k];
        assert samples[k..][1..] == samples[k + 1..];
        var entry := Entry(entries, s.client);
        var rxDelta := Delta(entry.lastRx, s.rx);
        var txDelta := Delta(entry.lastTx, s.tx);
        var days := Bump(entry.days, day, rxDelta, txDelta);
        ghost var bumped := days;
        ghost var out := 0;
        while |days| > MAX_DAYS_PER_CLIENT
          invariant out <= |bumped| && days == bumped[out..] && out <= Excess(bumped)
        {
          days := days[1..];
          out := out + 1;
        }
        entries := entries[s.client := ClientActivity(entry.totalRx + rxDelta, entry.totalTx + txDelta,
                                                      Some(s.rx), Some(s.tx), Some(seen), days)];
      }
      return |samples|;
    }

    /** Drops buckets older than the cutoff, then entries left with nothing. */
    method PruneBefore(cutoff: int) returns (removed: nat)
      modifies this
      ensures entries == Pruned(old(entries), cutoff)
      ensures removed == |Buckets(old(entries), old(entries).Keys, Some(cutoff))|
    {
      hide TrimmedSome, WorthKeeping, Buckets, Older, Pruned;
      ghost var before := entries;
      BucketsNone(before, Some(cutoff));
      TrimmedNone(before, cutoff);
      removed := 0;
      var todo: set<int> := entries.Keys;
      ghost var done: set<int> := {};
      while todo != {}
        invariant todo + done == before.Keys && todo !! done
        invariant entries == TrimmedSome(before, done, cutoff)
        invariant removed == |Buckets(before, done, Some(cutoff))|
        decreases |todo|
      {
        NonEmpty(todo);
        var id: int :| id in todo;
        todo := todo - {id};
        BucketsStep(before, done, id, Some(cutoff));
        TrimmedStep(before, done, id, cutoff);
        var cut := Older(entries[id].days, cutoff);
        removed := removed + cut;
        entries := entries[id := entries[id].(days := entries[id].days[cut..])];
        done := done + {id};
      }
      assert done == before.Keys;
      TrimmedAll(before, cutoff);
      entries := map id | id in entries && WorthKeeping(entries[id]) :: entries[id];
    }

    /** Erases everything. */
    method Purge() returns (n: nat)
      modifies this
      ensures entries == map[]
      ensures n == |Buckets(old(entries), old(entries).Keys, None)|
    {
      hide Buckets;
      ghost var before := entries;
      BucketsNone(before, None);
      n := 0;
      var todo: set<int> := entries.Keys;
      ghost var done: set<int> := {};
      while todo != {}
        invariant todo + done == before.Keys && todo !! done && entries == before
        invariant n == |Buckets(before, done, None)|
        decreases |todo|
      {
        NonEmpty(todo);
        var id: int :| id in todo;
        todo := todo - {id};
        BucketsStep(before, done, id, None);
        n := n + |entries[id].days|;
        done := done + {id};
      }
      assert done == before.Keys;
      entries := map[];
    }

    method ForgetClient(id: int)
      modifies this
      ensures entries == old(entries) - {id}
    {
      entries := entries - {id};
    }

    /** Drops every entry whose client is not listed. */
    method RetainClients(live: seq<int>) returns (dropped: nat)
      modifies this
      ensures entries == Retained(old(entries), live)
      ensures dropped == |old(entries).Keys - (set id | id in live)|
    {
      var before := entries;
      entries := map id | id in before && id in live :: before[id];
      var gone := set id | id in before && id !in live;
      assert gone == before.Keys - (set id | id in live);
      dropped := |gone|;
    }
  }
}
