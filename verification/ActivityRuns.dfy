/** Every run of the activity store, beside a ledger of what was sampled and what was removed. */
module ActivityRuns {
  import opened Wrappers
  import opened Activity

  // ----- The ledger

  /** The counters read for a client since its entry was created, and the buckets that have left it. */
  datatype History = History(rx: seq<int>, tx: seq<int>, removed: DayCell)

  type Ledger = map<int, History>

  const NoHistory := History([], [], DayCell(0, 0, 0))

  /** What a counter gained from one reading to the next; one that went back gained nothing. */
  function Rise(from: int, to: int): nat {
    if to - from > 0 then to - from else 0
  }

  /** The rises between successive readings, added up. */
  function Increases(readings: seq<int>): nat {
    var n := |readings|;
    if n < 2 then 0 else Increases(readings[..n - 1]) + Rise(readings[n - 2], readings[n - 1])
  }

  function Read(a: ClientActivity, h: History, day: int, s: Sample): History {
    var b := Bumped(a, day, s);
    History(h.rx + [s.rx], h.tx + [s.tx], AddCells(h.removed, Sum(b[..Excess(b)])))
  }

  function Past(lg: Ledger, id: int): History {
    if id in lg then lg[id] else NoHistory
  }

  function ReadAll(st: Store, lg: Ledger, day: int, seen: int, samples: seq<Sample>): Ledger
    decreases |samples|
  {
    if samples == [] then lg
    else
      var s := samples[0];
      var a := Entry(st, s.client);
      ReadAll(st[s.client := Folded(a, day, seen, s)], lg[s.client := Read(a, Past(lg, s.client), day, s)], day, seen, samples[1..])
  }

  function Cut(a: ClientActivity, h: History, cutoff: int): History {
    h.(removed := AddCells(h.removed, Sum(a.days[..Older(a.days, cutoff)])))
  }

  // ----- Runs

  datatype Op = Record(day: int, seen: int, samples: seq<Sample>) | Prune(cutoff: int) | Purge | Forget(id: int) | Retain(live: seq<int>)

  function Step(st: Store, op: Op): Store {
    match op
    case Record(day, seen, samples) => Recorded(st, day, seen, samples)
    case Prune(cutoff) => Pruned(st, cutoff)
    case Purge => map[]
    case Forget(id) => st - {id}
    case Retain(live) => Retained(st, live)
  }

  /** The ledger follows: an entry that leaves the store takes its history with it. */
  function StepLedger(st: Store, lg: Ledger, op: Op): Ledger {
    match op
    case Record(day, seen, samples) => ReadAll(st, lg, day, seen, samples)
    case Prune(cutoff) => map id | id in Pruned(st, cutoff) && id in lg :: Cut(st[id], lg[id], cutoff)
    case Purge => map[]
    case Forget(id) => lg - {id}
    case Retain(live) => map id | id in lg && id in live :: lg[id]
  }

  function Run(st: Store, ops: seq<Op>): Store
    decreases |ops|
  {
    if ops == [] then st else Run(Step(st, ops[0]), ops[1..])
  }

  function RunLedger(st: Store, lg: Ledger, ops: seq<Op>): Ledger
    decreases |ops|
  {
    if ops == [] then lg else RunLedger(Step(st, ops[0]), StepLedger(st, lg, ops[0]), ops[1..])
  }

  // ----- Conservation

  predicate Counters(readings: seq<int>, total: int, last: Option<int>) {
    && total == Increases(readings)
    && last == if readings == [] then None else Some(readings[|readings| - 1])
  }

  predicate Sane(c: DayCell) {
    c.hits >= 0 && c.rx >= 0 && c.tx >= 0
  }

  // Lifetime totals are the clamped increases of the counters; and totals and sample count are what the day
  // buckets hold plus what was removed.
  ghost predicate Conserved(a: ClientActivity, h: History) {
    && Counters(h.rx, a.totalRx, a.lastRx) && Counters(h.tx, a.totalTx, a.lastTx) && |h.rx| == |h.tx|
    && AddCells(Sum(a.days), h.removed) == DayCell(|h.rx|, a.totalRx, a.totalTx)
    && GoodDays(a.days) && |a.days| <= MAX_DAYS_PER_CLIENT && Sane(h.removed)
  }

  ghost predicate GoodDays(days: Days) {
    Chronological(days) && forall k :: 0 <= k < |days| ==> Sane(days[k].1)
  }

  ghost predicate AllConserved(st: Store, lg: Ledger) {
    st.Keys == lg.Keys && forall id :: id in st ==> Conserved(st[id], lg[id])
  }

  lemma CountersStep(readings: seq<int>, total: int, last: Option<int>, now: int)
    requires Counters(readings, total, last)
    ensures Counters(readings + [now], total + Delta(last, now), Some(now))
  {
    assert (readings + [now])[..|readings|] == readings;
  }

  predicate NeverFalls(readings: seq<int>) {
    forall i, j :: 0 <= i < j < |readings| ==> readings[i] <= readings[j]
  }

  /** When no reading falls, the increases are the last reading less the first. */
  lemma {:induction false} SteadyIncreases(readings: seq<int>)
    requires readings != [] && NeverFalls(readings)
    ensures Increases(readings) == readings[|readings| - 1] - readings[0]
    decreases |readings|
  {
    if |readings| > 1 {
      SteadyIncreases(readings[..|readings| - 1]);
    }
  }

  lemma {:induction false} SaneSum(days: Days)
    requires forall k :: 0 <= k < |days| ==> Sane(days[k].1)
    ensures Sane(Sum(days))
    decreases |days|
  {
    if days != [] {
      SaneSum(days[1..]);
    }
  }

  lemma {:induction false} BumpSane(days: Days, day: int, rx: nat, tx: nat)
    requires forall k :: 0 <= k < |days| ==> Sane(days[k].1)
    ensures forall k :: 0 <= k < |Bump(days, day, rx, tx)| ==> Sane(Bump(days, day, rx, tx)[k].1)
    decreases |days|
  {
    if days == [] || day < days[0].0 {
    } else if days[0].0 == day {
    } else {
      BumpSane(days[1..], day, rx, tx);
    }
  }

  lemma Drop(days: Days, n: nat)
    requires n <= |days| && GoodDays(days)
    ensures GoodDays(days[n..])
    ensures Sum(days) == AddCells(Sum(days[..n]), Sum(days[n..])) && Sane(Sum(days[..n]))
  {
    SumSplit(days, n);
    SaneSum(days[..n]);
  }

  lemma Regroup(gone: DayCell, kept: DayCell, before: DayCell, removed: DayCell, one: DayCell)
    requires AddCells(gone, kept) == AddCells(before, one)
    ensures AddCells(kept, AddCells(removed, gone)) == AddCells(AddCells(before, removed), one)
  {
  }

  lemma FoldConserves(a: ClientActivity, h: History, day: int, seen: int, s: Sample)
    requires Conserved(a, h)
    ensures Conserved(Folded(a, day, seen, s), Read(a, h, day, s))
  {
    hide Increases, Sum, Bump, Delta, Chronological, Sane;
    var rx, tx := Delta(a.lastRx, s.rx), Delta(a.lastTx, s.tx);
    var b := Bumped(a, day, s);
    CountersStep(h.rx, a.totalRx, a.lastRx, s.rx);
    CountersStep(h.tx, a.totalTx, a.lastTx, s.tx);
    BumpKeeps(a.days, day, rx, tx);
    BumpSane(a.days, day, rx, tx);
    BumpSum(a.days, day, rx, tx);
    Drop(b, Excess(b));
    Regroup(Sum(b[..Excess(b)]), Sum(b[Excess(b)..]), Sum(a.days), h.removed, DayCell(1, rx, tx));
    SaneAdd(h.removed, Sum(b[..Excess(b)]));
  }

  lemma SaneAdd(a: DayCell, b: DayCell)
    requires Sane(a) && Sane(b)
    ensures Sane(AddCells(a, b))
  {
  }

  lemma NothingCounted(readings: seq<int>)
    requires readings == []
    ensures Counters(readings, 0, None)
  {
  }

  lemma NothingSummed(days: Days)
    requires days == []
    ensures Sum(days) == DayCell(0, 0, 0)
  {
  }

  lemma NothingKept(days: Days)
    requires days == []
    ensures GoodDays(days) && |days| <= MAX_DAYS_PER_CLIENT
  {
  }

  lemma SaneNothing(c: DayCell)
    requires c.hits == 0 && c.rx == 0 && c.tx == 0
    ensures Sane(c)
  {
  }

  /** An entry that has just been created, before its first sample. */
  lemma NothingConserved(a: ClientActivity, h: History)
    requires a.totalRx == 0 && a.totalTx == 0 && a.lastRx == None && a.lastTx == None && a.days == []
    requires h.rx == [] && h.tx == [] && h.removed == DayCell(0, 0, 0)
    ensures Conserved(a, h)
  {
    hide Counters, Sum, AddCells, GoodDays, Sane;
    NothingKept(a.days);
    NothingSummed(a.days);
    AddNone(h.removed);
    SaneNothing(h.removed);
    NothingCounted(h.rx);
    NothingCounted(h.tx);
  }

  lemma {:induction false} RecordConserves(st: Store, lg: Ledger, day: int, seen: int, samples: seq<Sample>)
    requires AllConserved(st, lg)
    ensures AllConserved(Recorded(st, day, seen, samples), ReadAll(st, lg, day, seen, samples))
    decreases |samples|
  {
    hide Conserved, Folded, Read;
    if samples != [] {
      var s := samples[0];
      var a, h := Entry(st, s.client), Past(lg, s.client);
      NothingConserved(NoActivity, NoHistory);
      FoldConserves(a, h, day, seen, s);
      RecordConserves(st[s.client := Folded(a, day, seen, s)], lg[s.client := Read(a, h, day, s)], day, seen, samples[1..]);
    }
  }

  lemma CutConserves(a: ClientActivity, h: History, cutoff: int)
    requires Conserved(a, h)
    ensures Conserved(Trimmed(a, cutoff), Cut(a, h, cutoff))
  {
    hide Increases, Sum, Chronological, Sane;
    var n := Older(a.days, cutoff);
    Drop(a.days, n);
    SaneAdd(h.removed, Sum(a.days[..n]));
  }

  lemma PruneConserves(st: Store, lg: Ledger, cutoff: int)
    requires AllConserved(st, lg)
    ensures AllConserved(Pruned(st, cutoff), StepLedger(st, lg, Prune(cutoff)))
  {
    hide Conserved, WorthKeeping, Trimmed, Cut;
    forall id | id in st
      ensures Conserved(Trimmed(st[id], cutoff), Cut(st[id], lg[id], cutoff))
    {
      CutConserves(st[id], lg[id], cutoff);
    }
  }

  /** Whatever the run, every live entry accounts for everything it was told. */
  lemma {:induction false} RunConserves(st: Store, lg: Ledger, ops: seq<Op>)
    requires AllConserved(st, lg)
    ensures AllConserved(Run(st, ops), RunLedger(st, lg, ops))
    decreases |ops|
  {
    hide Conserved, Recorded, ReadAll, Pruned;
    if ops != [] {
      match ops[0] {
        case Record(day, seen, samples) => RecordConserves(st, lg, day, seen, samples);
        case Prune(cutoff) => PruneConserves(st, lg, cutoff);
        case Purge =>
        case Forget(id) =>
        case Retain(live) =>
      }
      RunConserves(Step(st, ops[0]), StepLedger(st, lg, ops[0]), ops[1..]);
    }
  }

  /** From an empty store: totals, buckets and the bound on days, for every client alive at the end. */
  lemma EveryRun(ops: seq<Op>, id: int)
    requires id in Run(map[], ops)
    ensures id in RunLedger(map[], map[], ops)
    ensures Conserved(Run(map[], ops)[id], RunLedger(map[], map[], ops)[id])
    ensures |Run(map[], ops)[id].days| <= 366
  {
    hide Run, RunLedger;
    RunConserves(map[], map[], ops);
  }

  // On every entry a run leaves: where no counter fell, the totals are what the counters gained between the first and
  // the last sample.
  lemma SteadyTotals(ops: seq<Op>, id: int)
    requires id in Run(map[], ops)
    ensures id in RunLedger(map[], map[], ops)
    ensures var a, h := Run(map[], ops)[id], RunLedger(map[], map[], ops)[id];
            && (h.rx != [] && NeverFalls(h.rx) ==> a.totalRx == h.rx[|h.rx| - 1] - h.rx[0])
            && (h.tx != [] && NeverFalls(h.tx) ==> a.totalTx == h.tx[|h.tx| - 1] - h.tx[0])
  {
    hide Run, RunLedger, Increases, NeverFalls;
    EveryRun(ops, id);
    var h := RunLedger(map[], map[], ops)[id];
    if h.rx != [] && NeverFalls(h.rx) {
      SteadyIncreases(h.rx);
    }
    if h.tx != [] && NeverFalls(h.tx) {
      SteadyIncreases(h.tx);
    }
  }

  // ----- Totals never fall

  predicate NoLess(a: ClientActivity, b: ClientActivity) {
    a.totalRx <= b.totalRx && a.totalTx <= b.totalTx
  }

  lemma {:induction false} RecordRaises(st: Store, day: int, seen: int, samples: seq<Sample>, id: int)
    requires id in st
    ensures id in Recorded(st, day, seen, samples) && NoLess(st[id], Recorded(st, day, seen, samples)[id])
    decreases |samples|
  {
    if samples != [] {
      var s := samples[0];
      RecordRaises(st[s.client := Folded(Entry(st, s.client), day, seen, s)], day, seen, samples[1..], id);
    }
  }

  predicate LivesThrough(st: Store, ops: seq<Op>, id: int)
    decreases |ops|
  {
    id in st && (ops == [] || LivesThrough(Step(st, ops[0]), ops[1..], id))
  }

  /** While an entry lives, no operation lowers its totals. */
  lemma {:induction false} TotalsNeverFall(st: Store, ops: seq<Op>, id: int)
    requires LivesThrough(st, ops, id)
    ensures id in Run(st, ops) && NoLess(st[id], Run(st, ops)[id])
    decreases |ops|
  {
    hide Recorded;
    if ops != [] {
      if ops[0].Record? {
        RecordRaises(st, ops[0].day, ops[0].seen, ops[0].samples, id);
      }
      TotalsNeverFall(Step(st, ops[0]), ops[1..], id);
    }
  }

  // ----- Edges

  /** The day a tick evicts, if any: with a new day on a full entry, the oldest of the two ends. */
  function Evicted(days: Days, day: int): Option<int> {
    if |days| < MAX_DAYS_PER_CLIENT || HasDay(days, day) then None
    else Some(if day < days[0].0 then day else days[0].0)
  }

  /** At most one day goes, and it is that one. */
  lemma FoldEvicts(a: ClientActivity, day: int, seen: int, s: Sample)
    requires Chronological(a.days) && |a.days| <= MAX_DAYS_PER_CLIENT
    ensures var b := Bumped(a, day, s);
            Chronological(b) && b != []
            && Folded(a, day, seen, s).days == (if Evicted(a.days, day) == None then b else b[1..])
            && (Evicted(a.days, day).Some? ==> Evicted(a.days, day).value == b[0].0)
  {
    hide Bump, HasDay, Chronological;
    var rx, tx := Delta(a.lastRx, s.rx), Delta(a.lastTx, s.tx);
    BumpKeeps(a.days, day, rx, tx);
    BumpPlace(a.days, day, rx, tx);
    var b := Bumped(a, day, s);
    assert b[0..] == b;
  }

  /** A tick's own day is kept unless the entry is full and the day is older than all it holds. */
  lemma TickSurvives(a: ClientActivity, day: int, seen: int, s: Sample)
    requires Chronological(a.days) && |a.days| <= 366
    ensures HasDay(Folded(a, day, seen, s).days, day)
            <==> !(|a.days| == 366 && day < a.days[0].0)
  {
    hide Bump, Folded;
    FoldEvicts(a, day, seen, s);
    BumpPlace(a.days, day, Delta(a.lastRx, s.rx), Delta(a.lastTx, s.tx));
    var b := Bumped(a, day, s);
    if |a.days| == MAX_DAYS_PER_CLIENT && day < a.days[0].0 {
      NotBefore(a.days, day);
    }
    if Evicted(a.days, day).Some? {
      var k :| 0 <= k < |b| && b[k].0 == day;
      if k > 0 {
        assert b[1..][k - 1].0 == day;
      } else {
        NotBefore(b[1..], day);
      }
    }
  }

  /** Such a tick leaves the buckets as they were. */
  lemma BackwardClock(a: ClientActivity, day: int, seen: int, s: Sample)
    requires |a.days| == MAX_DAYS_PER_CLIENT && day < a.days[0].0
    ensures Folded(a, day, seen, s).days == a.days
  {
    assert Bumped(a, day, s)[1..] == a.days;
  }

  /** A purge forgets the baselines: the next tick books no bytes, whatever the counters say. */
  lemma PurgeReanchors(st: Store, day: int, seen: int, s: Sample)
    ensures var after := Run(st, [Purge, Record(day, seen, [s])]);
            s.client in after && after[s.client].totalRx == 0 && after[s.client].totalTx == 0
            && after[s.client].days == [(day, DayCell(1, 0, 0))]
  {
    var tick := Record(day, seen, [s]);
    RunTwo(st, Purge, tick);
    RecordOne(map[], day, seen, s);
    assert Bumped(NoActivity, day, s)[0..] == [(day, DayCell(1, 0, 0))];
  }

  lemma RunTwo(st: Store, a: Op, b: Op)
    ensures Run(st, [a, b]) == Step(Step(st, a), b)
  {
    hide Step;
    assert [a, b][1..] == [b] && [b][1..] == [];
    assert Run(Step(st, a), [b]) == Run(Step(Step(st, a), b), []);
  }

  lemma RecordOne(st: Store, day: int, seen: int, s: Sample)
    ensures Recorded(st, day, seen, [s]) == st[s.client := Folded(Entry(st, s.client), day, seen, s)]
  {
    hide Folded, Entry;
    assert [s][1..] == [];
  }

  /** After a tick a series shows it in its day, zeros in the day it evicted, and every other day unchanged. */
  lemma SeriesAfterTick(a: ClientActivity, day: int, seen: int, s: Sample, other: int)
    requires Chronological(a.days) && |a.days| <= MAX_DAYS_PER_CLIENT
    ensures Series(Folded(a, day, seen, s).days, [other])
            == [if Evicted(a.days, day) == Some(other) then DayCell(0, 0, 0)
                else if other == day then AddCells(Find(a.days, day), DayCell(1, Delta(a.lastRx, s.rx), Delta(a.lastTx, s.tx)))
                else Find(a.days, other)]
  {
    hide Bump, Folded, Evicted, Find, HasDay, Chronological;
    FoldEvicts(a, day, seen, s);
    BumpFind(a.days, day, Delta(a.lastRx, s.rx), Delta(a.lastTx, s.tx), other);
    FindRest(Bumped(a, day, s), other);
  }

  // A tick whose readings are no higher than the baselines (the counters went back, or stood still) adds a hit and no
  // bytes: both totals stay, and so do the bytes of every day it does not evict.
  lemma NoRiseNoBytes(a: ClientActivity, day: int, seen: int, s: Sample, other: int)
    requires Chronological(a.days) && |a.days| <= MAX_DAYS_PER_CLIENT
    requires a.lastRx.Some? && s.rx <= a.lastRx.value && a.lastTx.Some? && s.tx <= a.lastTx.value
    ensures var b := Folded(a, day, seen, s);
            && b.totalRx == a.totalRx && b.totalTx == a.totalTx
            && (Evicted(a.days, day) != Some(other) ==>
                  Find(b.days, other) == Find(a.days, other).(hits := Find(a.days, other).hits + if other == day then 1 else 0))
  {
    hide Bump, Evicted, Find, Chronological;
    SeriesAfterTick(a, day, seen, s, other);
    assert Series(Folded(a, day, seen, s).days, [other])[0] == Find(Folded(a, day, seen, s).days, other);
  }

  /** A tick with a rise adds exactly the rise, to the totals and to its day. */
  lemma RiseIsBooked(a: ClientActivity, day: int, seen: int, s: Sample)
    requires Chronological(a.days) && |a.days| <= MAX_DAYS_PER_CLIENT && Evicted(a.days, day) != Some(day)
    requires a.lastRx.Some? && s.rx >= a.lastRx.value && a.lastTx.Some? && s.tx >= a.lastTx.value
    ensures var b := Folded(a, day, seen, s);
            && b.totalRx == a.totalRx + (s.rx - a.lastRx.value) && b.totalTx == a.totalTx + (s.tx - a.lastTx.value)
            && Find(b.days, day).rx == Find(a.days, day).rx + (s.rx - a.lastRx.value)
            && Find(b.days, day).tx == Find(a.days, day).tx + (s.tx - a.lastTx.value)
            && Find(b.days, day).hits == Find(a.days, day).hits + 1
  {
    hide Bump, Evicted, Find, Chronological;
    SeriesAfterTick(a, day, seen, s, day);
    assert Series(Folded(a, day, seen, s).days, [day])[0] == Find(Folded(a, day, seen, s).days, day);
  }
}
