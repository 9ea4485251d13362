/** The log filter: parsing its text, longest-prefix resolution, and the cheap pre-check in front of it. */
module LogFilter {
  import opened Wrappers

  datatype Level = Off | Error | Warn | Info | Debug | Trace

  function Rank(l: Level): nat {
    match l case Off => 0 case Error => 1 case Warn => 2 case Info => 3 case Debug => 4 case Trace => 5
  }

  datatype Directive = Directive(target: string, level: Level)

  // ----- Text

  /** The bytes of a character in UTF-8. */
  function CharBytes(c: char): nat {
    var x := c as int;
    if x < 0x80 then 1 else if x < 0x800 then 2 else if x < 0x10000 then 3 else 4
  }

  function ByteLen(s: string): nat {
    if s == "" then 0 else CharBytes(s[0]) + ByteLen(s[1..])
  }

  predicate IsWhite(c: char) {
    var x := c as int;
    || 9 <= x <= 13 || x == 0x20 || x == 0x85 || x == 0xA0 || x == 0x1680 || 0x2000 <= x <= 0x200A
    || x == 0x2028 || x == 0x2029 || x == 0x202F || x == 0x205F || x == 0x3000
  }

  /** The 25 characters with Unicode's White_Space property. */
  lemma Blanks(c: char)
    ensures IsWhite(c) <==>
              c as int in {0x09, 0x0a, 0x0b, 0x0c, 0x0d, 0x20, 0x85, 0xa0, 0x1680, 0x2000, 0x2001, 0x2002, 0x2003, 0x2004, 0x2005,
                           0x2006, 0x2007, 0x2008, 0x2009, 0x200a, 0x2028, 0x2029, 0x202f, 0x205f, 0x3000}
  {
  }

  function TrimLeft(s: string): (r: string)
    ensures |r| <= |s|
  {
    if s != "" && IsWhite(s[0]) then TrimLeft(s[1..]) else s
  }

  function TrimRight(s: string): (r: string)
    ensures |r| <= |s|
  {
    if s != "" && IsWhite(s[|s| - 1]) then TrimRight(s[..|s| - 1]) else s
  }

  function Trim(s: string): string {
    TrimRight(TrimLeft(s))
  }

  function LowerChar(c: char): char {
    if 'A' <= c <= 'Z' then ((c as int) + 32) as char else c
  }

  function Lower(s: string): (r: string)
    ensures |r| == |s|
  {
    seq(|s|, i requires 0 <= i < |s| => LowerChar(s[i]))
  }

  function ParseLevel(s: string): Option<Level> {
    var w := Lower(Trim(s));
    if w == "off" then Some(Off)
    else if w == "error" then Some(Error)
    else if w == "warn" then Some(Warn)
    else if w == "info" then Some(Info)
    else if w == "debug" then Some(Debug)
    else if w == "trace" then Some(Trace)
    else None
  }

  /** The text before the first `c`, and the text after it if there is one. */
  function Cut(s: string, c: char): (r: (string, Option<string>))
    ensures c !in r.0 && s == r.0 + (match r.1 case None => "" case Some(t) => [c] + t)
  {
    if s == "" then ("", None)
    else if s[0] == c then ("", Some(s[1..]))
    else
      var (a, b) := Cut(s[1..], c);
      ([s[0]] + a, b)
  }

  /** The parts between commas: always at least one. */
  function Split(s: string): (parts: seq<string>)
    ensures parts != [] && forall p :: p in parts ==> ',' !in p
    decreases |s|
  {
    var (a, b) := Cut(s, ',');
    match b
    case None => [a]
    case Some(t) => [a] + Split(t)
  }

  function Joined(parts: seq<string>): string
    requires parts != []
  {
    if |parts| == 1 then parts[0] else parts[0] + "," + Joined(parts[1..])
  }

  /** Splitting loses nothing. */
  lemma {:induction false} SplitJoined(s: string)
    ensures Joined(Split(s)) == s
    decreases |s|
  {
    var (a, b) := Cut(s, ',');
    if b.Some? {
      SplitJoined(b.value);
      assert Split(s)[1..] == Split(b.value);
    }
  }

  // ----- What a part says

  datatype Meaning = Nothing | Default(level: Level) | Directed(d: Directive)

  /** `target=level`, a bare level, or a bare target at the finest level; anything else is ignored. */
  function PartMeaning(part: string): Meaning {
    var p := Trim(part);
    if p == "" then Nothing
    else
      match Cut(p, '=')
      case (target, Some(level)) =>
        (match ParseLevel(level)
         case Some(l) => if Trim(target) != "" then Directed(Directive(Trim(target), l)) else Nothing
         case None => Nothing)
      case (_, None) =>
        match ParseLevel(p)
        case Some(l) => Default(l)
        case None => Directed(Directive(p, Trace))
  }

  /** The directives of the text, in its order. */
  function DirectivesOf(parts: seq<string>): seq<Directive> {
    if parts == [] then []
    else (match PartMeaning(parts[0]) case Directed(d) => [d] case _ => []) + DirectivesOf(parts[1..])
  }

  /** The last bare level counts. */
  function DefaultOf(parts: seq<string>, before: Level): Level {
    if parts == [] then before
    else DefaultOf(parts[1..], match PartMeaning(parts[0]) case Default(l) => l case _ => before)
  }

  // ----- Resolution

  predicate Covers(directive: string, target: string) {
    || target == directive
    || (ByteLen(target) > ByteLen(directive) && directive <= target && "::" <= target[|directive|..])
  }

  lemma {:induction false} ByteLenAppend(a: string, b: string)
    ensures ByteLen(a + b) == ByteLen(a) + ByteLen(b)
  {
    if a == "" {
      assert a + b == b;
    } else {
      assert (a + b)[1..] == a[1..] + b;
      ByteLenAppend(a[1..], b);
    }
  }

  /** A directive covers its own target and whatever continues it after `::`. */
  lemma CoversIs(directive: string, target: string)
    ensures Covers(directive, target) <==> target == directive || exists s :: target == directive + "::" + s
  {
    if Covers(directive, target) && target != directive {
      var s := target[|directive| + 2..];
      assert target == directive + "::" + s;
    }
    if s :| target == directive + "::" + s {
      assert target == directive + ("::" + s);
      ByteLenAppend(directive, "::" + s);
      ByteLenAppend("::", s);
      assert ByteLen("::") >= 1 by {
        assert ByteLen("::") == CharBytes(':') + ByteLen("::"[1..]);
      }
      assert target[|directive|..] == "::" + s;
    }
  }

  /** The target goes on right after the directive's, but not with `::`: the directive ends inside a segment. */
  ghost predicate EndsInside(directive: string, target: string) {
    exists rest :: target == directive + rest && rest != "" && !("::" <= rest)
  }

  lemma InsideUncovered(directive: string, target: string)
    requires EndsInside(directive, target)
    ensures !Covers(directive, target)
  {
    var rest :| target == directive + rest && rest != "" && !("::" <= rest);
    assert target[|directive|..] == rest;
  }

  /** The first covering directive of a list. */
  function First(ds: seq<Directive>, target: string): Option<Directive> {
    if ds == [] then None else if Covers(ds[0].target, target) then Some(ds[0]) else First(ds[1..], target)
  }

  /** Of the covering directives of the text, the longest; the earliest among equals. */
  function Best(ds: seq<Directive>, target: string): Option<Directive> {
    if ds == [] then None
    else
      var r := Best(ds[1..], target);
      if Covers(ds[0].target, target) && (r == None || ByteLen(ds[0].target) >= ByteLen(r.value.target)) then Some(ds[0]) else r
  }

  lemma {:induction false} BestIs(ds: seq<Directive>, target: string)
    ensures match Best(ds, target)
            case None => forall j :: 0 <= j < |ds| ==> !Covers(ds[j].target, target)
            case Some(d) => exists i :: 0 <= i < |ds| && IsBest(ds, target, i) && ds[i] == d
    decreases |ds|
  {
    hide Covers, ByteLen;
    if ds != [] {
      BestIs(ds[1..], target);
      var r := Best(ds[1..], target);
      if Best(ds, target) == None {
        forall j | 0 < j < |ds|
          ensures ds[j] == ds[1..][j - 1]
        {
        }
      } else if Covers(ds[0].target, target) && (r == None || ByteLen(ds[0].target) >= ByteLen(r.value.target)) {
        BestFirst(ds, target);
      } else {
        var i :| 0 <= i < |ds[1..]| && IsBest(ds[1..], target, i) && ds[1..][i] == r.value;
        BestLater(ds, target, i);
      }
    }
  }

  /** `ds[i]` covers `target`, is as long as any that does, and longer than every earlier one. */
  predicate IsBest(ds: seq<Directive>, target: string, i: int)
    requires 0 <= i < |ds|
  {
    && Covers(ds[i].target, target)
    && (forall j :: 0 <= j < |ds| && Covers(ds[j].target, target) ==> ByteLen(ds[j].target) <= ByteLen(ds[i].target))
    && (forall j :: 0 <= j < i && Covers(ds[j].target, target) ==> ByteLen(ds[j].target) < ByteLen(ds[i].target))
  }

  lemma BestFirst(ds: seq<Directive>, target: string)
    requires ds != [] && Covers(ds[0].target, target)
    requires var r := Best(ds[1..], target);
             if r == None then forall j :: 0 <= j < |ds[1..]| ==> !Covers(ds[1..][j].target, target)
             else ByteLen(ds[0].target) >= ByteLen(r.value.target)
                  && exists i :: 0 <= i < |ds[1..]| && IsBest(ds[1..], target, i) && ds[1..][i] == r.value
    ensures IsBest(ds, target, 0)
  {
    hide Covers, ByteLen, Best;
    forall j | 0 < j < |ds| && Covers(ds[j].target, target)
      ensures ByteLen(ds[j].target) <= ByteLen(ds[0].target)
    {
      assert ds[j] == ds[1..][j - 1];
    }
  }

  lemma BestLater(ds: seq<Directive>, target: string, i: int)
    requires ds != [] && 0 <= i < |ds[1..]| && IsBest(ds[1..], target, i)
    requires Covers(ds[0].target, target) ==> ByteLen(ds[0].target) < ByteLen(ds[1..][i].target)
    ensures IsBest(ds, target, i + 1)
  {
    hide Covers, ByteLen;
    forall j | 0 < j < |ds|
      ensures ds[j] == ds[1..][j - 1]
    {
    }
  }

  // ----- Sorting

  /** Stable insertion: before the elements no longer than it. */
  function Insert(d: Directive, s: seq<Directive>): seq<Directive> {
    if s == [] || ByteLen(d.target) >= ByteLen(s[0].target) then [d] + s else [s[0]] + Insert(d, s[1..])
  }

  /** Longest target first, equal lengths in their old order. */
  function Sorted(ds: seq<Directive>): seq<Directive> {
    if ds == [] then [] else Insert(ds[0], Sorted(ds[1..]))
  }

  predicate Descending(s: seq<Directive>) {
    forall i, j :: 0 <= i < j < |s| ==> ByteLen(s[i].target) >= ByteLen(s[j].target)
  }

  lemma {:induction false} InsertAdds(d: Directive, s: seq<Directive>)
    ensures multiset(Insert(d, s)) == multiset([d]) + multiset(s)
    decreases |s|
  {
    hide ByteLen;
    if s != [] && ByteLen(d.target) < ByteLen(s[0].target) {
      InsertAdds(d, s[1..]);
      assert s == [s[0]] + s[1..];
    }
  }

  /** Whatever is inserted at most as long as the head stays at most as long. */
  lemma {:induction false} InsertBound(d: Directive, s: seq<Directive>, bound: nat)
    requires ByteLen(d.target) <= bound && forall k :: 0 <= k < |s| ==> ByteLen(s[k].target) <= bound
    ensures forall k :: 0 <= k < |Insert(d, s)| ==> ByteLen(Insert(d, s)[k].target) <= bound
    decreases |s|
  {
    hide ByteLen;
    if s != [] && ByteLen(d.target) < ByteLen(s[0].target) {
      InsertBound(d, s[1..], bound);
    }
  }

  lemma {:induction false} InsertKeeps(d: Directive, s: seq<Directive>)
    requires Descending(s)
    ensures Descending(Insert(d, s))
    decreases |s|
  {
    hide ByteLen;
    if s != [] && ByteLen(d.target) < ByteLen(s[0].target) {
      InsertKeeps(d, s[1..]);
      InsertBound(d, s[1..], ByteLen(s[0].target));
    }
  }

  lemma {:induction false} SortedIs(ds: seq<Directive>)
    ensures Descending(Sorted(ds)) && multiset(Sorted(ds)) == multiset(ds)
    decreases |ds|
  {
    hide ByteLen, Insert;
    if ds != [] {
      SortedIs(ds[1..]);
      InsertKeeps(ds[0], Sorted(ds[1..]));
      InsertAdds(ds[0], Sorted(ds[1..]));
      assert ds == [ds[0]] + ds[1..];
    }
  }

  lemma {:induction false} FirstLength(s: seq<Directive>, target: string)
    requires Descending(s) && s != [] && First(s, target).Some?
    ensures ByteLen(First(s, target).value.target) <= ByteLen(s[0].target)
    decreases |s|
  {
    hide ByteLen, Covers;
    if !Covers(s[0].target, target) {
      FirstLength(s[1..], target);
    }
  }

  lemma {:induction false} FirstInserted(d: Directive, s: seq<Directive>, target: string)
    requires Descending(s)
    ensures var r := First(s, target);
            First(Insert(d, s), target)
            == if Covers(d.target, target) && (r == None || ByteLen(d.target) >= ByteLen(r.value.target)) then Some(d) else r
    decreases |s|
  {
    hide ByteLen, Covers;
    if s == [] || ByteLen(d.target) >= ByteLen(s[0].target) {
      assert ([d] + s)[1..] == s;
      if s != [] && First(s, target).Some? {
        FirstLength(s, target);
      }
    } else {
      assert ([s[0]] + Insert(d, s[1..]))[1..] == Insert(d, s[1..]);
      FirstInserted(d, s[1..], target);
    }
  }

  /** The first match of the sorted list is the longest, earliest match of the text. */
  lemma {:induction false} FirstOfSorted(ds: seq<Directive>, target: string)
    ensures First(Sorted(ds), target) == Best(ds, target)
    decreases |ds|
  {
    hide ByteLen, Covers, Insert;
    if ds != [] {
      FirstOfSorted(ds[1..], target);
      SortedIs(ds[1..]);
      FirstInserted(ds[0], Sorted(ds[1..]), target);
    }
  }

  // ----- The filter

  datatype Filter = Filter(default: Level, directives: seq<Directive>)

  function PartsOf(spec: Option<string>): seq<string> {
    match spec case None => [] case Some(s) => Split(s)
  }

  /** The definition: the longest covering directive of the text decides, else the default. */
  function Effective(spec: Option<string>, target: string): Level {
    match Best(DirectivesOf(PartsOf(spec)), target)
    case Some(d) => d.level
    case None => DefaultOf(PartsOf(spec), Info)
  }

  predicate Admits(spec: Option<string>, level: Level, target: string) {
    level != Off && Rank(level) <= Rank(Effective(spec, target))
  }

  function FilterOf(spec: Option<string>): Filter {
    Filter(DefaultOf(PartsOf(spec), Info), Sorted(DirectivesOf(PartsOf(spec))))
  }

  function MaxOf(l: Level, m: Level): Level {
    if Rank(l) < Rank(m) then m else l
  }

  /** The highest level the filter can enable. */
  function Highest(f: Filter): Level {
    HighestOf(f.directives, f.default)
  }

  function HighestOf(ds: seq<Directive>, default: Level): Level {
    if ds == [] then default else MaxOf(ds[0].level, HighestOf(ds[1..], default))
  }

  function Resolve(f: Filter, target: string): Level {
    match First(f.directives, target) case Some(d) => d.level case None => f.default
  }

  lemma ResolveIs(spec: Option<string>, target: string)
    ensures Resolve(FilterOf(spec), target) == Effective(spec, target)
  {
    hide Best, DirectivesOf, Sorted;
    FirstOfSorted(DirectivesOf(PartsOf(spec)), target);
  }

  lemma {:induction false} NoneAbove(ds: seq<Directive>, default: Level, target: string)
    ensures Rank(Resolve(Filter(default, ds), target)) <= Rank(HighestOf(ds, default))
    decreases |ds|
  {
    hide Covers;
    if ds != [] {
      NoneAbove(ds[1..], default, target);
    }
  }

  /** The highest level is that of the default or of some directive, and none of them is above it. */
  lemma {:induction false} HighestIs(ds: seq<Directive>, default: Level)
    ensures HighestOf(ds, default) == default || exists i :: 0 <= i < |ds| && ds[i].level == HighestOf(ds, default)
    ensures Rank(default) <= Rank(HighestOf(ds, default))
    ensures forall i :: 0 <= i < |ds| ==> Rank(ds[i].level) <= Rank(HighestOf(ds, default))
    decreases |ds|
  {
    if ds != [] {
      HighestIs(ds[1..], default);
      var h := HighestOf(ds[1..], default);
      if h != default {
        var i :| 0 <= i < |ds[1..]| && ds[1..][i].level == h;
        assert ds[i + 1].level == h;
      }
      forall i | 0 < i < |ds|
        ensures ds[i] == ds[1..][i - 1]
      {
      }
    }
  }

  method HighestLevel(ds: seq<Directive>, default: Level) returns (max: Level)
    ensures max == HighestOf(ds, default)
  {
    hide MaxOf;
    max := default;
    var k := |ds|;
    while k > 0
      invariant 0 <= k <= |ds| && max == HighestOf(ds[k..], default)
    {
      k := k - 1;
      assert ds[k..][1..] == ds[k + 1..];
      max := MaxOf(ds[k].level, max);
    }
    assert ds[0..] == ds;
  }

  lemma PartStep(before: seq<Directive>, default: Level, parts: seq<string>, k: nat)
    requires k < |parts|
    ensures before + DirectivesOf(parts[k..])
            == (match PartMeaning(parts[k]) case Directed(d) => before + [d] case _ => before) + DirectivesOf(parts[k + 1..])
    ensures DefaultOf(parts[k..], default)
            == DefaultOf(parts[k + 1..], match PartMeaning(parts[k]) case Default(l) => l case _ => default)
  {
    hide PartMeaning;
    assert parts[k..][1..] == parts[k + 1..];
  }

  /** The filter of a text, and the level stored for the pre-check. */
  method ParseEnvFilter(spec: Option<string>) returns (f: Filter, max: Level)
    ensures f == FilterOf(spec) && max == Highest(f)
  {
    hide PartMeaning, Sorted, DirectivesOf, DefaultOf, PartsOf;
    var default := Info;
    var directives: seq<Directive> := [];
    var parts := PartsOf(spec);
    assert parts[0..] == parts;
    for k := 0 to |parts|
      invariant directives + DirectivesOf(parts[k..]) == DirectivesOf(parts)
      invariant DefaultOf(parts[k..], default) == DefaultOf(parts, Info)
    {
      PartStep(directives, default, parts, k);
      match PartMeaning(parts[k]) {
        case Directed(d) => directives := directives + [d];
        case Default(l) => default := l;
        case Nothing =>
      }
    }
    NoParts(parts[|parts|..], default);
    assert directives + [] == directives;
    f := Filter(default, Sorted(directives));
    max := HighestLevel(f.directives, default);
  }

  lemma NoParts(parts: seq<string>, default: Level)
    requires parts == []
    ensures DirectivesOf(parts) == [] && DefaultOf(parts, default) == default
  {
  }

  // ----- The installed logger

  class Logger {
    /** Set once, by the first of `Init` and the first use. */
    var filter: Option<Filter>
    var maxLevel: Level

    constructor ()
      ensures filter == None && maxLevel == Info
    {
      filter := None;
      maxLevel := Info;
    }

    /** The installed filter, and its pre-check level, came from `spec`. */
    ghost predicate Runs(spec: Option<string>)
      reads this
    {
      filter == Some(FilterOf(spec)) && maxLevel == Highest(FilterOf(spec))
    }

    /** Parsing always stores the new pre-check level; the filter is kept if one is installed. */
    method Init(spec: Option<string>)
      modifies this
      ensures old(filter) == None ==> Runs(spec)
      ensures old(filter).Some? ==> filter == old(filter) && maxLevel == Highest(FilterOf(spec))
    {
      hide FilterOf, Highest;
      var f, max := ParseEnvFilter(spec);
      maxLevel := max;
      if filter == None {
        filter := Some(f);
      }
    }

    /** Pre-check, then a walk over the sorted directives of the filter, which is installed if need be. */
    method Enabled(level: Level, target: string) returns (r: bool)
      modifies this
      ensures Rank(level) > Rank(old(maxLevel)) ==> !r && filter == old(filter) && maxLevel == old(maxLevel)
      ensures Rank(level) <= Rank(old(maxLevel)) ==>
                && filter == (if old(filter) == None then Some(FilterOf(None)) else old(filter))
                && r == (level != Off && Rank(level) <= Rank(Resolve(filter.value, target)))
                && maxLevel == if old(filter) == None then Highest(FilterOf(None)) else old(maxLevel)
    {
      hide FilterOf, Highest, Covers;
      if Rank(level) > Rank(maxLevel) {
        return false;
      }
      if filter == None {
        var f, max := ParseEnvFilter(None);
        maxLevel := max;
        filter := Some(f);
      }
      var ds := filter.value.directives;
      var effective := filter.value.default;
      var k := 0;
      while k < |ds|
        invariant 0 <= k <= |ds| && First(ds, target) == First(ds[k..], target)
        invariant effective == filter.value.default
      {
        if Covers(ds[k].target, target) {
          return level != Off && Rank(level) <= Rank(ds[k].level);
        }
        assert ds[k..][1..] == ds[k + 1..];
        k := k + 1;
      }
      r := level != Off && Rank(level) <= Rank(effective);
    }
  }

  /** What `Enabled` answers, given the stored pre-check level and filter. */
  predicate Answer(maxLevel: Level, f: Filter, level: Level, target: string) {
    Rank(level) <= Rank(maxLevel) && level != Off && Rank(level) <= Rank(Resolve(f, target))
  }

  /** With pre-check and filter from one text, the answer is the definition, for every level and target. */
  lemma EnabledIsDefinition(spec: Option<string>, level: Level, target: string)
    ensures Answer(Highest(FilterOf(spec)), FilterOf(spec), level, target) <==> Admits(spec, level, target)
  {
    hide Resolve, Effective, Sorted, DirectivesOf, DefaultOf, HighestOf;
    ResolveIs(spec, target);
    NoneAbove(FilterOf(spec).directives, FilterOf(spec).default, target);
  }

  /** Before any filter is installed the pre-check already agrees with the default text. */
  lemma FirstUse(level: Level, target: string)
    ensures Rank(level) > Rank(Info) ==> !Admits(None, level, target)
  {
    assert DirectivesOf([]) == [];
  }

  /** No directive has an empty target. */
  lemma {:induction false} TargetsNotEmpty(parts: seq<string>)
    ensures forall d :: d in DirectivesOf(parts) ==> d.target != ""
    decreases |parts|
  {
    hide Trim, ParseLevel, Cut;
    if parts != [] {
      TargetsNotEmpty(parts[1..]);
    }
  }

  /** Whether `ds[i]` is the first directive with its target. */
  predicate FirstOfTarget(ds: seq<Directive>, i: int)
    requires 0 <= i < |ds|
  {
    forall j :: 0 <= j < i ==> ds[j].target != ds[i].target
  }

  /** Neither the default nor any directive that is not shadowed by an earlier one is above `max`. */
  predicate Within(default: Level, ds: seq<Directive>, max: Level) {
    Rank(default) <= Rank(max) && forall i :: 0 <= i < |ds| && FirstOfTarget(ds, i) ==> Rank(ds[i].level) <= Rank(max)
  }

  /** The directive that decides a target is the first with its own target. */
  lemma BestIsFirst(ds: seq<Directive>, target: string, i: int)
    requires 0 <= i < |ds| && IsBest(ds, target, i)
    ensures FirstOfTarget(ds, i)
  {
    hide Covers, ByteLen;
  }

  /** A directive that is the first with its target decides that very target. */
  lemma OwnTarget(ds: seq<Directive>, i: int)
    requires 0 <= i < |ds| && FirstOfTarget(ds, i)
    ensures Best(ds, ds[i].target) == Some(ds[i])
  {
    hide ByteLen, Best;
    var target := ds[i].target;
    BestIs(ds, target);
    assert Covers(ds[i].target, target);
    var k :| 0 <= k < |ds| && IsBest(ds, target, k) && Some(ds[k]) == Best(ds, target);
    assert ds[k].target == target;
  }

  lemma {:induction false} EmptyTarget(ds: seq<Directive>)
    requires forall d :: d in ds ==> d.target != ""
    ensures Best(ds, "") == None
    decreases |ds|
  {
    hide ByteLen;
    if ds != [] {
      NothingShorter(ds[0].target);
      EmptyTarget(ds[1..]);
    }
  }

  lemma NothingShorter(s: string)
    ensures ByteLen("") <= ByteLen(s)
  {
  }

  /** Nothing resolves above `max` iff the text itself says nothing above it. */
  lemma AdmittedWithin(spec: Option<string>, max: Level)
    ensures (forall target :: Rank(Effective(spec, target)) <= Rank(max))
            <==> Within(DefaultOf(PartsOf(spec), Info), DirectivesOf(PartsOf(spec)), max)
  {
    hide Best, Covers, ByteLen, IsBest, FirstOfTarget, DirectivesOf, DefaultOf, PartsOf;
    var ds, default := DirectivesOf(PartsOf(spec)), DefaultOf(PartsOf(spec), Info);
    if Within(default, ds, max) {
      forall target
        ensures Rank(Effective(spec, target)) <= Rank(max)
      {
        BestIs(ds, target);
        if Best(ds, target).Some? {
          var i :| 0 <= i < |ds| && IsBest(ds, target, i) && Some(ds[i]) == Best(ds, target);
          BestIsFirst(ds, target, i);
        }
      }
    }
    if forall target :: Rank(Effective(spec, target)) <= Rank(max) {
      TargetsNotEmpty(PartsOf(spec));
      EmptyTarget(ds);
      assert Effective(spec, "") == default;
      forall i | 0 <= i < |ds| && FirstOfTarget(ds, i)
        ensures Rank(ds[i].level) <= Rank(max)
      {
        OwnTarget(ds, i);
        assert Effective(spec, ds[i].target) == ds[i].level;
      }
    }
  }

  // After a second `Init` the pre-check is that of the new text while the filter is still the old one. The
  // answers stay those of the old text exactly when the old text's default and its directives, those shadowed by
  // an earlier one of the same target apart, are at most the highest level of the new text.
  lemma SecondInit(installed: Option<string>, later: Option<string>)
    ensures (forall level, target :: Answer(Highest(FilterOf(later)), FilterOf(installed), level, target) <==> Admits(installed, level, target))
            <==> Within(DefaultOf(PartsOf(installed), Info), DirectivesOf(PartsOf(installed)), Highest(FilterOf(later)))
  {
    hide Resolve, Effective, FilterOf, Highest, Within, PartsOf;
    var max := Highest(FilterOf(later));
    AdmittedWithin(installed, max);
    forall target
      ensures Resolve(FilterOf(installed), target) == Effective(installed, target)
    {
      ResolveIs(installed, target);
    }
    if exists target :: Rank(Effective(installed, target)) > Rank(max) {
      var target :| Rank(Effective(installed, target)) > Rank(max);
      assert Admits(installed, Effective(installed, target), target);
      assert !Answer(max, FilterOf(installed), Effective(installed, target), target);
    }
  }

  /** A text that is one bare level sets the default and nothing else. */
  lemma BareLevel(text: string, level: Level, target: string)
    requires ',' !in text && '=' !in text && text != "" && ParseLevel(text) == Some(level) && Trim(text) == text
    ensures FilterOf(Some(text)) == Filter(level, []) && Highest(FilterOf(Some(text))) == level
    ensures Effective(Some(text), target) == level
  {
    hide ParseLevel, Trim;
    CutNone(text, ',');
    CutNone(text, '=');
    OnePart(text, level);
  }

  lemma OnePart(part: string, level: Level)
    requires PartMeaning(part) == Default(level)
    ensures DirectivesOf([part]) == [] && DefaultOf([part], Info) == level
  {
    hide PartMeaning;
    assert [part][1..] == [];
    assert DefaultOf([], level) == level;
  }

  lemma {:induction false} CutNone(s: string, c: char)
    requires c !in s
    ensures Cut(s, c) == (s, None)
  {
    if s != "" {
      CutNone(s[1..], c);
      assert [s[0]] + s[1..] == s;
    }
  }

  /** Initialised with `debug` and again with `info`, the logger drops the debug events its filter admits. */
  lemma SecondInitDiffers(target: string)
    ensures Admits(Some("debug"), Debug, target)
    ensures !Answer(Highest(FilterOf(Some("info"))), FilterOf(Some("debug")), Debug, target)
  {
    hide FilterOf, Highest, Effective, Resolve, ParseLevel, Trim;
    ParseDebug();
    ParseInfo();
    BareLevel("debug", Debug, target);
    BareLevel("info", Info, target);
  }

  lemma ParseDebug()
    ensures Trim("debug") == "debug" && ParseLevel("debug") == Some(Debug)
  {
    NothingToTrim("debug");
    assert Lower("debug") == "debug";
  }

  lemma ParseInfo()
    ensures Trim("info") == "info" && ParseLevel("info") == Some(Info)
  {
    NothingToTrim("info");
    assert Lower("info") == "info";
  }

  lemma NothingToTrim(s: string)
    requires s != "" && !IsWhite(s[0]) && !IsWhite(s[|s| - 1])
    ensures Trim(s) == s
  {
  }

  // ----- Segments

  /** A directive that does not cover a target has no say in it. */
  lemma {:induction false} UncoveredBest(a: seq<Directive>, d: Directive, b: seq<Directive>, target: string)
    requires !Covers(d.target, target)
    ensures Best(a + [d] + b, target) == Best(a + b, target)
    decreases |a|
  {
    hide Covers, ByteLen;
    if a == [] {
      assert [] + [d] + b == [d] + b && [] + b == b;
      assert ([d] + b)[1..] == b;
    } else {
      assert (a + [d] + b)[1..] == a[1..] + [d] + b;
      assert (a + b)[1..] == a[1..] + b;
      UncoveredBest(a[1..], d, b, target);
    }
  }

  // A directive whose target ends inside a path segment of the event's target never changes the answer: for every
  // pre-check level, the installed filter answers as if the directive were not in the text.
  lemma SegmentBoundary(a: seq<Directive>, d: Directive, b: seq<Directive>, default: Level, max: Level, level: Level, target: string)
    requires EndsInside(d.target, target)
    ensures Answer(max, Filter(default, Sorted(a + [d] + b)), level, target)
            <==> Answer(max, Filter(default, Sorted(a + b)), level, target)
  {
    hide Covers, Sorted, Best, EndsInside;
    InsideUncovered(d.target, target);
    UncoveredBest(a, d, b, target);
    FirstOfSorted(a + [d] + b, target);
    FirstOfSorted(a + b, target);
  }

  // ----- Levels

  /** What each resolved level admits, from nothing to everything. */
  lemma AdmittedLevels(spec: Option<string>, target: string)
    ensures var admitted := set l: Level | Admits(spec, l, target);
            match Effective(spec, target)
            case Off => admitted == {}
            case Error => admitted == {Error}
            case Warn => admitted == {Error, Warn}
            case Info => admitted == {Error, Warn, Info}
            case Debug => admitted == {Error, Warn, Info, Debug}
            case Trace => admitted == {Error, Warn, Info, Debug, Trace}
  {
    hide Effective;
  }

  function LevelName(l: Level): string {
    match l
    case Off => "off"
    case Error => "error"
    case Warn => "warn"
    case Info => "info"
    case Debug => "debug"
    case Trace => "trace"
  }

  predicate AllWhite(s: string) {
    forall i :: 0 <= i < |s| ==> IsWhite(s[i])
  }

  /** `w` spells `name`, which is in lower case, in any mixture of cases. */
  predicate Spells(w: string, name: string) {
    |w| == |name| && forall i :: 0 <= i < |w| ==> w[i] == name[i] || ('A' <= w[i] <= 'Z' && w[i] as int + 32 == name[i] as int)
  }

  lemma {:induction false} TrimLeftIs(a: string, s: string)
    requires AllWhite(a) && (s == "" || !IsWhite(s[0]))
    ensures TrimLeft(a + s) == s
    decreases |a|
  {
    hide IsWhite;
    if a == "" {
      assert a + s == s;
    } else {
      assert (a + s)[1..] == a[1..] + s;
      TrimLeftIs(a[1..], s);
    }
  }

  lemma {:induction false} TrimRightIs(s: string, b: string)
    requires AllWhite(b) && (s == "" || !IsWhite(s[|s| - 1]))
    ensures TrimRight(s + b) == s
    decreases |b|
  {
    hide IsWhite;
    if b == "" {
      assert s + b == s;
    } else {
      assert (s + b)[..|s + b| - 1] == s + b[..|b| - 1];
      TrimRightIs(s, b[..|b| - 1]);
    }
  }

  /** Neither end of `s` is blank. */
  predicate Tight(s: string) {
    s == "" || (!IsWhite(s[0]) && !IsWhite(s[|s| - 1]))
  }

  /** Trimming takes off the blanks around. */
  lemma TrimIs(a: string, s: string, b: string)
    requires AllWhite(a) && AllWhite(b) && Tight(s)
    ensures Trim(a + s + b) == s
  {
    hide IsWhite;
    if s == "" {
      assert a + s + b == (a + b) + "" && AllWhite(a + b);
      TrimLeftIs(a + b, "");
      assert "" + "" == "";
      TrimRightIs("", "");
    } else {
      assert a + s + b == a + (s + b) && (s + b)[0] == s[0];
      TrimLeftIs(a, s + b);
      TrimRightIs(s, b);
    }
  }

  lemma {:induction false} TrimLeftParts(s: string) returns (a: string)
    ensures AllWhite(a) && s == a + TrimLeft(s) && (TrimLeft(s) == "" || !IsWhite(TrimLeft(s)[0]))
    decreases |s|
  {
    hide IsWhite;
    if s != "" && IsWhite(s[0]) {
      var r := TrimLeftParts(s[1..]);
      a := [s[0]] + r;
      assert s == [s[0]] + s[1..];
    } else {
      a := "";
    }
  }

  lemma {:induction false} TrimRightParts(s: string) returns (b: string)
    ensures AllWhite(b) && s == TrimRight(s) + b
    ensures TrimRight(s) == "" || (!IsWhite(TrimRight(s)[|TrimRight(s)| - 1]) && TrimRight(s)[0] == s[0])
    decreases |s|
  {
    hide IsWhite;
    if s != "" && IsWhite(s[|s| - 1]) {
      var r := TrimRightParts(s[..|s| - 1]);
      b := r + [s[|s| - 1]];
      assert s == s[..|s| - 1] + [s[|s| - 1]];
    } else {
      b := "";
    }
  }

  /** Every text is its trimmed part between blanks. */
  lemma TrimParts(s: string) returns (a: string, b: string)
    ensures AllWhite(a) && AllWhite(b) && s == a + Trim(s) + b && Tight(Trim(s))
  {
    hide IsWhite, AllWhite, TrimLeft, TrimRight;
    a := TrimLeftParts(s);
    b := TrimRightParts(TrimLeft(s));
  }

  lemma LowerSpells(w: string, name: string)
    requires forall i :: 0 <= i < |name| ==> 'a' <= name[i] <= 'z'
    ensures Lower(w) == name <==> Spells(w, name)
  {
    if Spells(w, name) {
      forall i | 0 <= i < |w|
        ensures Lower(w)[i] == name[i]
      {
        LowerCharIs(w[i], name[i]);
      }
      assert Lower(w) == name;
    }
    if Lower(w) == name {
      forall i | 0 <= i < |w|
        ensures w[i] == name[i] || ('A' <= w[i] <= 'Z' && w[i] as int + 32 == name[i] as int)
      {
        assert Lower(w)[i] == name[i];
        LowerCharIs(w[i], name[i]);
      }
    }
  }

  lemma LowerCharIs(c: char, d: char)
    requires 'a' <= d <= 'z'
    ensures LowerChar(c) == d <==> c == d || ('A' <= c <= 'Z' && c as int + 32 == d as int)
  {
  }

  /** A text names a level iff, between blanks, it spells the level's name. */
  lemma ParseLevelIs(s: string, l: Level)
    ensures ParseLevel(s) == Some(l) <==> Spells(Trim(s), LevelName(l))
  {
    hide Trim, Spells, Lower;
    var w := Trim(s);
    NamesDiffer();
    LowerSpells(w, "off");
    LowerSpells(w, "error");
    LowerSpells(w, "warn");
    LowerSpells(w, "info");
    LowerSpells(w, "debug");
    LowerSpells(w, "trace");
  }

  lemma NamesDiffer()
    ensures "off" != "error" && "off" != "warn" && "off" != "info" && "off" != "debug" && "off" != "trace"
    ensures "error" != "warn" && "error" != "info" && "error" != "debug" && "error" != "trace"
    ensures "warn" != "info" && "warn" != "debug" && "warn" != "trace"
    ensures "info" != "debug" && "info" != "trace" && "debug" != "trace"
  {
    assert "error"[0] != "debug"[0] && "error"[0] != "trace"[0] && "warn"[0] != "info"[0] && "debug"[0] != "trace"[0];
  }

  /** Each level's own name, in any case and with any blanks around it, parses to it. */
  lemma NamedLevel(a: string, w: string, b: string, l: Level)
    requires AllWhite(a) && AllWhite(b) && Spells(w, LevelName(l))
    ensures ParseLevel(a + w + b) == Some(l)
  {
    hide IsWhite, Spells, ParseLevel, AllWhite;
    SpelledTight(w, LevelName(l));
    TrimIs(a, w, b);
    ParseLevelIs(a + w + b, l);
  }

  lemma SpelledTight(w: string, name: string)
    requires Spells(w, name) && forall i :: 0 <= i < |name| ==> 'a' <= name[i] <= 'z'
    ensures Tight(w)
  {
  }

  // ----- Parts

  /** A part without `=` that is not blank: a level becomes the default, anything else a target at the finest level. */
  lemma BarePart(part: string)
    requires '=' !in part
    ensures PartMeaning(part)
            == if Trim(part) == "" then Nothing
               else if ParseLevel(part).Some? then Default(ParseLevel(part).value)
               else Directed(Directive(Trim(part), Trace))
  {
    hide ParseLevel, Trim;
    var a, b := TrimParts(part);
    assert '=' !in Trim(part);
    CutNone(Trim(part), '=');
    TrimTwice(part);
  }

  lemma TrimTwice(s: string)
    ensures Trim(Trim(s)) == Trim(s) && ParseLevel(Trim(s)) == ParseLevel(s)
  {
    hide IsWhite, Lower;
    var a, b := TrimParts(s);
    TrimIs("", Trim(s), "");
    assert "" + Trim(s) + "" == Trim(s);
  }

  // A part with `=`: what stands before the first one, trimmed, is the target, and what stands after it names the
  // level; without a target or without a level the part is ignored.
  lemma AssignedPart(target: string, level: string)
    requires '=' !in target
    ensures PartMeaning(target + "=" + level)
            == if ParseLevel(level).Some? && Trim(target) != ""
               then Directed(Directive(Trim(target), ParseLevel(level).value)) else Nothing
  {
    hide ParseLevel, Trim;
    var t, l := AssignedTrim(target, level);
    assert Trim(target + "=" + level) == t + ("=" + l);
    CutAt(t, '=', l);
  }

  /** Trimming the whole part trims its target on the left and its level on the right. */
  lemma AssignedTrim(target: string, level: string) returns (t: string, l: string)
    requires '=' !in target
    ensures '=' !in t && Trim(target + "=" + level) == t + "=" + l
    ensures Trim(t) == Trim(target) && ParseLevel(l) == ParseLevel(level)
  {
    hide IsWhite, Trim, Lower, Tight, AllWhite, ParseLevel;
    var a := TrimLeftParts(target);
    var b := TrimRightParts(level);
    t, l := TrimLeft(target), TrimRight(level);
    assert target + "=" + level == a + (t + "=" + l) + b;
    TightBetween(t, l);
    TrimIs(a, t + "=" + l, b);
    SameTrimmed(a, target, t);
    SameTrimmedRight(level, l, b);
  }

  lemma TightBetween(t: string, l: string)
    requires t == "" || !IsWhite(t[0])
    requires l == "" || !IsWhite(l[|l| - 1])
    ensures Tight(t + "=" + l)
  {
    hide IsWhite;
    NotBlank();
    assert (t + "=" + l)[0] == if t == "" then '=' else t[0];
    assert (t + "=" + l)[|t + "=" + l| - 1] == if l == "" then '=' else l[|l| - 1];
  }

  lemma NotBlank()
    ensures !IsWhite('=')
  {
  }

  lemma SameTrimmed(a: string, s: string, t: string)
    requires AllWhite(a) && s == a + t
    ensures Trim(t) == Trim(s)
  {
    hide IsWhite;
    var c, d := TrimParts(t);
    assert s == (a + c) + Trim(t) + d;
    TrimIs(a + c, Trim(t), d);
  }

  lemma SameTrimmedRight(s: string, t: string, b: string)
    requires AllWhite(b) && s == t + b
    ensures ParseLevel(t) == ParseLevel(s)
  {
    hide IsWhite, Lower;
    var c, d := TrimParts(t);
    assert s == c + Trim(t) + (d + b);
    TrimIs(c, Trim(t), d + b);
  }

  lemma {:induction false} CutAt(a: string, c: char, b: string)
    requires c !in a
    ensures Cut(a + ([c] + b), c) == (a, Some(b))
    decreases |a|
  {
    if a == "" {
      assert a + ([c] + b) == [c] + b;
    } else {
      assert (a + ([c] + b))[1..] == a[1..] + ([c] + b);
      CutAt(a[1..], c, b);
      assert [a[0]] + a[1..] == a;
    }
  }
}
