/** Time-series buckets and event statistics, and how the two agree. */
module Aggregation {
  import opened Wrappers
  import opened AuditModel

  datatype Bucket = Bucket(time: nat, eventCount: nat, info: nat, warning: nat, error: nat, critical: nat) {
    function Of(s: Severity): nat {
      match s
      case Info => info
      case Warning => warning
      case Error => error
      case Critical => critical
    }

    function Add(s: Severity): Bucket {
      var b := this.(eventCount := eventCount + 1);
      match s
      case Info => b.(info := info + 1)
      case Warning => b.(warning := warning + 1)
      case Error => b.(error := error + 1)
      case Critical => b.(critical := critical + 1)
    }
  }

  datatype Statistics = Statistics(total: nat, info: nat, warning: nat, error: nat, critical: nat,
                                   minTimestamp: Option<nat>, maxTimestamp: Option<nat>,
                                   uniquePlugins: nat, byType: map<EventType, nat>)

  function BucketTime(timestamp: nat, size: nat): nat
    requires size > 0
  {
    timestamp / size * size
  }

  // ---------------------------------------------------------------- counting

  function SeverityCount(events: seq<AuditEvent>, s: Severity): nat {
    if events == [] then 0 else
    SeverityCount(events[..|events| - 1], s) + if events[|events| - 1].severity == s then 1 else 0
  }

  /** What aggregation sees of an event: the start of its period, and its severity. */
  datatype Slot = Slot(time: nat, severity: Severity)

  function Slots(events: seq<AuditEvent>, size: nat): (slots: seq<Slot>)
    requires size > 0
    ensures |slots| == |events|
  {
    seq(|events|, i requires 0 <= i < |events| => Slot(BucketTime(events[i].timestamp, size), events[i].severity))
  }

  /** The slots of severity `s` at one of `times`. */
  function Tally(slots: seq<Slot>, times: set<nat>, s: Severity): nat {
    if slots == [] then 0 else
    var last := slots[|slots| - 1];
    Tally(slots[..|slots| - 1], times, s) + if last.time in times && last.severity == s then 1 else 0
  }

  function Times(slots: seq<Slot>): set<nat> {
    set x | x in slots :: x.time
  }

  ghost predicate Holds(b: Bucket, slots: seq<Slot>) {
    && (forall s: Severity :: b.Of(s) == Tally(slots, {b.time}, s))
    && b.eventCount == b.info + b.warning + b.error + b.critical
  }

  /** `buckets` has one bucket per occupied period, in order of time, each with the right counts. */
  ghost predicate Aggregates(buckets: seq<Bucket>, slots: seq<Slot>) {
    && Ascending(buckets)
    && (forall i :: 0 <= i < |buckets| ==> buckets[i].time in Times(slots) && Holds(buckets[i], slots))
    && (forall t :: t in Times(slots) ==> exists i :: 0 <= i < |buckets| && buckets[i].time == t)
  }

  predicate Ascending(buckets: seq<Bucket>) {
    forall i, j :: 0 <= i < j < |buckets| ==> buckets[i].time < buckets[j].time
  }

  // ---------------------------------------------------------------- aggregation

  method AggregateEvents(events: seq<AuditEvent>, size: nat) returns (buckets: seq<Bucket>)
    requires size > 0
    ensures Aggregates(buckets, Slots(events, size))
  {
    ghost var slots := Slots(events, size);
    var tree: map<nat, Bucket> := map[];
    for i := 0 to |events|
      invariant Grown(tree, slots[..i])
    {
      assert slots[..i + 1] == slots[..i] + [slots[i]];
      var t := BucketTime(events[i].timestamp, size);
      var bucket := if t in tree then tree[t] else Bucket(t, 0, 0, 0, 0, 0);
      GrowTree(tree, slots[..i], slots[i]);
      tree := tree[t := bucket.Add(events[i].severity)];
    }
    assert slots[..|events|] == slots;
    buckets := InKeyOrder(tree);
    assert forall t :: t in Times(slots) ==> t in tree;
  }

  ghost predicate Grown(tree: map<nat, Bucket>, slots: seq<Slot>) {
    tree.Keys == Times(slots) && forall t :: t in tree ==> tree[t].time == t && Holds(tree[t], slots)
  }

  lemma GrowTree(tree: map<nat, Bucket>, slots: seq<Slot>, x: Slot)
    requires Grown(tree, slots)
    ensures var bucket := if x.time in tree then tree[x.time] else Bucket(x.time, 0, 0, 0, 0, 0);
      Grown(tree[x.time := bucket.Add(x.severity)], slots + [x])
  {
    var slots' := slots + [x];
    assert slots'[..|slots|] == slots;
    assert Times(slots') == Times(slots) + {x.time};
    if x.time !in tree {
      AbsentMeansZero(slots, x.time);
    }
    forall t, s: Severity
      ensures Tally(slots', {t}, s) == Tally(slots, {t}, s) + if x.time == t && x.severity == s then 1 else 0
    {
    }
  }

  lemma {:induction false} AbsentMeansZero(slots: seq<Slot>, t: nat)
    requires t !in Times(slots)
    ensures forall s: Severity :: Tally(slots, {t}, s) == 0
    decreases |slots|
  {
    if slots != [] {
      var front, last := slots[..|slots| - 1], slots[|slots| - 1];
      assert last in slots && forall e :: e in front ==> e in slots;
      AbsentMeansZero(front, t);
    }
  }

  /** The values of an ordered map, by ascending key. */
  method InKeyOrder(tree: map<nat, Bucket>) returns (buckets: seq<Bucket>)
    requires forall t :: t in tree ==> tree[t].time == t
    ensures Ascending(buckets)
    ensures forall i :: 0 <= i < |buckets| ==> buckets[i].time in tree && buckets[i] == tree[buckets[i].time]
    ensures forall t :: t in tree ==> exists i :: 0 <= i < |buckets| && buckets[i].time == t
  {
    buckets := [];
    var left := tree.Keys;
    while left != {}
      invariant left <= tree.Keys
      invariant Ascending(buckets)
      invariant forall i :: 0 <= i < |buckets| ==> buckets[i].time in tree && buckets[i] == tree[buckets[i].time]
      invariant forall i, t :: 0 <= i < |buckets| && t in left ==> buckets[i].time < t
      invariant forall t :: t in tree && t !in left ==> exists i :: 0 <= i < |buckets| && buckets[i].time == t
      decreases left
    {
      var t := Smallest(left);
      ghost var before := buckets;
      buckets := buckets + [tree[t]];
      left := left - {t};
      assert buckets[|buckets| - 1].time == t && forall i :: 0 <= i < |before| ==> buckets[i] == before[i];
    }
  }

  method Smallest(s: set<nat>) returns (m: nat)
    requires s != {}
    ensures m in s && forall x :: x in s ==> m <= x
  {
    m :| m in s;
    var left := s - {m};
    while left != {}
      invariant m in s && left <= s && forall x :: x in s && x !in left ==> m <= x
      decreases left
    {
      var x :| x in left;
      left := left - {x};
      if x < m {
        m := x;
      }
    }
  }

  // ---------------------------------------------------------------- statistics

  function Earliest(events: seq<AuditEvent>): Option<nat> {
    if events == [] then None else
    var lo, t := Earliest(events[..|events| - 1]), events[|events| - 1].timestamp;
    if lo.None? || t < lo.value then Some(t) else lo
  }

  function Latest(events: seq<AuditEvent>): Option<nat> {
    if events == [] then None else
    var hi, t := Latest(events[..|events| - 1]), events[|events| - 1].timestamp;
    if hi.None? || t > hi.value then Some(t) else hi
  }

  function TypeCounts(events: seq<AuditEvent>): map<EventType, nat> {
    if events == [] then map[] else
    var counts, t := TypeCounts(events[..|events| - 1]), events[|events| - 1].eventType;
    counts[t := (if t in counts then counts[t] else 0) + 1]
  }

  function Plugins(events: seq<AuditEvent>): set<string> {
    if events == [] then {} else Plugins(events[..|events| - 1]) + {events[|events| - 1].pluginName}
  }

  lemma {:induction false} PluginsMean(events: seq<AuditEvent>, name: string)
    ensures name in Plugins(events) <==> exists e :: e in events && e.pluginName == name
    decreases |events|
  {
    if events != [] {
      assert events == events[..|events| - 1] + [events[|events| - 1]];
      PluginsMean(events[..|events| - 1], name);
    }
  }

  /** Each type is counted as often as it occurs, and types that do not occur are not listed. */
  lemma {:induction false} TypeCountsMean(events: seq<AuditEvent>, t: EventType)
    ensures var types := seq(|events|, i requires 0 <= i < |events| => events[i].eventType);
      (t in TypeCounts(events) <==> t in types) &&
      (t in TypeCounts(events) ==> TypeCounts(events)[t] == multiset(types)[t])
    decreases |events|
  {
    if events != [] {
      var n := |events| - 1;
      TypeCountsMean(events[..n], t);
      var types := seq(|events|, i requires 0 <= i < |events| => events[i].eventType);
      assert types == seq(n, i requires 0 <= i < n => events[..n][i].eventType) + [events[n].eventType];
    }
  }

  /** So is each severity. */
  lemma {:induction false} SeverityCountMeans(events: seq<AuditEvent>, s: Severity)
    ensures var severities := seq(|events|, i requires 0 <= i < |events| => events[i].severity);
      SeverityCount(events, s) == multiset(severities)[s]
    decreases |events|
  {
    if events != [] {
      var n := |events| - 1;
      SeverityCountMeans(events[..n], s);
      var severities := seq(|events|, i requires 0 <= i < |events| => events[i].severity);
      assert severities == seq(n, i requires 0 <= i < n => events[..n][i].severity) + [events[n].severity];
    }
  }

  method FromEvents(events: seq<AuditEvent>) returns (r: Statistics)
    ensures r.total == |events|
    ensures r.info == SeverityCount(events, Info) && r.warning == SeverityCount(events, Warning)
    ensures r.error == SeverityCount(events, Error) && r.critical == SeverityCount(events, Critical)
    ensures r.minTimestamp == Earliest(events) && r.maxTimestamp == Latest(events)
    ensures r.uniquePlugins == |Plugins(events)|
    ensures r.byType == TypeCounts(events)
  {
    var info, warning, error, critical := 0, 0, 0, 0;
    var lo: Option<nat>, hi: Option<nat> := None, None;
    var plugins: set<string> := {};
    var byType: map<EventType, nat> := map[];
    for i := 0 to |events|
      invariant info == SeverityCount(events[..i], Info) && warning == SeverityCount(events[..i], Warning)
      invariant error == SeverityCount(events[..i], Error) && critical == SeverityCount(events[..i], Critical)
      invariant lo == Earliest(events[..i]) && hi == Latest(events[..i])
      invariant plugins == Plugins(events[..i])
      invariant byType == TypeCounts(events[..i])
    {
      assert events[..i + 1][..i] == events[..i];
      var e := events[i];
      match e.severity {
        case Info => info := info + 1;
        case Warning => warning := warning + 1;
        case Error => error := error + 1;
        case Critical => critical := critical + 1;
      }
      if lo.None? || e.timestamp < lo.value {
        lo := Some(e.timestamp);
      }
      if hi.None? || e.timestamp > hi.value {
        hi := Some(e.timestamp);
      }
      plugins := plugins + {e.pluginName};
      byType := byType[e.eventType := (if e.eventType in byType then byType[e.eventType] else 0) + 1];
    }
    assert events[..|events|] == events;
    r := Statistics(|events|, info, warning, error, critical, lo, hi, |plugins|, byType);
  }

  /** The extremes are attained, and bound every event. */
  lemma {:induction false} ExtremesMean(events: seq<AuditEvent>)
    requires events != []
    ensures Earliest(events).Some? && Latest(events).Some?
    ensures forall e :: e in events ==> Earliest(events).value <= e.timestamp <= Latest(events).value
    ensures exists e, e' :: e in events && e' in events &&
              e.timestamp == Earliest(events).value && e'.timestamp == Latest(events).value
    decreases |events|
  {
    var front, last := events[..|events| - 1], events[|events| - 1];
    assert events == front + [last];
    if front != [] {
      ExtremesMean(front);
      var e, e' :| e in front && e' in front &&
        e.timestamp == Earliest(front).value && e'.timestamp == Latest(front).value;
      assert e in events && e' in events;
    }
    assert last in events;
  }

  function Total(counts: map<EventType, nat>, types: seq<EventType>): nat {
    if types == [] then 0 else
    var t := types[|types| - 1];
    Total(counts, types[..|types| - 1]) + if t in counts then counts[t] else 0
  }

  lemma {:induction false} TotalUpdate(counts: map<EventType, nat>, types: seq<EventType>, t: EventType)
    requires forall i, j :: 0 <= i < j < |types| ==> types[i] != types[j]
    ensures var counts' := counts[t := (if t in counts then counts[t] else 0) + 1];
      Total(counts', types) == Total(counts, types) + if t in types then 1 else 0
    decreases |types|
  {
    if types != [] {
      var front, last := types[..|types| - 1], types[|types| - 1];
      assert types == front + [last];
      TotalUpdate(counts, front, t);
    }
  }

  /** Summed over any list of distinct types that covers the events, the counts by type give the total. */
  lemma {:induction false} TypesAddUp(events: seq<AuditEvent>, types: seq<EventType>)
    requires forall i, j :: 0 <= i < j < |types| ==> types[i] != types[j]
    requires forall e :: e in events ==> e.eventType in types
    ensures Total(TypeCounts(events), types) == |events|
    decreases |events|
  {
    if events == [] {
      NothingCounted(types);
    } else {
      var front, last := events[..|events| - 1], events[|events| - 1];
      assert events == front + [last] && last in events;
      TypesAddUp(front, types);
      TotalUpdate(TypeCounts(front), types, last.eventType);
    }
  }

  lemma {:induction false} NothingCounted(types: seq<EventType>)
    ensures Total(map[], types) == 0
    decreases |types|
  {
    if types != [] {
      NothingCounted(types[..|types| - 1]);
    }
  }

  /** And so do the counts by severity. */
  lemma {:induction false} SeveritiesAddUp(events: seq<AuditEvent>)
    ensures SeverityCount(events, Info) + SeverityCount(events, Warning) + SeverityCount(events, Error) +
            SeverityCount(events, Critical) == |events|
    decreases |events|
  {
    if events != [] {
      SeveritiesAddUp(events[..|events| - 1]);
    }
  }

  // ---------------------------------------------------------------- what a bucket is

  /** Quotient and remainder are unique. */
  lemma Divides(n: nat, q: nat, r: nat, size: nat)
    requires size > 0 && n == q * size + r && r < size
    ensures n / size == q && n % size == r
  {
    var q', r' := n / size, n % size;
    assert n == q' * size + r';
    var d := q - q';
    assert (d >= 1 ==> d * size >= size) && (d <= -1 ==> d * size + size <= 0);
    assert d * size == q * size - q' * size;
  }

  lemma BucketIsAligned(timestamp: nat, size: nat)
    requires size > 0
    ensures var t := BucketTime(timestamp, size); t % size == 0 && t <= timestamp < t + size
  {
    Divides(BucketTime(timestamp, size), timestamp / size, 0, size);
  }

  /** The bucket time is the one multiple of the size whose period contains the timestamp. */
  lemma BucketContains(timestamp: nat, size: nat, t: nat)
    requires size > 0
    ensures t == BucketTime(timestamp, size) <==> t % size == 0 && t <= timestamp < t + size
  {
    BucketIsAligned(timestamp, size);
    if t % size == 0 && t <= timestamp < t + size {
      Divides(timestamp, t / size, timestamp - t, size);
    }
  }

  /** Every event falls in exactly one bucket of its aggregation. */
  lemma EventHasOneBucket(buckets: seq<Bucket>, events: seq<AuditEvent>, size: nat, k: nat) returns (i: nat)
    requires size > 0 && Aggregates(buckets, Slots(events, size)) && k < |events|
    ensures i < |buckets| && buckets[i].time % size == 0
    ensures forall j :: 0 <= j < |buckets| ==>
            (buckets[j].time <= events[k].timestamp < buckets[j].time + size <==> j == i)
  {
    var slots := Slots(events, size);
    var t := slots[k].time;
    assert slots[k] in slots && t in Times(slots);
    i :| 0 <= i < |buckets| && buckets[i].time == t;
    BucketContains(events[k].timestamp, size, t);
    forall j | 0 <= j < |buckets|
      ensures buckets[j].time <= events[k].timestamp < buckets[j].time + size <==> j == i
    {
      assert buckets[j].time in Times(slots);
      var x :| x in slots && x.time == buckets[j].time;
      var o :| 0 <= o < |slots| && slots[o] == x;
      BucketContains(events[o].timestamp, size, buckets[j].time);
      BucketContains(events[k].timestamp, size, buckets[j].time);
      assert j < i ==> buckets[j].time < buckets[i].time;
      assert i < j ==> buckets[i].time < buckets[j].time;
    }
  }

  // ---------------------------------------------------------------- conservation

  function Sum(buckets: seq<Bucket>, s: Severity): nat {
    if buckets == [] then 0 else Sum(buckets[..|buckets| - 1], s) + buckets[|buckets| - 1].Of(s)
  }

  lemma {:induction false} TallyOneMore(slots: seq<Slot>, times: set<nat>, t: nat, s: Severity)
    requires t !in times
    ensures Tally(slots, times + {t}, s) == Tally(slots, times, s) + Tally(slots, {t}, s)
    decreases |slots|
  {
    if slots != [] {
      TallyOneMore(slots[..|slots| - 1], times, t, s);
    }
  }

  lemma {:induction false} TallyNone(slots: seq<Slot>, s: Severity)
    ensures Tally(slots, {}, s) == 0
    decreases |slots|
  {
    if slots != [] {
      TallyNone(slots[..|slots| - 1], s);
    }
  }

  lemma {:induction false} TallyAll(events: seq<AuditEvent>, size: nat, times: set<nat>, s: Severity)
    requires size > 0 && Times(Slots(events, size)) <= times
    ensures Tally(Slots(events, size), times, s) == SeverityCount(events, s)
    decreases |events|
  {
    if events != [] {
      var front := events[..|events| - 1];
      var slots := Slots(events, size);
      assert Slots(front, size) == slots[..|slots| - 1];
      assert forall x :: x in slots[..|slots| - 1] ==> x in slots;
      assert slots[|slots| - 1] in slots;
      TallyAll(front, size, times, s);
    }
  }

  lemma {:induction false} SumIsTally(buckets: seq<Bucket>, slots: seq<Slot>, s: Severity) returns (times: set<nat>)
    requires Ascending(buckets) && forall i :: 0 <= i < |buckets| ==> Holds(buckets[i], slots)
    ensures forall t :: t in times <==> exists i :: 0 <= i < |buckets| && buckets[i].time == t
    ensures Sum(buckets, s) == Tally(slots, times, s)
    decreases |buckets|
  {
    if buckets == [] {
      times := {};
      TallyNone(slots, s);
    } else {
      var n := |buckets| - 1;
      var front, last := buckets[..n], buckets[n];
      var earlier := SumIsTally(front, slots, s);
      assert forall i :: 0 <= i < n ==> front[i] == buckets[i];
      assert last.time !in earlier;
      TallyOneMore(slots, earlier, last.time, s);
      assert Holds(last, slots);
      times := earlier + {last.time};
    }
  }

  /** Summed over all buckets, each severity is counted exactly as the statistics of the same events count it. */
  lemma BucketsSumToStatistics(buckets: seq<Bucket>, events: seq<AuditEvent>, size: nat, s: Severity)
    requires size > 0 && Aggregates(buckets, Slots(events, size))
    ensures Sum(buckets, s) == SeverityCount(events, s)
  {
    var times := SumIsTally(buckets, Slots(events, size), s);
    TallyAll(events, size, times, s);
  }

  lemma {:induction false} TallyConcat(a: seq<Slot>, b: seq<Slot>, times: set<nat>, s: Severity)
    ensures Tally(a + b, times, s) == Tally(a, times, s) + Tally(b, times, s)
    decreases |b|
  {
    if b == [] {
      assert a + b == a;
    } else {
      assert (a + b)[..|a + b| - 1] == a + b[..|b| - 1];
      TallyConcat(a, b[..|b| - 1], times, s);
    }
  }

  /** `n` is what `buckets` counts for severity `s` in the period starting at `t`: zero if there is no bucket. */
  ghost predicate CountIs(buckets: seq<Bucket>, t: nat, s: Severity, n: nat) {
    && (forall i :: 0 <= i < |buckets| && buckets[i].time == t ==> buckets[i].Of(s) == n)
    && ((forall i :: 0 <= i < |buckets| ==> buckets[i].time != t) ==> n == 0)
  }

  lemma AggregationCounts(buckets: seq<Bucket>, slots: seq<Slot>, t: nat, s: Severity)
    requires Aggregates(buckets, slots)
    ensures CountIs(buckets, t, s, Tally(slots, {t}, s))
  {
    if forall i :: 0 <= i < |buckets| ==> buckets[i].time != t {
      AbsentMeansZero(slots, t);
    }
  }

  /** Aggregating a concatenation is the pointwise sum of the aggregations of its parts. */
  lemma AggregationOfConcat(a: seq<AuditEvent>, b: seq<AuditEvent>, size: nat,
                            x: seq<Bucket>, y: seq<Bucket>, z: seq<Bucket>,
                            t: nat, s: Severity) returns (m: nat, n: nat)
    requires size > 0 && Aggregates(x, Slots(a, size)) && Aggregates(y, Slots(b, size))
    requires Aggregates(z, Slots(a + b, size))
    ensures CountIs(x, t, s, m) && CountIs(y, t, s, n) && CountIs(z, t, s, m + n)
  {
    assert Slots(a + b, size) == Slots(a, size) + Slots(b, size);
    m, n := Tally(Slots(a, size), {t}, s), Tally(Slots(b, size), {t}, s);
    TallyConcat(Slots(a, size), Slots(b, size), {t}, s);
    AggregationCounts(x, Slots(a, size), t, s);
    AggregationCounts(y, Slots(b, size), t, s);
    AggregationCounts(z, Slots(a + b, size), t, s);
  }
}
