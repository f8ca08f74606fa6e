/**
 How often an event is sent again.  Deduplication works within a batch; across batches an event is sent again whenever
 the offset, which counts events, lags behind its line.
 */
module Resending {
  import opened Wrappers
  import opened Replication
  import opened AtLeastOnce
  import opened ReplicationProgress

  // ---------------------------------------------------------------- an event behind junk

  /** `n` lines that do not parse, followed by an event. */
  ghost predicate BehindJunk(s: Replica, n: nat, e: Event) {
    && |s.lines| == n + 1 && s.tail == "" && s.codec.parse("") == None
    && (forall j :: 0 <= j < n ==> s.codec.parse(s.lines[j]) == None)
    && s.lines[n] == e.text && s.codec.parse(e.text) == Some(e.id)
  }

  ghost predicate Resending(s: Replica, n: nat, e: Event) {
    && BehindJunk(s, n, e) && s.offset <= n + 1 && s.uploaded == seq(s.offset, _ => e)
    && match s.phase
       case Idle => true
       case Scanning(r) =>
         && r.col == 0 && r.idx == r.at <= n + 1 && r.seen == Ids(r.events)
         && r.events == (if s.offset <= n < r.at then [e] else [])
       case Sending(r, _) => s.offset <= n && r.events == [e]
  }

  lemma ResendingStep(s: Replica, n: nat, e: Event, step: Step)
    requires Resending(s, n, e) && Enabled(s, step) && Quiet(step) && !step.Fail?
    ensures Resending(Apply(s, step), n, e)
  {
    if step.Read? {
      var r := s.phase.reader;
      assert Text(s, r.at)[0..] == Text(s, r.at);
    }
  }

  /** The price of counting events but skipping lines: in every smooth run the offset counts how often the event
      behind the junk was uploaded, and that is at most `n + 1` times. */
  lemma {:induction false} ResentAtMost(s: Replica, n: nat, e: Event, steps: seq<Step>)
    requires Resending(s, n, e) && CanRun(s, steps) && Smooth(steps)
    ensures Resending(After(s, steps), n, e)
    decreases |steps|
  {
    if steps != [] {
      assert Quiet(steps[0]);
      ResendingStep(s, n, e, steps[0]);
      ResentAtMost(Apply(s, steps[0]), n, e, steps[1..]);
    }
  }

  /** And it is uploaded that often. */
  lemma ResentPerSkippedLine(s: Replica, n: nat, e: Event) returns (steps: seq<Step>)
    requires Init(s) && BehindJunk(s, n, e)
    ensures CanRun(s, steps) && Smooth(steps)
    ensures After(s, steps).uploaded == seq(n + 1, _ => e)
  {
    InitReplicates(s);
    var long := SmoothRuns(s, Budget(s) + 1);
    var k := EmptyScanComes(s, long);
    steps := long[..k];
    ResentAtMost(s, n, e, steps);
  }

  // ---------------------------------------------------------------- when nothing is sent twice

  lemma {:induction false} RepeatsShrinkIds(events: seq<Event>)
    ensures |Ids(events)| <= |events|
    ensures |Ids(events)| == |events| <==> NoRepeats(events)
    decreases |events|
  {
    if events != [] {
      var front, last := events[..|events| - 1], events[|events| - 1];
      assert events == front + [last];
      RepeatsShrinkIds(front);
      NoRepeatsSnoc(front, last);
      assert Ids(events) == Ids(front) + {last.id};
    }
  }

  /** The ids of the events among the first `n` lines. */
  ghost function LineIds(s: Replica, n: nat): set<EventId>
    requires n <= |s.lines| + 1
  {
    if n == 0 then {} else
    LineIds(s, n - 1) + match s.codec.parse(Text(s, n - 1)) case None => {} case Some(id) => {id}
  }

  /** The first `n` lines are events, all different. */
  ghost predicate Distinct(s: Replica, n: nat)
    requires n <= |s.lines| + 1
  {
    && (forall j :: 0 <= j < n ==> s.codec.parse(Text(s, j)).Some?)
    && (forall i, j :: 0 <= i < j < n ==> s.codec.parse(Text(s, i)) != s.codec.parse(Text(s, j)))
  }

  lemma {:induction false} LineIdsMean(s: Replica, n: nat, id: EventId)
    requires n <= |s.lines| + 1
    ensures id in LineIds(s, n) <==> exists j :: 0 <= j < n && s.codec.parse(Text(s, j)) == Some(id)
  {
    if n > 0 {
      LineIdsMean(s, n - 1, id);
    }
  }

  lemma DistinctStep(s: Replica, n: nat)
    requires 0 < n <= |s.lines| + 1
    ensures var parsed := s.codec.parse(Text(s, n - 1));
      Distinct(s, n) <==> Distinct(s, n - 1) && parsed.Some? && parsed.value !in LineIds(s, n - 1)
  {
    var parsed := s.codec.parse(Text(s, n - 1));
    if parsed.Some? {
      LineIdsMean(s, n - 1, parsed.value);
    }
  }

  lemma {:induction false} FewerIdsThanLines(s: Replica, n: nat)
    requires n <= |s.lines| + 1
    ensures |LineIds(s, n)| <= n
    ensures |LineIds(s, n)| == n <==> Distinct(s, n)
  {
    if n > 0 {
      FewerIdsThanLines(s, n - 1);
      DistinctStep(s, n);
      var parsed := s.codec.parse(Text(s, n - 1));
      if parsed == None || parsed.value in LineIds(s, n - 1) {
        assert LineIds(s, n) == LineIds(s, n - 1);
      }
    }
  }

  /** Only events found on lines are uploaded, one per unit of the offset. */
  ghost predicate Counted(s: Replica) {
    && s.offset <= |s.lines| + 1 && |s.uploaded| == s.offset
    && (forall e :: e in s.uploaded ==> e.id in LineIds(s, |s.lines| + 1))
    && (!s.phase.Idle? ==> forall e :: e in s.phase.reader.events ==> e.id in LineIds(s, |s.lines| + 1))
  }

  lemma {:induction false} SameLineIds(s: Replica, s': Replica, n: nat)
    requires s'.codec == s.codec && s'.lines == s.lines && s'.tail == s.tail && n <= |s.lines| + 1
    ensures LineIds(s', n) == LineIds(s, n)
  {
    if n > 0 {
      SameLineIds(s, s', n - 1);
    }
  }

  lemma CountedStep(s: Replica, step: Step)
    requires Counted(s) && Settled(s) && Enabled(s, step) && Quiet(step) && !step.Fail?
    requires step.Ack? ==> s.offset + |s.phase.reader.events| <= |s.lines| + 1
    ensures Counted(Apply(s, step))
  {
    SameLineIds(s, Apply(s, step), |s.lines| + 1);
    if step.Read? {
      var r := s.phase.reader;
      var line := Text(s, r.at);
      assert line[0..] == line;
      if s.codec.parse(line).Some? {
        LineIdsMean(s, |s.lines| + 1, s.codec.parse(line).value);
      }
    }
  }

  lemma {:induction false} CountedAlways(s: Replica, steps: seq<Step>)
    requires Replicating(s) && Counted(s) && Settled(s) && CanRun(s, steps) && Smooth(steps)
    ensures Counted(After(s, steps))
    decreases |steps|
  {
    if steps != [] {
      assert Quiet(steps[0]) && !steps[0].Fail?;
      SettledIsWhole(s, steps);
      if steps[0].Ack? {
        TidyPasses(s);
      }
      CountedStep(s, steps[0]);
      ReplicatingStep(s, steps[0]);
      SettledIsWhole(s, steps[..1]);
      CountedAlways(Apply(s, steps[0]), steps[1..]);
    }
  }

  /** The log is distinct events, followed by lines that do not parse. */
  ghost predicate EventsFirst(s: Replica, n: nat) {
    && n <= |s.lines| + 1 && Distinct(s, n)
    && forall j :: n <= j <= |s.lines| ==> s.codec.parse(Text(s, j)) == None
  }

  /** On such a log no more is collected than there are events left. */
  ghost predicate Frugal(s: Replica, n: nat) {
    && EventsFirst(s, n) && s.offset <= n
    && match s.phase
       case Idle => true
       case Scanning(r) =>
         && InFile(s, r) && r.idx == r.at + (if r.col > 0 then 1 else 0) && (r.col > 0 ==> AtEnd(s, r))
         && |r.events| <= Minus(if r.idx < n then r.idx else n, s.offset)
       case Sending(r, _) => s.offset + |r.events| <= n
  }

  lemma FrugalStep(s: Replica, step: Step, n: nat)
    requires Frugal(s, n) && Enabled(s, step) && Quiet(step) && !step.Fail?
    ensures Frugal(Apply(s, step), n)
  {
    var s' := Apply(s, step);
    assert forall j :: 0 <= j <= |s.lines| ==> Text(s', j) == Text(s, j);
    if step.Read? {
      assert Text(s, s.phase.reader.at)[0..] == Text(s, s.phase.reader.at);
    }
  }

  lemma {:induction false} FrugalAlways(s: Replica, steps: seq<Step>, n: nat)
    requires Frugal(s, n) && CanRun(s, steps) && Smooth(steps)
    ensures Frugal(After(s, steps), n)
    decreases |steps|
  {
    if steps != [] {
      assert Quiet(steps[0]) && !steps[0].Fail?;
      FrugalStep(s, steps[0], n);
      FrugalAlways(Apply(s, steps[0]), steps[1..], n);
    }
  }

  /** When a scan finds nothing, no line from the offset on parses. */
  lemma NothingPastOffset(s: Replica, j: nat)
    requires CaughtUp(s) && s.offset <= j <= |s.lines|
    ensures s.codec.parse(Text(s, j)) == None
  {
    assert s.tail[..s.phase.reader.col] == s.tail;
  }

  lemma UploadsAreLines(s: Replica)
    requires CaughtUp(s) && Counted(s)
    ensures Ids(s.uploaded) == LineIds(s, s.offset)
  {
    EmptyScanMeansEverything(s);
    forall id
      ensures id in Ids(s.uploaded) <==> id in LineIds(s, s.offset)
    {
      LineIdsMean(s, |s.lines| + 1, id);
      LineIdsMean(s, s.offset, id);
      if j :| 0 <= j <= |s.lines| && s.codec.parse(Text(s, j)) == Some(id) {
        if s.offset <= j {
          NothingPastOffset(s, j);
        }
        assert Known(s.codec, Text(s, j), Ids(s.uploaded));
      }
    }
  }

  /** The same log, whatever the replicator does to it. */
  lemma {:induction false} LogAtRest(s: Replica, steps: seq<Step>)
    requires CanRun(s, steps) && Smooth(steps)
    ensures var s' := After(s, steps); s'.codec == s.codec && s'.lines == s.lines && s'.tail == s.tail
    decreases |steps|
  {
    if steps != [] {
      assert Quiet(steps[0]);
      LogAtRest(Apply(s, steps[0]), steps[1..]);
    }
  }

  /** From a fresh start, in every smooth run that has caught up: nothing was uploaded twice if and only if the log is
      distinct events followed by lines that do not parse.  So one junk line or duplicate before an event is enough. */
  lemma NothingTwiceIff(s: Replica, steps: seq<Step>)
    requires Init(s) && CanRun(s, steps) && Smooth(steps) && CaughtUp(After(s, steps))
    ensures NoRepeats(After(s, steps).uploaded) <==> exists n :: EventsFirst(s, n)
  {
    var s' := After(s, steps);
    InitReplicates(s);
    CountedAlways(s, steps);
    LogAtRest(s, steps);
    UploadsAreLines(s');
    RepeatsShrinkIds(s'.uploaded);
    FewerIdsThanLines(s', s'.offset);
    if n :| EventsFirst(s, n) {
      FrugalAlways(s, steps, n);
      assert Distinct(s', s'.offset);
    }
    if NoRepeats(s'.uploaded) {
      forall j | s'.offset <= j <= |s.lines|
        ensures s'.codec.parse(Text(s', j)) == None
      {
        NothingPastOffset(s', j);
      }
      SameEventsFirst(s', s, s'.offset);
    }
  }

  lemma SameEventsFirst(s: Replica, s': Replica, n: nat)
    requires EventsFirst(s, n) && s'.codec == s.codec && s'.lines == s.lines && s'.tail == s.tail
    ensures EventsFirst(s', n)
  {
    assert forall j :: 0 <= j <= |s.lines| ==> Text(s', j) == Text(s, j);
  }
}
