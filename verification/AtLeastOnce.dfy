/**
 At-least-once replication: what every step keeps, exactly when an acknowledged batch may raise the offset, and
 which interleavings lose an event.
 */
module AtLeastOnce {
  import opened Wrappers
  import opened Replication

  // ---------------------------------------------------------------- what must hold

  /** How far the replicator may believe it has come: in memory now, or after the next restart. */
  function Frontier(s: Replica): nat {
    if s.offset < Readback(s.disk) then Readback(s.disk) else s.offset
  }

  ghost predicate Known(c: Codec, text: string, ids: set<EventId>) {
    c.parse(text).Some? ==> c.parse(text).value in ids
  }

  /** Every event on a line below the offset, and below the saved offset, has been uploaded. */
  ghost predicate Covered(s: Replica) {
    forall j :: 0 <= j < Frontier(s) && j <= |s.lines| ==> Known(s.codec, Text(s, j), Ids(s.uploaded))
  }

  /** However the line goes on, it will not become an event outside `ids`. */
  ghost predicate Spent(c: Codec, text: string, ids: set<EventId>) {
    forall x :: '\n' !in x ==> Known(c, text + x, ids)
  }

  /** The lines below `n` exist, and no event that is or will be on them is outside `ids`. */
  ghost predicate Kept(s: Replica, n: nat, ids: set<EventId>) {
    && (forall j :: 0 <= j < n && j < |s.lines| ==> Known(s.codec, s.lines[j], ids))
    && (n <= |s.lines| || (n == |s.lines| + 1 && Spent(s.codec, s.tail, ids)))
  }

  /** Covered now, and however the file grows. */
  ghost predicate Durable(s: Replica) {
    Kept(s, Frontier(s), Ids(s.uploaded))
  }

  predicate Appends(steps: seq<Step>) {
    forall i :: 0 <= i < |steps| ==> steps[i].Put? || steps[i].End?
  }

  lemma DurableIsCovered(s: Replica)
    requires Durable(s)
    ensures Covered(s)
  {
    assert s.tail + "" == s.tail;
  }

  lemma KeptMore(s: Replica, n: nat, ids: set<EventId>, ids': set<EventId>)
    requires Kept(s, n, ids) && ids <= ids'
    ensures Kept(s, n, ids')
  {
    forall x | '\n' !in x && Spent(s.codec, s.tail, ids)
      ensures Known(s.codec, s.tail + x, ids')
    {
      assert Known(s.codec, s.tail + x, ids);
    }
  }

  lemma KeptAppend(s: Replica, step: Step, n: nat, ids: set<EventId>)
    requires Kept(s, n, ids) && Enabled(s, step) && (step.Put? || step.End?)
    ensures Kept(Apply(s, step), n, ids)
  {
    if n == |s.lines| + 1 {
      match step
      case Put(text) =>
        forall x | '\n' !in x
          ensures Known(s.codec, s.tail + text + x, ids)
        {
          assert s.tail + text + x == s.tail + (text + x);
        }
      case End =>
        assert s.tail + "" == s.tail;
    }
  }

  lemma {:induction false} FreshId(ids: set<EventId>) returns (id: EventId)
    ensures forall i :: i in ids ==> i < id
    decreases ids
  {
    if ids == {} {
      id := 0;
    } else {
      var i :| i in ids;
      var rest := FreshId(ids - {i});
      id := if i < rest then rest else i + 1;
      assert forall k :: k in ids ==> k == i || k in ids - {i};
    }
  }

  lemma {:induction false} DurableStaysCovered(s: Replica, steps: seq<Step>)
    requires Durable(s) && CanRun(s, steps) && Appends(steps)
    ensures Covered(After(s, steps))
    decreases |steps|
  {
    if steps == [] {
      DurableIsCovered(s);
    } else {
      assert steps[0].Put? || steps[0].End?;
      KeptAppend(s, steps[0], Frontier(s), Ids(s.uploaded));
      DurableStaysCovered(Apply(s, steps[0]), steps[1..]);
    }
  }

  /** If the state is not durable, one more event or one more piece of a line is enough to lose something. */
  lemma LossFollows(s: Replica) returns (steps: seq<Step>)
    requires Lawful(s.codec) && !Durable(s)
    ensures CanRun(s, steps) && Appends(steps) && !Covered(After(s, steps))
  {
    var ids, n := Ids(s.uploaded), |s.lines|;
    if j :| 0 <= j < Frontier(s) && j < n && !Known(s.codec, s.lines[j], ids) {
      steps := [];
      assert Text(s, j) == s.lines[j];
    } else if Frontier(s) == n + 1 {
      var x :| '\n' !in x && !Known(s.codec, s.tail + x, ids);
      steps := [Put(x)] + [];
      RunOne(s, Put(x), []);
      assert Text(Apply(s, Put(x)), n) == s.tail + x;
    } else {
      var id := FreshId(ids);
      var text := s.codec.render(id);
      assert Prints(s.codec, id);
      var s1 := Apply(s, End);
      var s2 := Apply(s1, Put(text));
      RunOne(s1, Put(text), []);
      RunOne(s, End, [Put(text)] + []);
      steps := [End] + ([Put(text)] + []);
      assert Text(s2, n + 1) == s2.tail == "" + text == text;
    }
  }

  /** Durable means: covered, and covered after whatever is appended. */
  lemma DurableIff(s: Replica)
    requires Lawful(s.codec)
    ensures Durable(s) <==> forall steps :: Appends(steps) && CanRun(s, steps) ==> Covered(After(s, steps))
  {
    if Durable(s) {
      forall steps | Appends(steps) && CanRun(s, steps)
        ensures Covered(After(s, steps))
      {
        DurableStaysCovered(s, steps);
      }
    } else {
      var steps := LossFollows(s);
    }
  }

  lemma NewLineIsNotSpent(c: Codec, ids: set<EventId>)
    requires Lawful(c)
    ensures !Spent(c, "", ids)
  {
    var id := FreshId(ids);
    assert Prints(c, id) && "" + c.render(id) == c.render(id);
    assert !Known(c, "" + c.render(id), ids);
  }

  /** In particular neither offset is past the end of the file. */
  lemma DurableIsBounded(s: Replica)
    requires Lawful(s.codec) && Durable(s)
    ensures s.offset <= LineCount(s) && Readback(s.disk) <= LineCount(s)
  {
    NewLineIsNotSpent(s.codec, Ids(s.uploaded));
  }

  // ---------------------------------------------------------------- what a scan knows, in every run

  /** No two collected events have the same id.  Every line the reader has passed is known to it, unless a read
      continued inside that line; and so is the part it has read of the line it is in. */
  ghost predicate Tracks(s: Replica, r: Reader) {
    && InFile(s, r) && r.seen == Ids(r.events) && NoRepeats(r.events)
    && r.at + (if r.col > 0 then 1 else 0) <= r.idx
    && (forall j :: s.offset <= j < r.at && j !in r.broken ==> Known(s.codec, s.lines[j], r.seen))
    && (r.col > 0 && s.offset <= r.at && r.at !in r.broken ==> Known(s.codec, Text(s, r.at)[..r.col], r.seen))
  }

  ghost predicate Tracking(s: Replica) {
    match s.phase
    case Idle => true
    case Scanning(r) => Tracks(s, r)
    case Sending(r, _) => Tracks(s, r) && r.events != []
  }

  lemma TracksAppend(s: Replica, step: Step, r: Reader)
    requires Tracks(s, r) && Enabled(s, step) && (step.Put? || step.End?)
    ensures Tracks(Apply(s, step), r)
  {
    var s' := Apply(s, step);
    assert Text(s', r.at)[..r.col] == Text(s, r.at)[..r.col];
  }

  lemma TracksRead(s: Replica, r: Reader)
    requires Tracks(s, r) && !AtEnd(s, r)
    ensures Tracks(s, ReadNext(s, r))
  {
    var r' := ReadNext(s, r);
    var line := Text(s, r.at);
    if r'.events != r.events {
      var e := r'.events[|r.events|];
      IdsOfConcat(r.events, [e]);
      assert Ids([e]) == {e.id};
      NoRepeatsSnoc(r.events, e);
    }
    if r.col == 0 {
      assert line[0..] == line && line[..|line|] == line;
    } else if line[r.col..] == "" {
      assert line[..r.col] == line;
    }
  }

  lemma TrackingStep(s: Replica, step: Step)
    requires Tracking(s) && Enabled(s, step)
    ensures Tracking(Apply(s, step))
  {
    if (step.Put? || step.End?) && !s.phase.Idle? {
      TracksAppend(s, step, s.phase.reader);
    } else if step.Read? {
      TracksRead(s, s.phase.reader);
    }
  }

  /** In every state of every run. */
  lemma {:induction false} TrackingAlways(s: Replica, steps: seq<Step>)
    requires Tracking(s) && CanRun(s, steps)
    ensures Tracking(After(s, steps))
    decreases |steps|
  {
    if steps != [] {
      TrackingStep(s, steps[0]);
      TrackingAlways(Apply(s, steps[0]), steps[1..]);
    }
  }

  /** Deduplication: from a fresh start, however the file grows and whatever fails, no batch holds an id twice. */
  lemma BatchesHaveNoRepeats(s: Replica, steps: seq<Step>)
    requires Init(s) && CanRun(s, steps)
    ensures var s' := After(s, steps); !s'.phase.Idle? ==> NoRepeats(s'.phase.reader.events)
  {
    TrackingAlways(s, steps);
  }

  // ---------------------------------------------------------------- the exact condition

  /** What has to be checked before a batch is acknowledged: the lines it makes the offset pass exist and cannot
      become new events, and those the scan did not read in one piece hold no event it missed. */
  ghost predicate Passes(s: Replica)
    requires s.phase.Sending?
  {
    var r := s.phase.reader;
    var n, ids := s.offset + |r.events|, Ids(s.uploaded) + Ids(r.events);
    && (n <= |s.lines| || (n == |s.lines| + 1 && Spent(s.codec, s.tail, ids)))
    && (forall k :: s.offset <= k < n && k < |s.lines| && (k in r.broken || r.at <= k) ==>
          Known(s.codec, s.lines[k], ids))
  }

  /** An acknowledged batch leaves a durable state if and only if it passes. */
  lemma AckIsDurableIff(s: Replica, write: Write)
    requires Tracking(s) && Durable(s) && s.phase.Sending?
    ensures Durable(Apply(s, Ack(write))) <==> Passes(s)
  {
    var r, s' := s.phase.reader, Apply(s, Ack(write));
    var n, ids := s.offset + |r.events|, Ids(s.uploaded) + Ids(r.events);
    FrontierAfterAck(s, write);
    KeptMore(s, Frontier(s), Ids(s.uploaded), ids);
    assert Kept(s', n, ids) == Kept(s, n, ids);
    KeptFewer(s', Frontier(s'), n, ids);
    if Passes(s) {
      assert forall j :: 0 <= j < s.offset && j < |s.lines| ==> Known(s.codec, s.lines[j], ids);
    }
  }

  lemma KeptFewer(s: Replica, n: nat, m: nat, ids: set<EventId>)
    requires m <= n
    ensures Kept(s, n, ids) ==> Kept(s, m, ids)
  {
  }

  lemma FrontierAfterAck(s: Replica, write: Write)
    requires s.phase.Sending?
    ensures var s', n := Apply(s, Ack(write)), s.offset + |s.phase.reader.events|;
      && n <= Frontier(s') && (Frontier(s') == n || Frontier(s') == Frontier(s))
      && Ids(s'.uploaded) == Ids(s.uploaded) + Ids(s.phase.reader.events)
  {
    IdsOfConcat(s.uploaded, s.phase.reader.events);
    SavedIsSmaller(s.offset + |s.phase.reader.events|, s.disk, write);
  }

  /** No event is missed on the lines the batch makes the offset pass without having read them in one piece. */
  ghost predicate NothingMissed(s: Replica)
    requires s.phase.Sending?
  {
    var r := s.phase.reader;
    forall k :: s.offset <= k < s.offset + |r.events| && k <= |s.lines| && (k in r.broken || r.at <= k) ==>
      Known(s.codec, Text(s, k), Ids(s.uploaded) + Ids(r.events))
  }

  lemma KnownAfterAck(s: Replica, j: nat)
    requires Tracking(s) && Covered(s) && s.phase.Sending? && NothingMissed(s)
    requires j <= |s.lines| && (j < s.offset + |s.phase.reader.events| || j < Frontier(s))
    ensures Known(s.codec, Text(s, j), Ids(s.uploaded) + Ids(s.phase.reader.events))
  {
    if j < Frontier(s) {
      assert Known(s.codec, Text(s, j), Ids(s.uploaded));
    }
  }

  /** The part of the condition that concerns the lines as they are now: an acknowledged batch leaves every event
      below the offset uploaded if and only if it missed none. */
  lemma AckIsCoveredIff(s: Replica, write: Write)
    requires Tracking(s) && Covered(s) && s.phase.Sending?
    ensures Covered(Apply(s, Ack(write))) <==> NothingMissed(s)
  {
    var s' := Apply(s, Ack(write));
    FrontierAfterAck(s, write);
    assert forall j :: 0 <= j <= |s.lines| ==> Text(s', j) == Text(s, j);
    if NothingMissed(s) {
      forall j | 0 <= j < Frontier(s') && j <= |s.lines|
        ensures Known(s'.codec, Text(s', j), Ids(s'.uploaded))
      {
        KnownAfterAck(s, j);
      }
    }
  }

  /** No other step can lose anything. */
  lemma OtherStepsAreDurable(s: Replica, step: Step)
    requires Durable(s) && Enabled(s, step) && !step.Ack?
    ensures Durable(Apply(s, step))
  {
    match step
    case Put(_) => KeptAppend(s, step, Frontier(s), Ids(s.uploaded));
    case End => KeptAppend(s, step, Frontier(s), Ids(s.uploaded));
    case Fail(arrived) =>
      IdsOfConcat(s.uploaded, arrived);
      KeptMore(s, Frontier(s), Ids(s.uploaded), Ids(s.uploaded + arrived));
    case Restart(_) => KeptFewer(s, Frontier(s), Frontier(Apply(s, step)), Ids(s.uploaded));
    case _ =>
  }

  /** Every batch that is acknowledged passes. */
  ghost predicate PassingRun(s: Replica, steps: seq<Step>)
    requires CanRun(s, steps)
    decreases |steps|
  {
    steps == [] || ((steps[0].Ack? ==> Passes(s)) && PassingRun(Apply(s, steps[0]), steps[1..]))
  }

  ghost predicate AlwaysDurable(s: Replica, steps: seq<Step>)
    requires CanRun(s, steps)
    decreases |steps|
  {
    Durable(s) && (steps == [] || AlwaysDurable(Apply(s, steps[0]), steps[1..]))
  }

  /** Over every run: replication is at least once in every state if and only if every acknowledged batch passes. */
  lemma {:induction false} AtLeastOnceIff(s: Replica, steps: seq<Step>)
    requires Tracking(s) && Durable(s) && CanRun(s, steps)
    ensures AlwaysDurable(s, steps) <==> PassingRun(s, steps)
    decreases |steps|
  {
    if steps != [] {
      var s' := Apply(s, steps[0]);
      TrackingStep(s, steps[0]);
      if steps[0].Ack? {
        AckIsDurableIff(s, steps[0].write);
      } else {
        OtherStepsAreDurable(s, steps[0]);
      }
      if Durable(s') {
        AtLeastOnceIff(s', steps[1..]);
      } else {
        assert !AlwaysDurable(s', steps[1..]);
      }
    }
  }

  // ---------------------------------------------------------------- reads that do not continue inside a line

  /** A read continues inside a line only to consume its terminator. */
  predicate Whole(s: Replica, step: Step)
    requires Enabled(s, step)
  {
    step.Read? && s.phase.reader.col > 0 ==> |Text(s, s.phase.reader.at)| == s.phase.reader.col
  }

  predicate WholeRun(s: Replica, steps: seq<Step>)
    requires CanRun(s, steps)
    decreases |steps|
  {
    steps == [] || (Whole(s, steps[0]) && WholeRun(Apply(s, steps[0]), steps[1..]))
  }

  /** The lines that account for the events collected: those passed, and the one the reader is in if it parsed. */
  function Harvest(s: Replica, r: Reader): nat
    requires InFile(s, r)
  {
    r.at + if r.col > 0 && s.codec.parse(Text(s, r.at)[..r.col]).Some? then 1 else 0
  }

  ghost predicate TidyReader(s: Replica, r: Reader) {
    && InFile(s, r) && r.broken == {}
    && (r.col > 0 ==> s.offset <= r.at + 1)
    && (r.at < s.offset ==> r.events == [] && r.idx == r.at + if r.col > 0 then 1 else 0)
    && s.offset + |r.events| <= (if s.offset < Harvest(s, r) then Harvest(s, r) else s.offset)
  }

  ghost predicate Tidy(s: Replica) {
    !s.phase.Idle? ==> TidyReader(s, s.phase.reader)
  }

  /** The invariant of runs without reads that continue inside a line. */
  ghost predicate Replicating(s: Replica) {
    Lawful(s.codec) && Durable(s) && Tracking(s) && Tidy(s)
  }

  lemma TidyAppend(s: Replica, step: Step, r: Reader)
    requires TidyReader(s, r) && Enabled(s, step) && (step.Put? || step.End?)
    ensures TidyReader(Apply(s, step), r)
  {
    var s' := Apply(s, step);
    assert Text(s', r.at)[..r.col] == Text(s, r.at)[..r.col];
  }

  lemma TidyRead(s: Replica, r: Reader)
    requires TidyReader(s, r) && !AtEnd(s, r) && s.codec.parse("") == None && s.offset <= |s.lines| + 1
    requires r.col > 0 ==> |Text(s, r.at)| == r.col
    ensures TidyReader(s, ReadNext(s, r))
  {
    var line := Text(s, r.at);
    if r.col == 0 {
      assert line[0..] == line && line[..|line|] == line;
    } else {
      assert line[r.col..] == "";
    }
  }

  lemma TidyStep(s: Replica, step: Step)
    requires Replicating(s) && Enabled(s, step) && Whole(s, step)
    ensures Tidy(Apply(s, step))
  {
    match step
    case Put(_) => if !s.phase.Idle? { TidyAppend(s, step, s.phase.reader); }
    case End => if !s.phase.Idle? { TidyAppend(s, step, s.phase.reader); }
    case Read => TidyRead(s, s.phase.reader);
    case _ =>
  }

  /** An event that was read at the start of a line settles the whole line. */
  lemma PrefixSettles(c: Codec, text: string, col: nat, ids: set<EventId>)
    requires Lawful(c) && col <= |text| && c.parse(text[..col]).Some? && c.parse(text[..col]).value in ids
    ensures Known(c, text, ids) && Spent(c, text, ids)
  {
    assert text[..col] <= text;
    forall x | '\n' !in x
      ensures Known(c, text + x, ids)
    {
      assert text[..col] <= text + x;
    }
  }

  /** Such runs always pass. */
  lemma TidyPasses(s: Replica)
    requires Replicating(s) && s.phase.Sending?
    ensures Passes(s)
  {
    var r := s.phase.reader;
    var n, ids := s.offset + |r.events|, Ids(s.uploaded) + Ids(r.events);
    if n == r.at + 1 {
      PrefixSettles(s.codec, Text(s, r.at), r.col, ids);
    }
  }

  lemma ReplicatingStep(s: Replica, step: Step)
    requires Replicating(s) && Enabled(s, step) && Whole(s, step)
    ensures Replicating(Apply(s, step))
  {
    TrackingStep(s, step);
    TidyStep(s, step);
    if step.Ack? {
      TidyPasses(s);
      AckIsDurableIff(s, step.write);
    } else {
      OtherStepsAreDurable(s, step);
    }
  }

  lemma {:induction false} ReplicatingAlways(s: Replica, steps: seq<Step>)
    requires Replicating(s) && CanRun(s, steps) && WholeRun(s, steps)
    ensures Replicating(After(s, steps)) && PassingRun(s, steps)
    decreases |steps|
  {
    if steps != [] {
      ReplicatingStep(s, steps[0]);
      if steps[0].Ack? {
        TidyPasses(s);
      }
      ReplicatingAlways(Apply(s, steps[0]), steps[1..]);
    }
  }

  lemma InitReplicates(s: Replica)
    requires Init(s)
    ensures Replicating(s)
  {
  }

  /** From a fresh start with any log: if no read continues inside a line with anything but its terminator, then in
      every state neither offset is past the end of the file and every event below both has been uploaded. */
  lemma AtLeastOnceFromStart(s: Replica, steps: seq<Step>)
    requires Init(s) && CanRun(s, steps) && WholeRun(s, steps)
    ensures var s' := After(s, steps);
      s'.offset <= LineCount(s') && Readback(s'.disk) <= LineCount(s') && Covered(s') && Durable(s')
  {
    InitReplicates(s);
    ReplicatingAlways(s, steps);
    DurableIsCovered(After(s, steps));
    DurableIsBounded(After(s, steps));
  }

  // ---------------------------------------------------------------- runs that lose an event

  lemma Then(s: Replica, steps: seq<Step>, step: Step) returns (s': Replica, steps': seq<Step>)
    requires CanRun(s, steps) && Enabled(After(s, steps), step)
    ensures CanRun(s, steps') && s' == After(s, steps') == Apply(After(s, steps), step)
  {
    RunSnoc(s, steps, step);
    steps' := steps + [step];
    s' := After(s, steps');
  }

  /** The text of `id`, read in one piece from the tail by a reader that has not seen it. */
  lemma ReadsEvent(s: Replica, r: Reader, id: EventId)
    requires Lawful(s.codec) && r.at == |s.lines| && r.col <= |s.tail| && s.tail[r.col..] == s.codec.render(id)
    requires s.offset <= r.idx && id !in r.seen
    ensures var r' := ReadNext(s, r);
      && r'.events == r.events + [Event(id, s.codec.render(id))] && r'.seen == r.seen + {id}
      && r'.at == r.at && r'.col == |s.tail| && r'.idx == r.idx + 1
  {
    assert Prints(s.codec, id);
  }

  /** No piece of a printed event is an event. */
  lemma PiecesDoNotParse(c: Codec, id: EventId, half: string, rest: string)
    requires Lawful(c) && half + rest == c.render(id) && half != "" && rest != ""
    ensures c.parse(half) == None && c.parse(rest) == None
  {
    assert Prints(c, id);
    assert c.render(id)[..|half|] == half && c.render(id)[|half|..] == rest;
  }

  /** A line is read while half of it is written, and once more when it is complete.  The event that follows raises
      the offset past the line, whose own event was never collected. */
  lemma HalfLineIsLost(s: Replica, half: string, rest: string, lost: EventId, next: EventId)
      returns (steps: seq<Step>)
    requires Init(s) && s.lines == [] && s.tail == half && lost != next
    requires half + rest == s.codec.render(lost) && half != "" && rest != ""
    ensures CanRun(s, steps) && !Covered(After(s, steps))
  {
    assert Prints(s.codec, lost) && Prints(s.codec, next);
    var s5, steps5 := ReadBothHalves(s, half, rest, lost, s.codec.render(next));
    ReadsEvent(s5, s5.phase.reader, next);
    var s6, steps6 := Then(s, steps5, Read);
    var s7, steps7 := Then(s, steps6, Finish);
    var s8, steps8 := Then(s, steps7, Ack(Lost));
    steps := steps8;
    assert Ids(s8.uploaded) == {next} && Text(s8, 0) == s.codec.render(lost);
    assert !Known(s8.codec, Text(s8, 0), Ids(s8.uploaded));
  }

  lemma ReadBothHalves(s: Replica, half: string, rest: string, id: EventId, next: string)
      returns (s': Replica, steps: seq<Step>)
    requires Init(s) && s.lines == [] && s.tail == half && '\n' !in next
    requires half + rest == s.codec.render(id) && half != "" && rest != ""
    ensures CanRun(s, steps) && s' == After(s, steps)
    ensures s' == s.(lines := [half + rest], tail := next, phase := Scanning(Reader(1, 0, 2, [], {}, {0})))
  {
    PiecesDoNotParse(s.codec, id, half, rest);
    assert Prints(s.codec, id);
    var s0, steps0 := Then(s, [], Begin);
    assert half[0..] == half;
    var s1, steps1 := Then(s, steps0, Read);
    var s2, steps2 := Then(s, steps1, Put(rest));
    var s3, steps3 := Then(s, steps2, End);
    var s4, steps4 := Then(s, steps3, Put(next));
    assert s4.tail == "" + next == next && s4.lines == [half + rest];
    assert Text(s4, 0)[|half|..] == rest;
    s', steps := Then(s, steps4, Read);
    assert s'.phase.reader.broken == {0};
  }

  /** A writer stops before the newline, after its event was read; the next writer goes on in the same line.  Both
      events are collected from that line, the offset passes the end of the file, and the next line is skipped. */
  lemma DoubledLineSkipsNext(s: Replica, a: EventId, b: EventId, lost: EventId)
      returns (steps: seq<Step>, more: seq<Step>)
    requires Init(s) && s.lines == [] && s.tail == s.codec.render(a) && a != b && lost != a && lost != b
    ensures CanRun(s, steps) && After(s, steps).offset == 2 && LineCount(After(s, steps)) == 1
    ensures CanRun(s, steps + more) && Appends(more) && !Covered(After(s, steps + more))
  {
    assert Prints(s.codec, lost);
    var s6;
    s6, steps := UploadDoubledLine(s, a, b);
    var s7, steps7 := Then(s, steps, End);
    var s8, steps8 := Then(s, steps7, Put(s.codec.render(lost)));
    more := [End, Put(s.codec.render(lost))];
    RunOne(s7, Put(s.codec.render(lost)), []);
    RunOne(s6, End, [Put(s.codec.render(lost))] + []);
    assert [End] + ([Put(s.codec.render(lost))] + []) == more;
    RunConcat(s, steps, more);
    assert Text(s8, 1) == "" + s.codec.render(lost) == s.codec.render(lost);
    assert !Known(s8.codec, Text(s8, 1), Ids(s8.uploaded));
  }

  lemma UploadDoubledLine(s: Replica, a: EventId, b: EventId) returns (s': Replica, steps: seq<Step>)
    requires Init(s) && s.lines == [] && s.tail == s.codec.render(a) && a != b
    ensures CanRun(s, steps) && s' == After(s, steps) && s'.codec == s.codec
    ensures s'.offset == 2 && |s'.lines| == 0 && s'.tail != "" && Ids(s'.uploaded) == {a, b}
  {
    var s4, steps4 := ReadDoubledLine(s, a, b);
    var s5, steps5 := Then(s, steps4, Finish);
    s', steps := Then(s, steps5, Ack(Lost));
    assert s'.uploaded == s4.phase.reader.events;
  }

  lemma ReadDoubledLine(s: Replica, a: EventId, b: EventId) returns (s': Replica, steps: seq<Step>)
    requires Init(s) && s.lines == [] && s.tail == s.codec.render(a) && a != b
    ensures CanRun(s, steps) && s' == After(s, steps) && s'.codec == s.codec && s'.phase.Scanning?
    ensures s'.offset == 0 && s'.uploaded == [] && s'.lines == [] && s'.tail != "" && AtEnd(s', s'.phase.reader)
    ensures s'.phase.reader.events == [Event(a, s.codec.render(a)), Event(b, s.codec.render(b))]
  {
    assert Prints(s.codec, a) && Prints(s.codec, b);
    var s1, steps1 := Then(s, [], Begin);
    ReadsEvent(s1, s1.phase.reader, a);
    var s2, steps2 := Then(s, steps1, Read);
    var s3, steps3 := Then(s, steps2, Put(s.codec.render(b)));
    assert s3.tail[s3.phase.reader.col..] == s.codec.render(b);
    ReadsEvent(s3, s3.phase.reader, b);
    s', steps := Then(s, steps3, Read);
  }

  /** The laws asked of a codec can be met: events as a run of marks between brackets. */
  lemma LawfulCodecExists() returns (c: Codec)
    ensures Lawful(c)
  {
    c := Codec(
      (text: string) => if Bracketed(text) then Some(|text| - 2) else None,
      (id: EventId) => "{" + seq(id, _ => '1') + "}");
    forall id: EventId
      ensures Prints(c, id)
    {
      var text := c.render(id);
      assert Bracketed(text) && |text| == id + 2;
    }
  }

  predicate Bracketed(text: string) {
    && |text| >= 2 && text[0] == '{' && text[|text| - 1] == '}'
    && forall i :: 0 < i < |text| - 1 ==> text[i] == '1'
  }
}
