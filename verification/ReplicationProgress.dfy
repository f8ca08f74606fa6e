/**
 Progress of the replicator on a log at rest: how many batches and steps it takes, and what it has uploaded when a
 scan finds nothing.
 */
module ReplicationProgress {
  import opened Wrappers
  import opened Replication
  import opened AtLeastOnce

  // ---------------------------------------------------------------- bounded work

  predicate Quiet(step: Step) {
    !step.Put? && !step.End? && !step.Restart?
  }

  /** Nobody appends, nothing fails, nothing restarts. */
  predicate Smooth(steps: seq<Step>) {
    forall i :: 0 <= i < |steps| ==> Quiet(steps[i]) && !steps[i].Fail?
  }

  function Acks(steps: seq<Step>): nat {
    if steps == [] then 0 else (if steps[0].Ack? then 1 else 0) + Acks(steps[1..])
  }

  /** Every acknowledged batch raises the offset, so a log at rest takes a bounded number of batches, however many
      attempts fail in between. */
  lemma {:induction false} BatchesAreBounded(s: Replica, steps: seq<Step>)
    requires Replicating(s) && CanRun(s, steps) && WholeRun(s, steps)
    requires forall i :: 0 <= i < |steps| ==> Quiet(steps[i])
    ensures Acks(steps) <= After(s, steps).offset - s.offset <= LineCount(s) - s.offset
    decreases |steps|
  {
    if steps == [] {
      DurableIsBounded(s);
    } else {
      assert Quiet(steps[0]);
      ReplicatingStep(s, steps[0]);
      BatchesAreBounded(Apply(s, steps[0]), steps[1..]);
    }
  }

  ghost predicate Everything(s: Replica) {
    forall j :: 0 <= j <= |s.lines| ==> Known(s.codec, Text(s, j), Ids(s.uploaded))
  }

  predicate FindsNothing(s: Replica, step: Step) {
    step.Finish? && s.phase.Scanning? && s.phase.reader.events == []
  }

  /** A scan that finds nothing proves that every event in the file has been uploaded. */
  lemma EmptyScanMeansEverything(s: Replica)
    requires Replicating(s) && Enabled(s, Finish) && FindsNothing(s, Finish)
    ensures Everything(s)
  {
    var r := s.phase.reader;
    forall j | 0 <= j <= |s.lines|
      ensures Known(s.codec, Text(s, j), Ids(s.uploaded))
    {
      DurableIsCovered(s);
      if s.offset <= j {
        assert s.tail[..r.col] == s.tail;
        assert Known(s.codec, Text(s, j), {}) || s.tail == "";
      }
    }
  }

  /** The reads a scan still has to do on a file at rest. */
  function ReadsLeft(s: Replica, r: Reader): nat {
    Minus(|s.lines|, r.at) + if AtEnd(s, r) then 0 else 1
  }

  function Minus(a: nat, b: nat): nat {
    if a < b then 0 else a - b
  }

  function Round(s: Replica): nat {
    |s.lines| + 4
  }

  /** The steps of the round in progress. */
  function RoundLeft(s: Replica): nat {
    match s.phase
    case Idle => Round(s)
    case Scanning(r) => ReadsLeft(s, r) + 2
    case Sending(_, _) => 1
  }

  /** The steps that remain, at most, until a scan finds nothing. */
  function Budget(s: Replica): nat {
    Minus(|s.lines| + 1, s.offset) * Round(s) + RoundLeft(s)
  }

  lemma RoundFits(left: nat, k: nat, round: nat)
    requires 0 < k <= left
    ensures (left - k) * round + round <= left * round
  {
    assert k * round >= round;
    assert (left - k) * round == left * round - k * round;
  }

  lemma BudgetFalls(s: Replica, step: Step)
    requires Tracking(s) && Enabled(s, step) && Quiet(step) && !step.Fail? && !FindsNothing(s, step)
    requires step.Ack? ==> s.offset + |s.phase.reader.events| <= |s.lines| + 1
    ensures Budget(Apply(s, step)) < Budget(s)
  {
    var s' := Apply(s, step);
    assert Round(s') == Round(s);
    if step.Ack? {
      RoundFits(Minus(|s.lines| + 1, s.offset), |s.phase.reader.events|, Round(s));
    } else {
      assert s'.offset == s.offset;
      assert RoundLeft(s') < RoundLeft(s);
    }
  }

  lemma Advances(s: Replica, step: Step)
    requires Replicating(s) && Enabled(s, step) && Whole(s, step)
    requires Quiet(step) && !step.Fail? && !FindsNothing(s, step)
    ensures Replicating(Apply(s, step)) && Budget(Apply(s, step)) < Budget(s)
  {
    ReplicatingStep(s, step);
    BudgetFalls(s, step);
  }

  lemma RunPrefix(s: Replica, steps: seq<Step>, k: nat)
    requires steps != [] && Enabled(s, steps[0]) && k < |steps| && CanRun(Apply(s, steps[0]), steps[1..][..k])
    ensures CanRun(s, steps[..k + 1]) && After(s, steps[..k + 1]) == After(Apply(s, steps[0]), steps[1..][..k])
  {
    assert steps[..k + 1] == [steps[0]] + steps[1..][..k];
    RunOne(s, steps[0], steps[1..][..k]);
  }

  ghost predicate CaughtUp(s: Replica) {
    Replicating(s) && Enabled(s, Finish) && FindsNothing(s, Finish)
  }

  /** Sooner or later a scan finds nothing: every smooth run that is longer than the budget comes to that point. */
  lemma {:induction false} EmptyScanComes(s: Replica, steps: seq<Step>) returns (k: nat)
    requires Replicating(s) && CanRun(s, steps) && WholeRun(s, steps) && Smooth(steps)
    requires |steps| > Budget(s)
    ensures k <= Budget(s) && CanRun(s, steps[..k]) && CaughtUp(After(s, steps[..k]))
    decreases |steps|
  {
    assert Quiet(steps[0]) && !steps[0].Fail?;
    if FindsNothing(s, steps[0]) {
      k := 0;
    } else {
      Advances(s, steps[0]);
      var rest := EmptyScanComes(Apply(s, steps[0]), steps[1..]);
      RunPrefix(s, steps, rest);
      k := rest + 1;
    }
  }

  lemma {:induction false} EverythingStays(s: Replica, steps: seq<Step>)
    requires Everything(s) && CanRun(s, steps) && Smooth(steps)
    ensures Everything(After(s, steps))
    decreases |steps|
  {
    if steps != [] {
      assert Quiet(steps[0]);
      var s' := Apply(s, steps[0]);
      if steps[0].Ack? {
        IdsOfConcat(s.uploaded, s.phase.reader.events);
      }
      assert forall j :: 0 <= j <= |s.lines| ==>
        Text(s', j) == Text(s, j) && Known(s.codec, Text(s, j), Ids(s'.uploaded));
      EverythingStays(s', steps[1..]);
    }
  }

  /** At rest the replicator catches up, whatever it does: after any smooth run longer than the budget every event in
      the file has been uploaded. */
  lemma CatchesUp(s: Replica, steps: seq<Step>)
    requires Replicating(s) && CanRun(s, steps) && WholeRun(s, steps) && Smooth(steps)
    requires |steps| > Budget(s)
    ensures Everything(After(s, steps))
  {
    var k := EmptyScanComes(s, steps);
    var s' := After(s, steps[..k]);
    EmptyScanMeansEverything(s');
    Suffix(s, steps, k);
    EverythingStays(s', steps[k..]);
  }

  lemma {:induction false} Suffix(s: Replica, steps: seq<Step>, k: nat)
    requires CanRun(s, steps) && k <= |steps|
    ensures CanRun(s, steps[..k]) && CanRun(After(s, steps[..k]), steps[k..])
    ensures After(After(s, steps[..k]), steps[k..]) == After(s, steps)
    decreases k
  {
    if k == 0 {
      assert steps[0..] == steps;
    } else {
      Suffix(Apply(s, steps[0]), steps[1..], k - 1);
      assert steps[..k][1..] == steps[1..][..k - 1] && steps[1..][k - 1..] == steps[k..];
    }
  }

  /** No read of the scan in progress can continue inside a line. */
  predicate Settled(s: Replica) {
    s.phase.Scanning? ==> InFile(s, s.phase.reader) && (s.phase.reader.col > 0 ==> AtEnd(s, s.phase.reader))
  }

  /** The replicator is never stuck, and on a file at rest it never continues inside a line: from a settled state
      there are smooth runs of every length. */
  lemma {:induction false} SmoothRuns(s: Replica, n: nat) returns (steps: seq<Step>)
    requires Settled(s)
    ensures |steps| == n && CanRun(s, steps) && Smooth(steps) && WholeRun(s, steps)
    decreases n
  {
    if n == 0 {
      steps := [];
    } else {
      var step := match s.phase
        case Idle => Begin
        case Scanning(r) => if |r.events| >= BATCH_SIZE || AtEnd(s, r) then Finish else Read
        case Sending(_, _) => Ack(Complete);
      var rest := SmoothRuns(Apply(s, step), n - 1);
      steps := [step] + rest;
      RunOne(s, step, rest);
      assert steps[1..] == rest;
    }
  }

  /** On a file at rest every smooth run from a settled state is whole, so the theorems above apply to it. */
  lemma {:induction false} SettledIsWhole(s: Replica, steps: seq<Step>)
    requires Settled(s) && CanRun(s, steps) && Smooth(steps)
    ensures WholeRun(s, steps) && Settled(After(s, steps))
    decreases |steps|
  {
    if steps != [] {
      assert Quiet(steps[0]);
      SettledIsWhole(Apply(s, steps[0]), steps[1..]);
    }
  }
}
