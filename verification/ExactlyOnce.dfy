/** When nothing goes wrong, the uploads are the log: each event once, in order. */
module ExactlyOnce {
  import opened Wrappers
  import opened Replication

  /** Every line is an event, and no two have the same id. */
  ghost predicate AllEvents(s: Replica) {
    && (forall j :: 0 <= j < LineCount(s) ==> s.codec.parse(Text(s, j)).Some?)
    && (forall i, j :: 0 <= i < j < LineCount(s) ==> s.codec.parse(Text(s, i)) != s.codec.parse(Text(s, j)))
  }

  ghost function Logged(s: Replica): seq<Event>
    requires AllEvents(s)
  {
    seq(LineCount(s), j requires 0 <= j < LineCount(s) => Event(s.codec.parse(Text(s, j)).value, Text(s, j)))
  }

  /** Events with new ids are written, each on its own line, the newline possibly later; a failed upload has no
      effect; and a restart finds the offset it had in memory. */
  ghost predicate Clean(s: Replica, step: Step) {
    match step
    case Put(_) => s.tail == "" && (Enabled(s, step) ==> AllEvents(Apply(s, step)))
    case End => s.tail != ""
    case Fail(arrived) => arrived == []
    case Restart(readable) => readable && Readback(s.disk) == s.offset
    case _ => true
  }

  ghost predicate CleanRun(s: Replica, steps: seq<Step>)
    requires CanRun(s, steps)
    decreases |steps|
  {
    steps == [] || (Clean(s, steps[0]) && CleanRun(Apply(s, steps[0]), steps[1..]))
  }

  /** The lines begun by the reader. */
  function Begun(r: Reader): nat {
    r.at + if r.col > 0 then 1 else 0
  }

  ghost predicate ReadInOrder(s: Replica, r: Reader)
    requires AllEvents(s)
  {
    var p := Begun(r);
    && InFile(s, r) && (r.col > 0 ==> r.col == |Text(s, r.at)| && s.offset <= p)
    && p <= LineCount(s) && p <= r.idx && (p < s.offset ==> r.idx == p)
    && r.events == (if p <= s.offset then [] else Logged(s)[s.offset..p])
    && r.seen == Ids(r.events)
  }

  ghost predicate InOrder(s: Replica) {
    && s.codec.parse("") == None && AllEvents(s) && s.offset <= LineCount(s)
    && s.uploaded == Logged(s)[..s.offset]
    && match s.phase
       case Idle => true
       case Scanning(r) => ReadInOrder(s, r)
       case Sending(r, _) =>
         var n := s.offset + |r.events|;
         n <= LineCount(s) && r.events == Logged(s)[s.offset..n]
  }

  /** What is logged stays logged. */
  lemma LoggedGrows(s: Replica, step: Step)
    requires AllEvents(s) && Enabled(s, step) && (step.Put? || step.End?) && Clean(s, step)
    ensures AllEvents(Apply(s, step)) && Logged(s) <= Logged(Apply(s, step))
  {
    var s' := Apply(s, step);
    forall j | 0 <= j < LineCount(s)
      ensures j < LineCount(s') && Text(s', j) == Text(s, j)
    {
    }
    if step.End? {
      assert LineCount(s') == LineCount(s);
    }
    assert Logged(s')[..LineCount(s)] == Logged(s);
  }

  lemma SameLog(s: Replica, s': Replica)
    requires AllEvents(s) && s'.codec == s.codec && s'.lines == s.lines && s'.tail == s.tail
    ensures AllEvents(s') && Logged(s') == Logged(s)
  {
    assert forall j :: 0 <= j < LineCount(s) ==> Text(s', j) == Text(s, j);
  }

  lemma InOrderGrow(s: Replica, step: Step)
    requires InOrder(s) && Enabled(s, step) && (step.Put? || step.End?) && Clean(s, step)
    ensures InOrder(Apply(s, step))
  {
    LoggedGrows(s, step);
    var s' := Apply(s, step);
    assert forall a, b :: 0 <= a <= b <= LineCount(s) ==> Logged(s')[a..b] == Logged(s)[a..b];
  }

  lemma NewToReader(s: Replica, r: Reader)
    requires AllEvents(s) && ReadInOrder(s, r) && Begun(r) < LineCount(s) && r.col == 0
    ensures s.codec.parse(Text(s, r.at)).value !in r.seen
  {
    forall e | e in r.events
      ensures Some(e.id) != s.codec.parse(Text(s, r.at))
    {
      var i :| 0 <= i < |r.events| && r.events[i] == e;
      assert r.events[i] == Logged(s)[s.offset + i];
      assert s.codec.parse(Text(s, s.offset + i)) != s.codec.parse(Text(s, r.at));
    }
  }

  /** A read past the offset takes the next event of the log. */
  lemma TakesNext(s: Replica, r: Reader)
    requires AllEvents(s) && ReadInOrder(s, r) && r.col == 0 && s.offset <= r.at < LineCount(s)
    ensures var r', e := ReadNext(s, r), Logged(s)[r.at];
      r'.events == r.events + [e] && r'.seen == Ids(r'.events) && r'.events == Logged(s)[s.offset..r.at + 1]
  {
    NewToReader(s, r);
    var line, e := Text(s, r.at), Logged(s)[r.at];
    assert line[0..] == line;
    IdsOfConcat(r.events, [e]);
    assert Ids([e]) == {e.id};
    assert Logged(s)[s.offset..r.at + 1] == Logged(s)[s.offset..r.at] + [e];
  }

  /** A read before the offset, or of a mere terminator, takes nothing. */
  lemma TakesNothing(s: Replica, r: Reader)
    requires AllEvents(s) && ReadInOrder(s, r) && s.codec.parse("") == None && (r.col > 0 || r.at < s.offset)
    ensures var r' := ReadNext(s, r); r'.events == r.events && r'.seen == r.seen
  {
    if r.col > 0 {
      assert Text(s, r.at)[r.col..] == "";
    }
  }

  /** Where the reader stands after a read. */
  lemma MovesOn(s: Replica, r: Reader)
    requires AllEvents(s) && ReadInOrder(s, r) && !AtEnd(s, r)
    ensures var r' := ReadNext(s, r);
      && InFile(s, r') && r'.idx == r.idx + 1
      && (r'.col > 0 ==> r.col == 0 && r'.col == |Text(s, r'.at)| && r.at == |s.lines|)
      && Begun(r') == Begun(r) + (if r.col == 0 then 1 else 0) && (r.col == 0 ==> Begun(r) < LineCount(s))
  {
  }

  lemma InOrderRead(s: Replica, r: Reader)
    requires AllEvents(s) && ReadInOrder(s, r) && !AtEnd(s, r) && s.codec.parse("") == None && s.offset <= LineCount(s)
    ensures ReadInOrder(s, ReadNext(s, r))
  {
    MovesOn(s, r);
    if r.col == 0 && s.offset <= r.at {
      TakesNext(s, r);
    } else {
      TakesNothing(s, r);
    }
  }

  lemma InOrderSend(s: Replica, step: Step)
    requires InOrder(s) && Enabled(s, step) && Clean(s, step) && (step.Ack? || step.Fail?)
    ensures InOrder(Apply(s, step))
  {
    SameLog(s, Apply(s, step));
    if step.Ack? {
      var n := s.offset + |s.phase.reader.events|;
      assert Logged(s)[..n] == Logged(s)[..s.offset] + s.phase.reader.events;
    } else {
      assert s.uploaded + [] == s.uploaded;
    }
  }

  lemma InOrderScan(s: Replica, step: Step)
    requires InOrder(s) && Enabled(s, step) && (step.Begin? || step.Read? || step.Finish?)
    ensures InOrder(Apply(s, step))
  {
    var s' := Apply(s, step);
    SameLog(s, s');
    if step.Read? {
      InOrderRead(s, s.phase.reader);
      assert ReadInOrder(s', s'.phase.reader);
    }
  }

  lemma InOrderStep(s: Replica, step: Step)
    requires InOrder(s) && Enabled(s, step) && Clean(s, step)
    ensures InOrder(Apply(s, step))
  {
    match step
    case Put(_) => InOrderGrow(s, step);
    case End => InOrderGrow(s, step);
    case Ack(_) => InOrderSend(s, step);
    case Fail(_) => InOrderSend(s, step);
    case Restart(_) => SameLog(s, Apply(s, step));
    case _ => InOrderScan(s, step);
  }

  /** In every state of every clean run, what was uploaded is exactly the log up to the offset, each event
      once and in order. */
  lemma {:induction false} ExactlyOnce(s: Replica, steps: seq<Step>)
    requires InOrder(s) && CanRun(s, steps) && CleanRun(s, steps)
    ensures InOrder(After(s, steps))
    decreases |steps|
  {
    if steps != [] {
      InOrderStep(s, steps[0]);
      ExactlyOnce(Apply(s, steps[0]), steps[1..]);
    }
  }
}
