/**
 The background replicator that copies the audit log to a remote store, as a state machine.

 The log is a file that only grows: terminated lines, and an unterminated `tail` that may be empty.  Appending a
 text is any sequence of `Put` (characters other than a newline) and `End` (a newline), so whatever a writer has
 got out so far is a state of its own.  The replicator reads the file from the start, skips `offset` lines,
 collects the events it can parse, uploads them as one batch, raises `offset` by the number of EVENTS uploaded,
 and saves it as text.  `offset` is then used as a LINE index.

 A scan is not atomic: the file may grow between two reads.  A read that meets the end of the file inside an
 unterminated line returns what there is; if the file grows before the next read, that read continues in the
 middle of the line and returns the rest as if it were a line of its own.
 */
module Replication {
  import opened Wrappers
  import Decimal

  type EventId = nat

  datatype Event = Event(id: EventId, text: string)

  /** How events are recognised in, and written as, a line of text. */
  datatype Codec = Codec(parse: string -> Option<EventId>, render: EventId -> string)

  /** What is used about JSON objects: printing can be undone; no piece of a printed event is itself an event;
      and text that goes on after an event is no event, or the same one followed by white space. */
  ghost predicate Lawful(c: Codec) {
    && c.parse("") == None
    && (forall id :: Prints(c, id))
    && (forall x, y :: x <= y && c.parse(x).Some? ==> c.parse(y) == None || c.parse(y) == c.parse(x))
  }

  ghost predicate Prints(c: Codec, id: EventId) {
    var text := c.render(id);
    && |text| >= 2 && '\n' !in text && c.parse(text) == Some(id)
    && (forall i :: 0 < i < |text| ==> c.parse(text[..i]) == None && c.parse(text[i..]) == None)
  }

  const BATCH_SIZE: nat := 1000
  const MAX_RETRIES: nat := 5
  const BACKOFF_START: nat := 1000
  const WORD: nat := Decimal.U64_MAX + 1

  // ---------------------------------------------------------------- state

  /** The next read starts at column `col` of line `at`; `idx` counts the lines returned so far, as `enumerate` does.
      `broken` are the lines inside which a read continued with more than the terminator. */
  datatype Reader = Reader(at: nat, col: nat, idx: nat, events: seq<Event>, seen: set<EventId>, broken: set<nat>)

  datatype Phase = Idle | Scanning(reader: Reader) | Sending(reader: Reader, retries: nat)

  /** `disk` is the text of the checkpoint file; `failures` counts retries since the last success. */
  datatype Replica = Replica(codec: Codec, lines: seq<string>, tail: string, offset: nat, disk: string,
                             uploaded: seq<Event>, phase: Phase, backoff: nat, failures: nat)

  /** What became of the checkpoint write: complete, not started, or cut off after `k` characters. */
  datatype Write = Complete | Lost | Cut(k: nat)

  datatype Step =
    | Put(text: string)
    | End
    | Begin
    | Read
    | Finish
    | Ack(write: Write)
    | Fail(arrived: seq<Event>)
    | Restart(readable: bool)

  const EMPTY_READER := Reader(0, 0, 0, [], {}, {})

  ghost function Ids(events: seq<Event>): set<EventId> {
    set e | e in events :: e.id
  }

  lemma IdsOfConcat(a: seq<Event>, b: seq<Event>)
    ensures Ids(a + b) == Ids(a) + Ids(b)
  {
  }

  predicate NoRepeats(events: seq<Event>) {
    forall i, j :: 0 <= i < j < |events| ==> events[i].id != events[j].id
  }

  lemma NoRepeatsSnoc(front: seq<Event>, last: Event)
    ensures NoRepeats(front + [last]) <==> NoRepeats(front) && last.id !in Ids(front)
  {
    var events := front + [last];
    if NoRepeats(events) {
      forall i | 0 <= i < |front|
        ensures front[i].id != last.id
      {
        assert events[i].id != events[|front|].id;
      }
      forall i, j | 0 <= i < j < |front|
        ensures front[i].id != front[j].id
      {
        assert events[i].id != events[j].id;
      }
    } else if NoRepeats(front) {
      var i, j :| 0 <= i < j < |events| && events[i].id == events[j].id;
      assert j == |front| && front[i] in front;
    }
  }

  /** The text of line `j`; the last one is the tail. */
  function Text(s: Replica, j: nat): string
    requires j <= |s.lines|
  {
    if j < |s.lines| then s.lines[j] else s.tail
  }

  function LineCount(s: Replica): nat {
    |s.lines| + if s.tail == "" then 0 else 1
  }

  /** The offset a restarted replicator takes from the checkpoint file. */
  function Readback(disk: string): nat {
    Decimal.ParseUnsigned(disk, Decimal.U64_MAX).GetOr(0)
  }

  function Saved(offset: nat, disk: string, write: Write): string {
    match write
    case Complete => Decimal.Print(offset)
    case Lost => disk
    case Cut(k) => var text := Decimal.Print(offset); if k <= |text| then text[..k] else text
  }

  // ---------------------------------------------------------------- steps

  predicate InFile(s: Replica, r: Reader) {
    r.at <= |s.lines| && r.col <= |Text(s, r.at)|
  }

  predicate AtEnd(s: Replica, r: Reader) {
    r.at == |s.lines| && r.col == |s.tail|
  }

  /** The loop body of the scan: count the line, and keep it if it is a new event past the offset. */
  function Consider(c: Codec, r: Reader, offset: nat, text: string): Reader {
    var r' := r.(idx := r.idx + 1);
    if r.idx < offset then r' else
    match c.parse(text)
    case None => r'
    case Some(id) => if id in r.seen then r' else r'.(seen := r.seen + {id}, events := r.events + [Event(id, text)])
  }

  /** A read returns the text up to the next newline, which it consumes, or up to the end of the file. */
  function ReadNext(s: Replica, r: Reader): Reader
    requires InFile(s, r)
  {
    var text := Text(s, r.at)[r.col..];
    var r' := Consider(s.codec, r, s.offset, text).(
      broken := if r.col > 0 && text != "" then r.broken + {r.at} else r.broken);
    if r.at < |s.lines| then r'.(at := r.at + 1, col := 0) else r'.(col := |s.tail|)
  }

  predicate Enabled(s: Replica, step: Step) {
    match step
    case Put(text) => '\n' !in text
    case End => true
    case Begin => s.phase.Idle?
    case Read =>
      && s.phase.Scanning? && |s.phase.reader.events| < BATCH_SIZE
      && InFile(s, s.phase.reader) && !AtEnd(s, s.phase.reader)
    case Finish => s.phase.Scanning? && (|s.phase.reader.events| >= BATCH_SIZE || AtEnd(s, s.phase.reader))
    case Ack(_) => s.phase.Sending?
    case Fail(arrived) => s.phase.Sending? && forall e :: e in arrived ==> e in s.phase.reader.events
    case Restart(_) => true
  }

  function Apply(s: Replica, step: Step): Replica
    requires Enabled(s, step)
  {
    match step
    case Put(text) => s.(tail := s.tail + text)
    case End => s.(lines := s.lines + [s.tail], tail := "")
    case Begin => s.(phase := Scanning(EMPTY_READER))
    case Read => s.(phase := Scanning(ReadNext(s, s.phase.reader)))
    case Finish => s.(phase := if s.phase.reader.events == [] then Idle else Sending(s.phase.reader, 0))
    case Ack(write) =>
      var offset := s.offset + |s.phase.reader.events|;
      s.(offset := offset, disk := Saved(offset, s.disk, write), uploaded := s.uploaded + s.phase.reader.events,
         phase := Idle, backoff := BACKOFF_START, failures := 0)
    case Fail(arrived) =>
      if s.phase.retries < MAX_RETRIES then
        s.(uploaded := s.uploaded + arrived, phase := s.phase.(retries := s.phase.retries + 1),
           backoff := s.backoff * 2 % WORD, failures := s.failures + 1)
      else
        s.(uploaded := s.uploaded + arrived, phase := Idle)
    case Restart(readable) =>
      s.(offset := if readable then Readback(s.disk) else 0, phase := Idle,
         backoff := BACKOFF_START, failures := 0)
  }

  // ---------------------------------------------------------------- runs

  ghost predicate Init(s: Replica) {
    && Lawful(s.codec)
    && s.offset == 0 && s.disk == "" && s.uploaded == [] && s.phase.Idle?
    && s.backoff == BACKOFF_START && s.failures == 0
  }

  predicate CanRun(s: Replica, steps: seq<Step>)
    decreases |steps|
  {
    steps == [] || (Enabled(s, steps[0]) && CanRun(Apply(s, steps[0]), steps[1..]))
  }

  function After(s: Replica, steps: seq<Step>): Replica
    requires CanRun(s, steps)
    decreases |steps|
  {
    if steps == [] then s else After(Apply(s, steps[0]), steps[1..])
  }

  lemma {:induction false} RunConcat(s: Replica, a: seq<Step>, b: seq<Step>)
    requires CanRun(s, a) && CanRun(After(s, a), b)
    ensures CanRun(s, a + b) && After(s, a + b) == After(After(s, a), b)
    decreases |a|
  {
    if a == [] {
      assert a + b == b;
    } else {
      assert (a + b)[0] == a[0] && (a + b)[1..] == a[1..] + b;
      RunConcat(Apply(s, a[0]), a[1..], b);
    }
  }

  lemma RunOne(s: Replica, step: Step, rest: seq<Step>)
    requires Enabled(s, step) && CanRun(Apply(s, step), rest)
    ensures CanRun(s, [step] + rest) && After(s, [step] + rest) == After(Apply(s, step), rest)
  {
    assert ([step] + rest)[1..] == rest;
  }

  lemma RunSnoc(s: Replica, steps: seq<Step>, step: Step)
    requires CanRun(s, steps) && Enabled(After(s, steps), step)
    ensures CanRun(s, steps + [step]) && After(s, steps + [step]) == Apply(After(s, steps), step)
  {
    RunOne(After(s, steps), step, []);
    assert [step] + [] == [step];
    RunConcat(s, steps, [step]);
  }

  // ---------------------------------------------------------------- the saved offset

  /** A checkpoint write, even one cut short, never makes the file claim more than `offset`. */
  lemma SavedIsSmaller(offset: nat, disk: string, write: Write)
    ensures Readback(Saved(offset, disk, write)) <= offset || Saved(offset, disk, write) == disk
  {
    var text := Decimal.Print(offset);
    Decimal.ParsePrint(offset, Decimal.U64_MAX);
    if write.Cut? && write.k <= |text| {
      Decimal.PrefixIsSmaller(text, write.k);
      if write.k > 0 {
        assert Decimal.IsDigit(text[..write.k][0]);
      }
    }
  }

  /** A file that is not ahead of memory gets ahead exactly by a restart that cannot read it, if it names any
      progress at all. */
  lemma CheckpointAheadIff(s: Replica, step: Step)
    requires Readback(s.disk) <= s.offset && Enabled(s, step)
    ensures Readback(Apply(s, step).disk) > Apply(s, step).offset <==>
            step == Restart(false) && Readback(s.disk) > 0
  {
    if step.Ack? {
      SavedIsSmaller(s.offset + |s.phase.reader.events|, s.disk, step.write);
    }
  }

  /** No restart fails to read a checkpoint file that names any progress. */
  predicate Readable(s: Replica, steps: seq<Step>)
    requires CanRun(s, steps)
    decreases |steps|
  {
    steps == [] || (!(steps[0] == Restart(false) && Readback(s.disk) > 0) && Readable(Apply(s, steps[0]), steps[1..]))
  }

  predicate NeverAhead(s: Replica, steps: seq<Step>)
    requires CanRun(s, steps)
    decreases |steps|
  {
    Readback(s.disk) <= s.offset && (steps == [] || NeverAhead(Apply(s, steps[0]), steps[1..]))
  }

  /** Over a whole run: the file is never ahead of memory if and only if no restart fails to read it. */
  lemma {:induction false} CheckpointNeverAhead(s: Replica, steps: seq<Step>)
    requires Readback(s.disk) <= s.offset && CanRun(s, steps)
    ensures NeverAhead(s, steps) <==> Readable(s, steps)
    decreases |steps|
  {
    if steps != [] {
      CheckpointAheadIff(s, steps[0]);
      if !(steps[0] == Restart(false) && Readback(s.disk) > 0) {
        CheckpointNeverAhead(Apply(s, steps[0]), steps[1..]);
      }
    }
  }

  /** Such a run: one event is uploaded, the checkpoint is written, and a restart cannot read it. */
  lemma CheckpointAheadIsReachable(s: Replica, id: EventId) returns (steps: seq<Step>)
    requires Init(s) && s.lines == [] && s.tail == s.codec.render(id)
    ensures CanRun(s, steps)
    ensures var s' := After(s, steps); s'.offset == 0 && Readback(s'.disk) == 1
  {
    assert Prints(s.codec, id);
    var s2 := Apply(Apply(s, Begin), Read);
    assert s.tail[0..] == s.tail;
    assert s2.phase.reader.events == [Event(id, s.tail)];
    var s3 := Apply(s2, Finish);
    var s4 := Apply(s3, Ack(Complete));
    Decimal.ParsePrint(1, Decimal.U64_MAX);
    RunOne(s4, Restart(false), []);
    RunOne(s3, Ack(Complete), [Restart(false)] + []);
    RunOne(s2, Finish, [Ack(Complete)] + ([Restart(false)] + []));
    steps := [Finish] + ([Ack(Complete)] + ([Restart(false)] + []));
    RunOne(Apply(s, Begin), Read, steps);
    RunOne(s, Begin, [Read] + steps);
    steps := [Begin] + ([Read] + steps);
  }

  /** After a complete checkpoint write, a restart that can read the file resumes exactly where it was. */
  lemma RestartResumes(s: Replica)
    requires s.phase.Sending? && s.offset + |s.phase.reader.events| <= Decimal.U64_MAX
    ensures var s' := Apply(s, Ack(Complete));
      Apply(s', Restart(true)).offset == s'.offset == s.offset + |s.phase.reader.events|
  {
    Decimal.ParsePrint(s.offset + |s.phase.reader.events|, Decimal.U64_MAX);
  }
}
