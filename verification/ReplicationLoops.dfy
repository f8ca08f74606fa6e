/** The two loops of the replicator, on a file nobody is writing to, as runs of the state machine. */
module ReplicationLoops {
  import opened Wrappers
  import opened Replication

  // ---------------------------------------------------------------- the scanning loop

  predicate OnlyReads(steps: seq<Step>) {
    forall i :: 0 <= i < |steps| ==> steps[i] == Read
  }

  lemma ReadOnce(s: Replica, steps: seq<Step>, r: Reader) returns (steps': seq<Step>)
    requires CanRun(s, steps) && OnlyReads(steps) && After(s, steps) == s.(phase := Scanning(r))
    requires |r.events| < BATCH_SIZE && InFile(s, r) && !AtEnd(s, r)
    ensures CanRun(s, steps') && OnlyReads(steps') && After(s, steps') == s.(phase := Scanning(ReadNext(s, r)))
  {
    var now := s.(phase := Scanning(r));
    assert Text(now, r.at) == Text(s, r.at) && ReadNext(now, r) == ReadNext(s, r);
    RunSnoc(s, steps, Read);
    steps' := steps + [Read];
  }

  /** The lines of the file, a last one without a newline included. */
  function AllLines(lines: seq<string>, tail: string): seq<string> {
    if tail == "" then lines else lines + [tail]
  }

  /** Line `j` is the first from `offset` on to hold its event. */
  predicate FirstOccurrence(codec: Codec, texts: seq<string>, offset: nat, j: nat) {
    && offset <= j < |texts| && codec.parse(texts[j]).Some?
    && forall i :: offset <= i < j ==> codec.parse(texts[i]) != codec.parse(texts[j])
  }

  /** `events` are the first occurrences at `positions`, and these are all of them below `n`, in order. */
  ghost predicate Harvested(codec: Codec, texts: seq<string>, offset: nat, n: nat, events: seq<Event>,
                            positions: seq<nat>) {
    && |positions| == |events|
    && (forall k :: 0 <= k < |events| ==>
          && positions[k] < n && FirstOccurrence(codec, texts, offset, positions[k])
          && events[k] == Event(codec.parse(texts[positions[k]]).value, texts[positions[k]]))
    && (forall k, l :: 0 <= k < l < |events| ==> positions[k] < positions[l])
    && (forall j :: 0 <= j < n && FirstOccurrence(codec, texts, offset, j) ==> j in positions)
  }

  /** What has been seen decides whether the next line is a first occurrence. */
  lemma SeenDecides(codec: Codec, texts: seq<string>, offset: nat, n: nat, seen: set<EventId>)
    requires n < |texts| && offset <= n
    requires forall id :: id in seen <==> exists i :: offset <= i < n && codec.parse(texts[i]) == Some(id)
    ensures FirstOccurrence(codec, texts, offset, n) <==>
            codec.parse(texts[n]).Some? && codec.parse(texts[n]).value !in seen
  {
  }

  lemma SeenGrows(codec: Codec, texts: seq<string>, offset: nat, n: nat, seen: set<EventId>, seen': set<EventId>)
    requires n < |texts|
    requires forall id :: id in seen <==> exists i :: offset <= i < n && codec.parse(texts[i]) == Some(id)
    requires seen' == seen + if offset <= n && codec.parse(texts[n]).Some? then {codec.parse(texts[n]).value} else {}
    ensures forall id :: id in seen' <==> exists i :: offset <= i < n + 1 && codec.parse(texts[i]) == Some(id)
  {
  }

  lemma HarvestGrows(codec: Codec, texts: seq<string>, offset: nat, n: nat, events: seq<Event>, positions: seq<nat>)
    requires n < |texts| && Harvested(codec, texts, offset, n, events, positions)
    ensures if FirstOccurrence(codec, texts, offset, n)
            then Harvested(codec, texts, offset, n + 1,
                           events + [Event(codec.parse(texts[n]).value, texts[n])], positions + [n])
            else Harvested(codec, texts, offset, n + 1, events, positions)
  {
    assert forall j :: j in positions ==> j in positions + [n];
    assert n in positions + [n];
  }

  /** The reader has returned the first `r.idx` lines, and collected the first occurrences among them. */
  ghost predicate Collecting(s: Replica, texts: seq<string>, r: Reader, positions: seq<nat>) {
    && texts == AllLines(s.lines, s.tail) && r.idx <= |texts|
    && r.at == (if r.idx <= |s.lines| then r.idx else |s.lines|)
    && r.col == (if r.idx <= |s.lines| then 0 else |s.tail|)
    && Harvested(s.codec, texts, s.offset, r.idx, r.events, positions)
    && (forall id :: id in r.seen <==> exists i :: s.offset <= i < r.idx && s.codec.parse(texts[i]) == Some(id))
  }

  /** What one read makes of the next line. */
  lemma ReadsLine(s: Replica, texts: seq<string>, r: Reader, positions: seq<nat>)
    requires Collecting(s, texts, r, positions) && r.idx < |texts|
    ensures InFile(s, r) && !AtEnd(s, r)
    ensures var r', parsed := ReadNext(s, r), s.codec.parse(texts[r.idx]);
      && r'.idx == r.idx + 1
      && r'.at == (if r'.idx <= |s.lines| then r'.idx else |s.lines|)
      && r'.col == (if r'.idx <= |s.lines| then 0 else |s.tail|)
      && (if s.offset <= r.idx && parsed.Some? && parsed.value !in r.seen
          then r'.events == r.events + [Event(parsed.value, texts[r.idx])] && r'.seen == r.seen + {parsed.value}
          else r'.events == r.events && r'.seen == r.seen)
  {
    assert Text(s, r.at)[0..] == texts[r.idx];
  }

  lemma CollectsLine(s: Replica, texts: seq<string>, r: Reader, positions: seq<nat>) returns (positions': seq<nat>)
    requires Collecting(s, texts, r, positions) && r.idx < |texts|
    ensures InFile(s, r) && !AtEnd(s, r) && Collecting(s, texts, ReadNext(s, r), positions')
  {
    ReadsLine(s, texts, r, positions);
    HarvestGrows(s.codec, texts, s.offset, r.idx, r.events, positions);
    if s.offset <= r.idx {
      SeenDecides(s.codec, texts, s.offset, r.idx, r.seen);
    }
    SeenGrows(s.codec, texts, s.offset, r.idx, r.seen, ReadNext(s, r).seen);
    positions' := if FirstOccurrence(s.codec, texts, s.offset, r.idx) then positions + [r.idx] else positions;
  }

  /** The scanning loop collects what reading step by step collects, up to the end of the file or a full batch: from
      the offset on, the first occurrence of each event, in order, up to a thousand of them.  `n` is how many lines
      were looked at. */
  method CollectBatch(codec: Codec, lines: seq<string>, tail: string, offset: nat, ghost s: Replica)
      returns (events: seq<Event>, ghost steps: seq<Step>, ghost positions: seq<nat>, ghost n: nat)
    requires s.codec == codec && s.lines == lines && s.tail == tail && s.offset == offset
    requires s.phase == Scanning(EMPTY_READER)
    ensures CanRun(s, steps) && OnlyReads(steps) && Enabled(After(s, steps), Finish)
    ensures After(s, steps).phase.reader.events == events
    ensures Harvested(codec, AllLines(lines, tail), offset, n, events, positions)
    ensures |events| <= 1000 && n <= |AllLines(lines, tail)| && (|events| < 1000 ==> n == |AllLines(lines, tail)|)
  {
    var texts := AllLines(lines, tail);
    events, steps, positions, n := [], [], [], 0;
    var seen: set<EventId> := {};
    var idx := 0;
    ghost var r := EMPTY_READER;
    while idx < |texts|
      invariant CanRun(s, steps) && OnlyReads(steps) && After(s, steps) == s.(phase := Scanning(r))
      invariant Collecting(s, texts, r, positions) && |events| < BATCH_SIZE
      invariant n == r.idx == idx && r.events == events && r.seen == seen
    {
      ReadsLine(s, texts, r, positions);
      steps := ReadOnce(s, steps, r);
      positions := CollectsLine(s, texts, r, positions);
      r := ReadNext(s, r);
      n := r.idx;
      if idx >= offset {
        var parsed := codec.parse(texts[idx]);
        if parsed.Some? && parsed.value !in seen {
          seen := seen + {parsed.value};
          events := events + [Event(parsed.value, texts[idx])];
          if |events| >= BATCH_SIZE {
            break;
          }
        }
      }
      idx := idx + 1;
    }
  }

  // ---------------------------------------------------------------- the upload loop

  /** The run so far ended the scan and made `retries` attempts, all failed. */
  ghost predicate Attempted(s: Replica, steps: seq<Step>, retries: nat, backoff: nat)
    requires s.phase.Scanning?
  {
    && CanRun(s, steps) && After(s, steps).phase == Sending(s.phase.reader, retries)
    && After(s, steps).offset == s.offset && After(s, steps).disk == s.disk && After(s, steps).backoff == backoff
  }

  ghost predicate Concluded(s: Replica, steps: seq<Step>, offset: nat, disk: string, backoff: nat) {
    && CanRun(s, steps) && After(s, steps).phase.Idle?
    && After(s, steps).offset == offset && After(s, steps).disk == disk && After(s, steps).backoff == backoff
  }

  lemma FailOnce(s: Replica, steps: seq<Step>, retries: nat, backoff: nat, arrived: seq<Event>)
    requires s.phase.Scanning? && Attempted(s, steps, retries, backoff) && retries <= MAX_RETRIES
    requires forall e :: e in arrived ==> e in s.phase.reader.events
    ensures if retries < MAX_RETRIES then Attempted(s, steps + [Fail(arrived)], retries + 1, backoff * 2 % WORD)
            else Concluded(s, steps + [Fail(arrived)], s.offset, s.disk, backoff)
  {
    RunSnoc(s, steps, Fail(arrived));
  }

  lemma SucceedOnce(s: Replica, steps: seq<Step>, retries: nat, backoff: nat, write: Write)
    requires s.phase.Scanning? && Attempted(s, steps, retries, backoff)
    ensures var offset := s.offset + |s.phase.reader.events|;
      Concluded(s, steps + [Ack(write)], offset, Saved(offset, s.disk, write), BACKOFF_START)
  {
    RunSnoc(s, steps, Ack(write));
  }

  predicate FailsWithin(fails: seq<Step>, batch: seq<Event>) {
    forall k :: 0 <= k < |fails| ==> fails[k].Fail? && forall e :: e in fails[k].arrived ==> e in batch
  }

  lemma {:induction false} FailsRun(s: Replica, fails: seq<Step>)
    requires s.phase.Sending? && s.phase.retries <= MAX_RETRIES && FailsWithin(fails, s.phase.reader.events)
    ensures CanRun(s, fails) <==> |fails| + s.phase.retries <= MAX_RETRIES + 1
    ensures CanRun(s, fails) ==>
              var s' := After(s, fails);
              s'.offset == s.offset && s'.disk == s.disk &&
              s'.phase == if |fails| + s.phase.retries <= MAX_RETRIES
                          then s.phase.(retries := s.phase.retries + |fails|) else Idle
    decreases |fails|
  {
    if fails != [] {
      assert fails[0].Fail? && Enabled(s, fails[0]);
      var s' := Apply(s, fails[0]);
      if s'.phase.Sending? {
        FailsRun(s', fails[1..]);
      } else if |fails| > 1 {
        assert fails[1..][0] == fails[1] && fails[1].Fail? && !Enabled(s', fails[1]);
      }
    }
  }

  /** A batch is attempted six times and no more: after the scan, up to six failures are possible, five of them are
      retried, and the sixth gives up without moving the offset or the checkpoint. */
  lemma SixAttempts(s: Replica, fails: seq<Step>)
    requires s.phase.Scanning? && Enabled(s, Finish) && s.phase.reader.events != []
    requires FailsWithin(fails, s.phase.reader.events)
    ensures CanRun(s, [Finish] + fails) <==> |fails| <= 6
    ensures |fails| <= 6 ==>
              var s' := After(s, [Finish] + fails);
              (s'.phase.Idle? <==> |fails| == 6) && s'.offset == s.offset && s'.disk == s.disk
  {
    FailsRun(Apply(s, Finish), fails);
    assert ([Finish] + fails)[1..] == fails;
  }

  /** The delay after so many doublings in 64 bits. */
  function Doubled(backoff: nat, times: nat): nat {
    if times == 0 then backoff else Doubled(backoff, times - 1) * 2 % WORD
  }

  /** The upload loop is a run that ends the scan and makes at most six attempts, stopping at the first that succeeds.
      `uploads(k)` says whether attempt `k` succeeds, `arrived(k)` what a failed one left behind. */
  method UploadWithRetries(offset: nat, batch: seq<Event>, disk: string, backoff: nat, uploads: nat -> bool,
                           write: Write, ghost s: Replica, ghost arrived: nat -> seq<Event>)
      returns (reached: nat, saved: string, delay: nat, ghost steps: seq<Step>)
    requires s.phase.Scanning? && Enabled(s, Finish) && s.phase.reader.events == batch != []
    requires s.offset == offset && s.disk == disk && s.backoff == backoff
    requires forall k, e :: e in arrived(k) ==> e in batch
    ensures 2 <= |steps| <= 7 && steps[0] == Finish
    ensures forall k :: 0 <= k < |steps| - 1 ==> steps[k + 1] == if uploads(k) then Ack(write) else Fail(arrived(k))
    ensures forall k :: 0 <= k < |steps| - 2 ==> !uploads(k)
    ensures Concluded(s, steps, reached, saved, delay)
    ensures uploads(|steps| - 2) || |steps| == 7
    ensures if uploads(|steps| - 2)
            then reached == offset + |batch| && saved == Saved(reached, disk, write) && delay == 1000
            else reached == offset && saved == disk && delay == Doubled(backoff, 5)
  {
    reached, saved, delay := offset, disk, backoff;
    RunOne(s, Finish, []);
    steps := [Finish] + [];
    var retryCount := 0;
    while true
      invariant |steps| == retryCount + 1 <= MAX_RETRIES + 1 && steps[0] == Finish
      invariant Attempted(s, steps, retryCount, delay) && reached == offset && saved == disk
      invariant delay == Doubled(backoff, retryCount)
      invariant forall k :: 0 <= k < retryCount ==> !uploads(k) && steps[k + 1] == Fail(arrived(k))
      decreases MAX_RETRIES - retryCount
    {
      if uploads(retryCount) {
        SucceedOnce(s, steps, retryCount, delay, write);
        steps := steps + [Ack(write)];
        reached := offset + |batch|;
        saved := Saved(reached, disk, write);
        delay := BACKOFF_START;
        return;
      }
      FailOnce(s, steps, retryCount, delay, arrived(retryCount));
      steps := steps + [Fail(arrived(retryCount))];
      if retryCount == MAX_RETRIES {
        return;
      }
      retryCount := retryCount + 1;
      delay := delay * 2 % WORD;
    }
  }
}
