/**
 The two local audit logs: a bounded list in memory, and a file of JSON lines that is read as a stream.
 */
module AuditBackends {
  import opened Wrappers
  import opened AuditModel

  /** A line of the file: empty, a serialized event, or text that does not deserialize. */
  datatype Line = Blank | Record(event: AuditEvent) | Corrupt

  datatype QueryError = Corrupted | TooManyResults | TooManyScanned

  // ---------------------------------------------------------------- what a query means

  function Matching(events: seq<AuditEvent>, f: Filter): seq<AuditEvent> {
    if events == [] then [] else
    var last := events[|events| - 1];
    var front := Matching(events[..|events| - 1], f);
    if Matches(f, last) then front + [last] else front
  }

  function Skip(events: seq<AuditEvent>, offset: Option<nat>): seq<AuditEvent> {
    if offset.None? then events else if offset.value <= |events| then events[offset.value..] else []
  }

  function Truncate(events: seq<AuditEvent>, limit: Option<nat>): seq<AuditEvent> {
    if limit.None? || |events| <= limit.value then events else events[..limit.value]
  }

  /** Drop `offset` events, then keep at most `limit`. */
  function Page(events: seq<AuditEvent>, f: Filter): seq<AuditEvent> {
    Truncate(Skip(events, f.offset), f.limit)
  }

  function Events(lines: seq<Line>): seq<AuditEvent> {
    if lines == [] then [] else
    var last := lines[|lines| - 1];
    var front := Events(lines[..|lines| - 1]);
    if last.Record? then front + [last.event] else front
  }

  function Since(events: seq<AuditEvent>, timestamp: nat): seq<AuditEvent> {
    if events == [] then [] else
    var last := events[|events| - 1];
    var front := Since(events[..|events| - 1], timestamp);
    if last.timestamp >= timestamp then front + [last] else front
  }

  lemma {:induction false} EventsConcat(a: seq<Line>, b: seq<Line>)
    ensures Events(a + b) == Events(a) + Events(b)
    decreases |b|
  {
    if b == [] {
      assert a + b == a;
    } else {
      assert (a + b)[..|a + b| - 1] == a + b[..|b| - 1];
      EventsConcat(a, b[..|b| - 1]);
    }
  }

  lemma {:induction false} MatchingConcat(a: seq<AuditEvent>, b: seq<AuditEvent>, f: Filter)
    ensures Matching(a + b, f) == Matching(a, f) + Matching(b, f)
    decreases |b|
  {
    if b == [] {
      assert a + b == a;
    } else {
      assert (a + b)[..|a + b| - 1] == a + b[..|b| - 1];
      MatchingConcat(a, b[..|b| - 1], f);
    }
  }

  lemma {:induction false} SinceConcat(a: seq<AuditEvent>, b: seq<AuditEvent>, timestamp: nat)
    ensures Since(a + b, timestamp) == Since(a, timestamp) + Since(b, timestamp)
    decreases |b|
  {
    if b == [] {
      assert a + b == a;
    } else {
      assert (a + b)[..|a + b| - 1] == a + b[..|b| - 1];
      SinceConcat(a, b[..|b| - 1], timestamp);
    }
  }

  lemma {:induction false} MatchingIsShorter(events: seq<AuditEvent>, f: Filter)
    ensures |Matching(events, f)| <= |events|
    decreases |events|
  {
    if events != [] {
      MatchingIsShorter(events[..|events| - 1], f);
    }
  }

  /** Once `offset + limit` events are at hand, later ones cannot change the page. */
  lemma PageIsSettled(known: seq<AuditEvent>, later: seq<AuditEvent>, f: Filter)
    requires f.limit.Some? && |known| >= f.limit.value + f.offset.GetOr(0)
    ensures Page(known + later, f) == Page(known, f)
  {
    var o := f.offset.GetOr(0);
    assert (known + later)[o..] == known[o..] + later;
    assert Skip(known + later, f.offset) == Skip(known, f.offset) + later;
  }

  /** Filtering keeps every matching event as often as it occurs, and nothing else. */
  lemma {:induction false} MatchingMeans(events: seq<AuditEvent>, f: Filter, e: AuditEvent)
    ensures multiset(Matching(events, f))[e] == if Matches(f, e) then multiset(events)[e] else 0
    decreases |events|
  {
    if events != [] {
      MatchingMeans(events[..|events| - 1], f, e);
      assert events == events[..|events| - 1] + [events[|events| - 1]];
    }
  }

  /** So does a purge, with the events that are recent enough. */
  lemma {:induction false} SinceMeans(events: seq<AuditEvent>, timestamp: nat, e: AuditEvent)
    ensures multiset(Since(events, timestamp))[e] == if e.timestamp >= timestamp then multiset(events)[e] else 0
    decreases |events|
  {
    if events != [] {
      SinceMeans(events[..|events| - 1], timestamp, e);
      assert events == events[..|events| - 1] + [events[|events| - 1]];
    }
  }

  /** The i-th event of a page is the (offset + i)-th, and the page ends at the limit or with the events. */
  lemma PageMeans(events: seq<AuditEvent>, f: Filter)
    ensures var o, page := f.offset.GetOr(0), Page(events, f);
      && (forall i :: 0 <= i < |page| ==> o + i < |events| && page[i] == events[o + i])
      && (f.limit.Some? ==> |page| <= f.limit.value)
      && (o + |page| < |events| ==> f.limit == Some(|page|))
  {
  }

  // ---------------------------------------------------------------- the streaming read

  /** The read loop from line `i` on: `results` matched so far, `count` lines charged against the scan limit. */
  function ReadFrom(lines: seq<Line>, i: nat, results: seq<AuditEvent>, count: nat, max: nat, f: Filter)
      : Result<seq<AuditEvent>, QueryError>
    requires i <= |lines|
    decreases |lines| - i
  {
    if i == |lines| then Ok(Page(results, f)) else
    match lines[i]
    case Blank => ReadFrom(lines, i + 1, results, count, max, f)
    case Corrupt => Err(Corrupted)
    case Record(e) =>
      if !Matches(f, e) then
        if count + 1 > max * 2 then Err(TooManyScanned) else ReadFrom(lines, i + 1, results, count + 1, max, f)
      else
        var results' := results + [e];
        if f.offset.Some? && |results| < f.offset.value then ReadFrom(lines, i + 1, results', count, max, f)
        else if f.limit.Some? && |results'| >= f.limit.value + f.offset.GetOr(0) then Ok(Page(results', f))
        else if |results'| > max then Err(TooManyResults)
        else if count + 1 > max * 2 then Err(TooManyScanned)
        else ReadFrom(lines, i + 1, results', count + 1, max, f)
  }

  lemma Advance(lines: seq<Line>, i: nat, f: Filter)
    requires i < |lines|
    ensures var found := Matching(Events(lines[..i]), f);
            Matching(Events(lines[..i + 1]), f)
            == if lines[i].Record? && Matches(f, lines[i].event) then found + [lines[i].event] else found
    ensures |Events(lines[..i + 1])| == |Events(lines[..i])| + if lines[i].Record? then 1 else 0
  {
    assert lines[..i + 1][..i] == lines[..i];
    if lines[i].Record? {
      var events := Events(lines[..i]) + [lines[i].event];
      assert events[..|events| - 1] == Events(lines[..i]);
    }
  }

  /** A read may stop once it has `offset + limit` matches. */
  lemma PageIsComplete(lines: seq<Line>, n: nat, results: seq<AuditEvent>, f: Filter)
    requires n <= |lines| && results == Matching(Events(lines[..n]), f)
    requires f.limit.Some? && |results| >= f.limit.value + f.offset.GetOr(0)
    ensures Page(results, f) == Page(Matching(Events(lines), f), f)
  {
    var rest := lines[n..];
    assert lines == lines[..n] + rest;
    EventsConcat(lines[..n], rest);
    MatchingConcat(Events(lines[..n]), Events(rest), f);
    PageIsSettled(results, Matching(Events(rest), f), f);
  }

  /** Whatever a read returns is the page of all matching events, in file order. */
  lemma {:induction false} ReadIsPage(lines: seq<Line>, i: nat, results: seq<AuditEvent>, count: nat, max: nat,
                                      f: Filter)
    requires i <= |lines| && results == Matching(Events(lines[..i]), f)
    ensures var r := ReadFrom(lines, i, results, count, max, f);
      r.Ok? ==> r.value == Page(Matching(Events(lines), f), f)
    decreases |lines| - i, 1
  {
    if i == |lines| {
      assert lines[..i] == lines;
    } else {
      Advance(lines, i, f);
      match lines[i]
      case Blank => ReadIsPage(lines, i + 1, results, count, max, f);
      case Corrupt =>
      case Record(e) =>
        if Matches(f, e) {
          MatchIsPaged(lines, i, results, count, max, f, e);
        } else {
          ReadIsPage(lines, i + 1, results, count + 1, max, f);
        }
    }
  }

  lemma {:induction false} MatchIsPaged(lines: seq<Line>, i: nat, results: seq<AuditEvent>, count: nat, max: nat,
                                        f: Filter, e: AuditEvent)
    requires i < |lines| && lines[i] == Record(e) && Matches(f, e)
    requires results + [e] == Matching(Events(lines[..i + 1]), f)
    ensures var r := ReadFrom(lines, i, results, count, max, f);
      r.Ok? ==> r.value == Page(Matching(Events(lines), f), f)
    decreases |lines| - i, 0
  {
    if f.offset.Some? && |results| < f.offset.value {
      ReadIsPage(lines, i + 1, results + [e], count, max, f);
    } else if f.limit.Some? && |results + [e]| >= f.limit.value + f.offset.GetOr(0) {
      PageIsComplete(lines, i + 1, results + [e], f);
    } else {
      ReadIsPage(lines, i + 1, results + [e], count + 1, max, f);
    }
  }

  predicate Intact(lines: seq<Line>) {
    forall i :: 0 <= i < |lines| ==> !lines[i].Corrupt?
  }

  lemma PrefixesAreShorter(lines: seq<Line>, i: nat, f: Filter)
    requires i <= |lines|
    ensures |Events(lines[..i])| <= |Events(lines)|
    ensures |Matching(Events(lines[..i]), f)| <= |Matching(Events(lines), f)|
  {
    assert lines == lines[..i] + lines[i..];
    EventsConcat(lines[..i], lines[i..]);
    MatchingConcat(Events(lines[..i]), Events(lines[i..]), f);
  }

  lemma AdvanceCounts(lines: seq<Line>, i: nat, f: Filter)
    requires i < |lines|
    ensures |Matching(Events(lines[..i + 1]), f)|
            == |Matching(Events(lines[..i]), f)| + if lines[i].Record? && Matches(f, lines[i].event) then 1 else 0
    ensures |Events(lines[..i + 1])| == |Events(lines[..i])| + if lines[i].Record? then 1 else 0
  {
    Advance(lines, i, f);
  }

  /** A read fails only on a line that does not deserialize, or on a log that exceeds one of the limits. */
  lemma {:induction false} ReadFails(lines: seq<Line>, i: nat, results: seq<AuditEvent>, count: nat, max: nat,
                                     f: Filter)
    requires i <= |lines| && |results| <= |Matching(Events(lines[..i]), f)| && count <= |Events(lines[..i])|
    ensures var r := ReadFrom(lines, i, results, count, max, f);
      r.Err? ==> match r.error
                 case Corrupted => !Intact(lines)
                 case TooManyResults => |Matching(Events(lines), f)| > max
                 case TooManyScanned => |Events(lines)| > 2 * max
    decreases |lines| - i
  {
    if i < |lines| {
      AdvanceCounts(lines, i, f);
      PrefixesAreShorter(lines, i + 1, f);
      match lines[i]
      case Blank => ReadFails(lines, i + 1, results, count, max, f);
      case Corrupt =>
      case Record(e) =>
        if !Matches(f, e) {
          ReadFails(lines, i + 1, results, count + 1, max, f);
        } else if f.offset.Some? && |results| < f.offset.value {
          ReadFails(lines, i + 1, results + [e], count, max, f);
        } else {
          ReadFails(lines, i + 1, results + [e], count + 1, max, f);
        }
    }
  }

  /** So an intact log with no more than `max` events is always read, and read correctly. */
  lemma SmallLogIsRead(lines: seq<Line>, max: nat, f: Filter)
    requires Intact(lines) && |Events(lines)| <= max
    ensures ReadFrom(lines, 0, [], 0, max, f) == Ok(Page(Matching(Events(lines), f), f))
  {
    assert lines[..0] == [];
    ReadIsPage(lines, 0, [], 0, max, f);
    ReadFails(lines, 0, [], 0, max, f);
    MatchingIsShorter(Events(lines), f);
  }

  /** The number of matches at which a limited read stops. */
  function Goal(f: Filter): nat
    requires f.limit.Some?
  {
    f.offset.GetOr(0) + if f.limit.value == 0 then 1 else f.limit.value
  }

  /** The matches among the first `n` lines. */
  function Hits(lines: seq<Line>, n: nat, f: Filter): nat
    requires n <= |lines|
  {
    |Matching(Events(lines[..n]), f)|
  }

  function Min(a: nat, b: nat): nat {
    if a < b then a else b
  }

  /** The events among the first `n` lines that count against the scan limit: all but the matches skipped by the
      offset. */
  function Charged(lines: seq<Line>, n: nat, f: Filter): int
    requires n <= |lines|
  {
    |Events(lines[..n])| - Min(f.offset.GetOr(0), Hits(lines, n, f))
  }

  /** The first `n` lines deserialize and stay within both limits; matches skipped by the offset are free. */
  predicate Fits(lines: seq<Line>, n: nat, max: nat, f: Filter)
    requires n <= |lines|
  {
    && Intact(lines[..n])
    && (Hits(lines, n, f) <= f.offset.GetOr(0) || Hits(lines, n, f) <= max)
    && Charged(lines, n, f) <= 2 * max
  }

  predicate Reached(lines: seq<Line>, n: nat, f: Filter)
    requires n <= |lines|
  {
    f.limit.Some? && Hits(lines, n, f) >= Goal(f)
  }

  /** From line `i` on, the line with the match that completes the page, or the end of the file. */
  function StopAt(lines: seq<Line>, i: nat, f: Filter): (k: nat)
    requires i <= |lines|
    ensures i <= k <= |lines|
    decreases |lines| - i
  {
    if i == |lines| || Reached(lines, i + 1, f) then i else StopAt(lines, i + 1, f)
  }

  /** Reading on never makes a log fit that did not fit before. */
  lemma FitsLess(lines: seq<Line>, i: nat, n: nat, max: nat, f: Filter)
    requires i <= n <= |lines| && Fits(lines, n, max, f)
    ensures Fits(lines, i, max, f)
  {
    var a, b := lines[..i], lines[i..n];
    assert lines[..n] == a + b;
    assert forall k :: 0 <= k < i ==> lines[..i][k] == lines[..n][k];
    EventsConcat(a, b);
    MatchingConcat(Events(a), Events(b), f);
    MatchingIsShorter(Events(b), f);
  }

  lemma IntactStep(lines: seq<Line>, i: nat)
    requires i < |lines|
    ensures Intact(lines[..i + 1]) <==> Intact(lines[..i]) && !lines[i].Corrupt?
  {
    assert lines[..i + 1] == lines[..i] + [lines[i]];
  }

  lemma {:induction false} ReadsIffFits(lines: seq<Line>, i: nat, results: seq<AuditEvent>, count: nat, max: nat,
                                        f: Filter)
    requires i <= |lines| && |results| == Hits(lines, i, f) && count == Charged(lines, i, f)
    requires Fits(lines, i, max, f) && !Reached(lines, i, f)
    ensures ReadFrom(lines, i, results, count, max, f).Ok? <==> Fits(lines, StopAt(lines, i, f), max, f)
    decreases |lines| - i, 1
  {
    if i < |lines| {
      AdvanceCounts(lines, i, f);
      IntactStep(lines, i);
      if !Reached(lines, i + 1, f) {
        if Fits(lines, i + 1, max, f) {
          ReadsOn(lines, i, results, count, max, f);
        } else if Fits(lines, StopAt(lines, i + 1, f), max, f) {
          FitsLess(lines, i + 1, StopAt(lines, i + 1, f), max, f);
        }
      }
    }
  }

  lemma {:induction false} ReadsOn(lines: seq<Line>, i: nat, results: seq<AuditEvent>, count: nat, max: nat, f: Filter)
    requires i < |lines| && |results| == Hits(lines, i, f) && count == Charged(lines, i, f)
    requires Fits(lines, i + 1, max, f) && !Reached(lines, i + 1, f) && !lines[i].Corrupt?
    ensures ReadFrom(lines, i, results, count, max, f).Ok? <==> Fits(lines, StopAt(lines, i + 1, f), max, f)
    decreases |lines| - i, 0
  {
    AdvanceCounts(lines, i, f);
    match lines[i]
    case Blank => ReadsIffFits(lines, i + 1, results, count, max, f);
    case Record(e) =>
      if !Matches(f, e) {
        ReadsIffFits(lines, i + 1, results, count + 1, max, f);
      } else if f.offset.Some? && |results| < f.offset.value {
        ReadsIffFits(lines, i + 1, results + [e], count, max, f);
      } else {
        ReadsIffFits(lines, i + 1, results + [e], count + 1, max, f);
      }
  }

  /** The exact condition, for every filter, limit and offset: a read succeeds if and only if the lines before the
      one that completes the page deserialize and stay within both limits. */
  lemma ReadIff(lines: seq<Line>, max: nat, f: Filter)
    ensures ReadFrom(lines, 0, [], 0, max, f).Ok? <==> Fits(lines, StopAt(lines, 0, f), max, f)
  {
    assert lines[..0] == [];
    ReadsIffFits(lines, 0, [], 0, max, f);
  }

  lemma {:induction false} NoLimitNoStop(lines: seq<Line>, i: nat, f: Filter)
    requires f.limit.None? && i <= |lines|
    ensures StopAt(lines, i, f) == |lines|
    decreases |lines| - i
  {
    if i < |lines| {
      NoLimitNoStop(lines, i + 1, f);
    }
  }

  /** Without paging: every line deserializes, at most `max` events match, and the log holds at most twice that many. */
  lemma UnpagedReadIff(lines: seq<Line>, max: nat, f: Filter)
    requires f.limit.None? && f.offset.None?
    ensures ReadFrom(lines, 0, [], 0, max, f).Ok? <==>
            Intact(lines) && |Matching(Events(lines), f)| <= max && |Events(lines)| <= 2 * max
  {
    ReadIff(lines, max, f);
    NoLimitNoStop(lines, 0, f);
    assert lines[..|lines|] == lines;
  }

  // ---------------------------------------------------------------- the backends

  class InMemoryAuditLog {
    var events: seq<AuditEvent>
    const maxEvents: nat

    constructor (maxEvents: nat)
      ensures events == [] && this.maxEvents == maxEvents
    {
      events, this.maxEvents := [], maxEvents;
    }

    method Write(e: AuditEvent)
      modifies this
      ensures events == Newest(old(events) + [e], maxEvents)
    {
      events := events + [e];
      if |events| > maxEvents {
        var removeCount := |events| - maxEvents;
        events := events[removeCount..];
      }
    }

    method Read(f: Filter) returns (r: seq<AuditEvent>)
      ensures r == Page(Matching(events, f), f)
    {
      r := [];
      for i := 0 to |events|
        invariant r == Matching(events[..i], f)
      {
        assert events[..i + 1][..i] == events[..i];
        if Matches(f, events[i]) {
          r := r + [events[i]];
        }
      }
      assert events[..|events|] == events;
      if f.offset.Some? {
        r := if f.offset.value < |r| then r[f.offset.value..] else [];
      }
      if f.limit.Some? && f.limit.value < |r| {
        r := r[..f.limit.value];
      }
    }

    method Count(f: Filter) returns (n: nat)
      ensures n == |Matching(events, f)|
    {
      n := 0;
      for i := 0 to |events|
        invariant n == |Matching(events[..i], f)|
      {
        assert events[..i + 1][..i] == events[..i];
        if Matches(f, events[i]) {
          n := n + 1;
        }
      }
      assert events[..|events|] == events;
    }

    method PurgeBefore(timestamp: nat) returns (n: nat)
      modifies this
      ensures events == Since(old(events), timestamp) && n == |old(events)| - |events|
    {
      var kept := [];
      for i := 0 to |events|
        invariant events == old(events) && |kept| <= i && kept == Since(events[..i], timestamp)
      {
        assert events[..i + 1][..i] == events[..i];
        if events[i].timestamp >= timestamp {
          kept := kept + [events[i]];
        }
      }
      assert events[..|events|] == events;
      n := |events| - |kept|;
      events := kept;
    }
  }

  function Newest(events: seq<AuditEvent>, n: nat): seq<AuditEvent> {
    if |events| <= n then events else events[|events| - n..]
  }

  function WriteAll(events: seq<AuditEvent>, written: seq<AuditEvent>, maxEvents: nat): seq<AuditEvent> {
    if written == [] then events else
    Newest(WriteAll(events, written[..|written| - 1], maxEvents) + [written[|written| - 1]], maxEvents)
  }

  lemma NewestStep(front: seq<AuditEvent>, last: AuditEvent, n: nat)
    ensures Newest(Newest(front, n) + [last], n) == Newest(front + [last], n)
  {
    if |front| > n {
      var k := |front| - n;
      assert (front[k..] + [last])[1..] == (front + [last])[k + 1..];
    }
  }

  lemma {:induction false} WriteAllIsNewest(written: seq<AuditEvent>, maxEvents: nat)
    ensures WriteAll([], written, maxEvents) == Newest(written, maxEvents)
    decreases |written|
  {
    if written != [] {
      var front, last := written[..|written| - 1], written[|written| - 1];
      WriteAllIsNewest(front, maxEvents);
      NewestStep(front, last, maxEvents);
      assert written == front + [last];
    }
  }

  /** After any number of writes the memory log is the end of what was written: all of it, or its last `maxEvents`. */
  lemma MemoryHoldsNewest(written: seq<AuditEvent>, maxEvents: nat)
    ensures var log := WriteAll([], written, maxEvents);
      && |log| == Min(|written|, maxEvents)
      && written == written[..|written| - |log|] + log
  {
    WriteAllIsNewest(written, maxEvents);
  }

  lemma {:induction false} SinceIsShorter(events: seq<AuditEvent>, timestamp: nat)
    ensures |Since(events, timestamp)| <= |events|
    decreases |events|
  {
    if events != [] {
      SinceIsShorter(events[..|events| - 1], timestamp);
    }
  }

  /** The file after a purge: the records kept, one per line. */
  function Kept(lines: seq<Line>, timestamp: nat): seq<Line> {
    if lines == [] then [] else
    var last := lines[|lines| - 1];
    var front := Kept(lines[..|lines| - 1], timestamp);
    if last.Record? && last.event.timestamp >= timestamp then front + [last] else front
  }

  lemma EventsSnoc(front: seq<Line>, last: Line)
    ensures Events(front + [last]) == if last.Record? then Events(front) + [last.event] else Events(front)
  {
    assert (front + [last])[..|front|] == front;
  }

  lemma SinceSnoc(front: seq<AuditEvent>, last: AuditEvent, timestamp: nat)
    ensures Since(front + [last], timestamp) ==
            if last.timestamp >= timestamp then Since(front, timestamp) + [last] else Since(front, timestamp)
  {
    assert (front + [last])[..|front|] == front;
  }

  lemma {:induction false} KeptEvents(lines: seq<Line>, timestamp: nat)
    ensures Events(Kept(lines, timestamp)) == Since(Events(lines), timestamp)
    ensures forall i :: 0 <= i < |Kept(lines, timestamp)| ==> Kept(lines, timestamp)[i].Record?
    ensures |Kept(lines, timestamp)| == |Events(Kept(lines, timestamp))|
    decreases |lines|
  {
    if lines != [] {
      var front, last := lines[..|lines| - 1], lines[|lines| - 1];
      KeptEvents(front, timestamp);
      EventsSnoc(Kept(front, timestamp), last);
      if last.Record? {
        SinceSnoc(Events(front), last.event, timestamp);
      }
    }
  }

  class FileAuditLog {
    var lines: seq<Line>
    const maxMemoryLines: nat

    constructor (maxMemoryLines: nat)
      ensures lines == [] && this.maxMemoryLines == maxMemoryLines
    {
      lines, this.maxMemoryLines := [], maxMemoryLines;
    }

    method Write(e: AuditEvent)
      modifies this
      ensures lines == old(lines) + [Record(e)]
    {
      lines := lines + [Record(e)];
    }

    method Read(f: Filter) returns (r: Result<seq<AuditEvent>, QueryError>)
      ensures r == ReadFrom(lines, 0, [], 0, maxMemoryLines, f)
      ensures r.Ok? ==> r.value == Page(Matching(Events(lines), f), f)
    {
      assert lines[..0] == [];
      ReadIsPage(lines, 0, [], 0, maxMemoryLines, f);
      var results: seq<AuditEvent> := [];
      var count, i := 0, 0;
      while i < |lines|
        invariant 0 <= i <= |lines|
        invariant ReadFrom(lines, 0, [], 0, maxMemoryLines, f) == ReadFrom(lines, i, results, count, maxMemoryLines, f)
      {
        var line := lines[i];
        i := i + 1;
        if line.Blank? {
          continue;
        }
        if line.Corrupt? {
          return Err(Corrupted);
        }
        if Matches(f, line.event) {
          if f.offset.Some? && |results| < f.offset.value {
            results := results + [line.event];
            continue;
          }
          results := results + [line.event];
          if f.limit.Some? && |results| >= f.limit.value + f.offset.GetOr(0) {
            return Ok(Page(results, f));
          }
          if |results| > maxMemoryLines {
            return Err(TooManyResults);
          }
        }
        count := count + 1;
        if count > maxMemoryLines * 2 {
          return Err(TooManyScanned);
        }
      }
      return Ok(Page(results, f));
    }

    method Count(f: Filter) returns (r: Result<nat, QueryError>)
      ensures r.Ok? <==> Intact(lines) && |Events(lines)| <= maxMemoryLines * 10
      ensures r.Ok? ==> r.value == |Matching(Events(lines), f)|
    {
      var count, scanned := 0, 0;
      for i := 0 to |lines|
        invariant Intact(lines[..i]) && scanned == |Events(lines[..i])| <= maxMemoryLines * 10
        invariant count == |Matching(Events(lines[..i]), f)|
      {
        AdvanceCounts(lines, i, f);
        if lines[i].Blank? {
          continue;
        }
        if lines[i].Corrupt? {
          return Err(Corrupted);
        }
        if Matches(f, lines[i].event) {
          count := count + 1;
        }
        scanned := scanned + 1;
        if scanned > maxMemoryLines * 10 {
          PrefixesAreShorter(lines, i + 1, f);
          return Err(TooManyScanned);
        }
      }
      assert lines[..|lines|] == lines;
      return Ok(count);
    }

    method PurgeBefore(timestamp: nat) returns (r: Result<nat, QueryError>)
      modifies this
      ensures r.Ok? <==> Intact(old(lines))
      ensures r.Ok? ==> lines == Kept(old(lines), timestamp) && r.value == |Events(old(lines))| - |Events(lines)|
      ensures r.Err? ==> lines == old(lines)
    {
      var remaining: seq<Line> := [];
      var purged := 0;
      for i := 0 to |lines|
        invariant Intact(lines[..i]) && remaining == Kept(lines[..i], timestamp)
        invariant purged == |Events(lines[..i])| - |remaining| && lines == old(lines)
      {
        assert lines[..i + 1][..i] == lines[..i];
        if lines[i].Blank? {
          continue;
        }
        if lines[i].Corrupt? {
          return Err(Corrupted);
        }
        if lines[i].event.timestamp >= timestamp {
          remaining := remaining + [lines[i]];
        } else {
          purged := purged + 1;
        }
      }
      assert lines[..|lines|] == lines;
      KeptEvents(lines, timestamp);
      lines := remaining;
      return Ok(purged);
    }
  }

  // ---------------------------------------------------------------- the backends agree

  datatype Op = Write(e: AuditEvent) | Read(f: Filter) | Count(f: Filter) | Purge(timestamp: nat)

  datatype Reply = Done | Found(events: seq<AuditEvent>) | Number(n: int) | Failed(error: QueryError)

  function MemoryStep(events: seq<AuditEvent>, maxEvents: nat, op: Op): (seq<AuditEvent>, Reply) {
    match op
    case Write(e) => (Newest(events + [e], maxEvents), Done)
    case Read(f) => (events, Found(Page(Matching(events, f), f)))
    case Count(f) => (events, Number(|Matching(events, f)|))
    case Purge(t) => (Since(events, t), Number(|events| - |Since(events, t)|))
  }

  function FileStep(lines: seq<Line>, maxLines: nat, op: Op): (seq<Line>, Reply) {
    match op
    case Write(e) => (lines + [Record(e)], Done)
    case Read(f) =>
      var r := ReadFrom(lines, 0, [], 0, maxLines, f);
      (lines, if r.Ok? then Found(r.value) else Failed(r.error))
    case Count(f) =>
      (lines, if !Intact(lines) then Failed(Corrupted)
              else if |Events(lines)| > maxLines * 10 then Failed(TooManyScanned)
              else Number(|Matching(Events(lines), f)|))
    case Purge(t) =>
      if Intact(lines) then (Kept(lines, t), Number(|Events(lines)| - |Events(Kept(lines, t))|))
      else (lines, Failed(Corrupted))
  }

  function MemoryReplies(events: seq<AuditEvent>, maxEvents: nat, ops: seq<Op>): seq<Reply>
    decreases |ops|
  {
    if ops == [] then [] else
    var (events', reply) := MemoryStep(events, maxEvents, ops[0]);
    [reply] + MemoryReplies(events', maxEvents, ops[1..])
  }

  function FileReplies(lines: seq<Line>, maxLines: nat, ops: seq<Op>): seq<Reply>
    decreases |ops|
  {
    if ops == [] then [] else
    var (lines', reply) := FileStep(lines, maxLines, ops[0]);
    [reply] + FileReplies(lines', maxLines, ops[1..])
  }

  function Writes(ops: seq<Op>): nat {
    if ops == [] then 0 else (if ops[0].Write? then 1 else 0) + Writes(ops[1..])
  }

  lemma StepsAgree(events: seq<AuditEvent>, lines: seq<Line>, maxEvents: nat, maxLines: nat, op: Op)
    requires Intact(lines) && events == Events(lines)
    requires |events| + (if op.Write? then 1 else 0) <= maxEvents && |events| <= maxLines
    ensures var (events', reply) := MemoryStep(events, maxEvents, op);
      var (lines', reply') := FileStep(lines, maxLines, op);
      && reply == reply' && Intact(lines') && events' == Events(lines')
      && |events'| <= |events| + if op.Write? then 1 else 0
  {
    match op
    case Write(e) => EventsSnoc(lines, Record(e));
    case Read(f) => SmallLogIsRead(lines, maxLines, f);
    case Count(f) =>
    case Purge(t) =>
      KeptEvents(lines, t);
      SinceIsShorter(events, t);
  }

  /** Any run of writes, reads, counts and purges with no more writes than either limit: every reply is the
      same, for every filter, limit and offset. */
  lemma {:induction false} BackendsAgree(events: seq<AuditEvent>, lines: seq<Line>, maxEvents: nat, maxLines: nat,
                                         ops: seq<Op>)
    requires Intact(lines) && events == Events(lines)
    requires |events| + Writes(ops) <= maxEvents && |events| + Writes(ops) <= maxLines
    ensures MemoryReplies(events, maxEvents, ops) == FileReplies(lines, maxLines, ops)
    decreases |ops|
  {
    if ops != [] {
      var (events', _) := MemoryStep(events, maxEvents, ops[0]);
      var (lines', _) := FileStep(lines, maxLines, ops[0]);
      StepsAgree(events, lines, maxEvents, maxLines, ops[0]);
      BackendsAgree(events', lines', maxEvents, maxLines, ops[1..]);
    }
  }

  lemma {:induction false} RepeatedWrites(events: seq<AuditEvent>, lines: seq<Line>, e: AuditEvent, maxEvents: nat,
                                          maxLines: nat, n: nat)
    requires |events| <= maxEvents && Intact(lines)
    ensures var ops := seq(n, _ => Write(e)) + [Count(Filter(None, None, None, None, None, None, None, None, None))];
      && |MemoryReplies(events, maxEvents, ops)| == |FileReplies(lines, maxLines, ops)| == n + 1
      && MemoryReplies(events, maxEvents, ops)[n] ==
        Number(if |events| + n <= maxEvents then |events| + n else maxEvents)
      && FileReplies(lines, maxLines, ops)[n] ==
        if |Events(lines)| + n <= maxLines * 10 then Number(|Events(lines)| + n) else Failed(TooManyScanned)
    decreases n
  {
    var f := Filter(None, None, None, None, None, None, None, None, None);
    var ops := seq(n, _ => Write(e)) + [Count(f)];
    if n == 0 {
      assert ops == [Count(f)];
      EverythingMatches(events);
      EverythingMatches(Events(lines));
    } else {
      assert ops[0] == Write(e) && ops[1..] == seq(n - 1, _ => Write(e)) + [Count(f)];
      EventsSnoc(lines, Record(e));
      RepeatedWrites(Newest(events + [e], maxEvents), lines + [Record(e)], e, maxEvents, maxLines, n - 1);
    }
  }

  lemma {:induction false} EverythingMatches(events: seq<AuditEvent>)
    ensures Matching(events, Filter(None, None, None, None, None, None, None, None, None)) == events
    decreases |events|
  {
    if events != [] {
      EverythingMatches(events[..|events| - 1]);
    }
  }

  /** The bound is sharp: one write beyond the memory limit is enough for a count to differ. */
  lemma OneWriteTooMany(e: AuditEvent, maxEvents: nat, maxLines: nat) returns (ops: seq<Op>)
    ensures Writes(ops) == maxEvents + 1
    ensures MemoryReplies([], maxEvents, ops) != FileReplies([], maxLines, ops)
  {
    var n := maxEvents + 1;
    ops := seq(n, _ => Write(e)) + [Count(Filter(None, None, None, None, None, None, None, None, None))];
    RepeatedWrites([], [], e, maxEvents, maxLines, n);
    CountWrites(e, n);
  }

  lemma {:induction false} CountWrites(e: AuditEvent, n: nat)
    ensures Writes(seq(n, _ => Write(e)) + [Count(Filter(None, None, None, None, None, None, None, None, None))]) == n
    decreases n
  {
    var f := Filter(None, None, None, None, None, None, None, None, None);
    var ops := seq(n, _ => Write(e)) + [Count(f)];
    if n == 0 {
      assert ops == [Count(f)];
    } else {
      assert ops[0] == Write(e) && ops[1..] == seq(n - 1, _ => Write(e)) + [Count(f)];
      CountWrites(e, n - 1);
    }
  }
}
