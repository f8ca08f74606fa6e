/** What the flat filter finds, said about queries rather than by repeating its conditions. */
module QueryLaws {
  import opened Wrappers
  import opened AuditModel
  import opened AuditBackends

  // ---------------------------------------------------------------- severity

  const SEVERITIES: seq<Severity> := [Info, Warning, Error, Critical]

  /** The next severity up, if there is one. */
  function Raised(s: Severity): Option<Severity> {
    match s
    case Info => Some(Warning)
    case Warning => Some(Error)
    case Error => Some(Critical)
    case Critical => None
  }

  /** A severity bound finds an event of exactly that severity; raising the event or lowering the bound keeps it
      found; and a bound one above the event's severity does not find it. */
  lemma SeverityBound(f: Filter, e: AuditEvent)
    requires Matches(f.(minSeverity := None), e)
    ensures Matches(f.(minSeverity := Some(e.severity)), e)
    ensures Raised(e.severity).Some? ==> !Matches(f.(minSeverity := Raised(e.severity)), e)
    ensures Raised(e.severity).Some? && Matches(f, e) ==> Matches(f, e.(severity := Raised(e.severity).value))
    ensures forall s :: Raised(s).Some? && f.minSeverity == Raised(s) && Matches(f, e) ==>
              Matches(f.(minSeverity := Some(s)), e)
  {
  }

  /** So a bound finds the events of its own severity and of those listed after it, and no others. */
  lemma SeverityIsASuffix(f: Filter, e: AuditEvent, i: nat)
    requires i < |SEVERITIES|
    ensures Matches(f.(minSeverity := Some(SEVERITIES[i])), e) <==>
            Matches(f.(minSeverity := None), e) && e.severity in SEVERITIES[i..]
  {
    assert SEVERITIES[0..] == [Info, Warning, Error, Critical] && SEVERITIES[1..] == [Warning, Error, Critical];
    assert SEVERITIES[2..] == [Error, Critical] && SEVERITIES[3..] == [Critical];
  }

  /** Bounding the severity splits a log: what one bound finds is what the next one finds, and the events of exactly
      that severity. */
  lemma SeveritySplits(events: seq<AuditEvent>, f: Filter, s: Severity, e: AuditEvent)
    requires Raised(s).Some?
    ensures multiset(Matching(events, f.(minSeverity := Some(s))))[e] ==
            multiset(Matching(events, f.(minSeverity := Raised(s))))[e] +
            if e.severity == s && Matches(f.(minSeverity := None), e) then multiset(events)[e] else 0
  {
    MatchingMeans(events, f.(minSeverity := Some(s)), e);
    MatchingMeans(events, f.(minSeverity := Raised(s)), e);
  }

  // ---------------------------------------------------------------- time

  function Between(f: Filter, first: nat, last: nat): Filter {
    f.(startTime := Some(first), endTime := Some(last))
  }

  /** Both ends of a time range are included: the range from an event's own timestamp to itself finds it, and ranges
      that end before or start after do not. */
  lemma TimeRangeIsClosed(f: Filter, e: AuditEvent, first: nat, last: nat)
    requires Matches(f.(startTime := None, endTime := None), e)
    ensures Matches(Between(f, e.timestamp, e.timestamp), e)
    ensures last < e.timestamp || e.timestamp < first ==> !Matches(Between(f, first, last), e)
    ensures first <= e.timestamp <= last ==> Matches(Between(f, first, last), e)
    ensures Matches(f.(startTime := Some(first), endTime := None), e) <==> first <= e.timestamp
    ensures Matches(f.(startTime := None, endTime := Some(last)), e) <==> e.timestamp <= last
  {
  }

  /** Two adjacent ranges partition what the whole range finds, event by event and as often. */
  lemma AdjacentRangesPartition(events: seq<AuditEvent>, f: Filter, first: nat, middle: nat, last: nat)
    requires first <= middle + 1 && middle <= last
    ensures multiset(Matching(events, Between(f, first, last))) ==
            multiset(Matching(events, Between(f, first, middle))) +
            multiset(Matching(events, Between(f, middle + 1, last)))
  {
    forall e
      ensures multiset(Matching(events, Between(f, first, last)))[e] ==
              multiset(Matching(events, Between(f, first, middle)))[e] +
              multiset(Matching(events, Between(f, middle + 1, last)))[e]
    {
      MatchingMeans(events, Between(f, first, last), e);
      MatchingMeans(events, Between(f, first, middle), e);
      MatchingMeans(events, Between(f, middle + 1, last), e);
    }
  }

  // ---------------------------------------------------------------- the other fields

  lemma OccursAtSplits(text: string, part: string, i: nat)
    requires OccursAt(text, part, i)
    ensures text == text[..i] + part + text[i + |part|..]
  {
  }

  /** A plugin filter finds exactly the names of the form `a + part + b`. */
  lemma PluginFilterMeans(f: Filter, e: AuditEvent, part: string)
    ensures Matches(f.(pluginName := Some(part)), e) <==>
            Matches(f.(pluginName := None), e) && exists a, b :: e.pluginName == a + part + b
  {
    if Contains(e.pluginName, part) {
      var i :| 0 <= i <= |e.pluginName| && OccursAt(e.pluginName, part, i);
      OccursAtSplits(e.pluginName, part, i);
    }
    if a, b :| e.pluginName == a + part + b {
      assert OccursAt(e.pluginName, part, |a|);
    }
  }

  /** Type, stage and recovery action: every event found without the field is found by its own value, and by no
      other. */
  lemma OwnValueFinds(f: Filter, e: AuditEvent)
    ensures forall t :: Matches(f.(eventType := Some(t)), e) <==> Matches(f.(eventType := None), e) && t == e.eventType
    ensures forall x :: Matches(f.(stage := Some(x)), e) <==> Matches(f.(stage := None), e) && Some(x) == e.stage
    ensures forall x :: Matches(f.(recoveryAction := Some(x)), e) <==>
              Matches(f.(recoveryAction := None), e) && Some(x) == e.recoveryAction
  {
  }

  /** `g` asks for everything `f` asks for: it agrees on every field that `f` sets, a lower end of time or severity
      excepted, which it may raise, and an upper end, which it may lower. */
  predicate Refines(g: Filter, f: Filter) {
    && (f.pluginName.Some? ==> g.pluginName == f.pluginName) && (f.eventType.Some? ==> g.eventType == f.eventType)
    && (f.stage.Some? ==> g.stage == f.stage) && (f.recoveryAction.Some? ==> g.recoveryAction == f.recoveryAction)
    && (f.minSeverity.Some? ==> g.minSeverity.Some? && f.minSeverity.value.Rank() <= g.minSeverity.value.Rank())
    && (f.startTime.Some? ==> g.startTime.Some? && f.startTime.value <= g.startTime.value)
    && (f.endTime.Some? ==> g.endTime.Some? && g.endTime.value <= f.endTime.value)
  }

  /** Asking for more finds a sub-multiset. */
  lemma AskingMoreFindsLess(events: seq<AuditEvent>, f: Filter, g: Filter)
    requires Refines(g, f)
    ensures multiset(Matching(events, g)) <= multiset(Matching(events, f))
  {
    forall e
      ensures multiset(Matching(events, g))[e] <= multiset(Matching(events, f))[e]
    {
      MatchingMeans(events, f, e);
      MatchingMeans(events, g, e);
    }
  }
}
