/** Exactly which operations in flight can hide a service that is being registered. */
module DiscoveryRaces {
  import opened Wrappers
  import opened Discovery

  lemma RunOne(v: Versions, s: System, step: Step, rest: seq<Step>)
    requires Enabled(s, step) && CanRun(v, Apply(v, s, step), rest)
    ensures CanRun(v, s, [step] + rest) && After(v, s, [step] + rest) == After(v, Apply(v, s, step), rest)
  {
    assert ([step] + rest)[1..] == rest;
  }

  lemma RunTwo(v: Versions, s: System, a: Step, b: Step, s': System, rest: seq<Step>)
    requires Enabled(s, a) && Enabled(Apply(v, s, a), b) && Apply(v, Apply(v, s, a), b) == s' && CanRun(v, s', rest)
    ensures CanRun(v, s, [a, b] + rest) && After(v, s, [a, b] + rest) == After(v, s', rest)
  {
    RunOne(v, Apply(v, s, a), b, rest);
    RunOne(v, s, a, [b] + rest);
    assert [a] + ([b] + rest) == [a, b] + rest;
  }

  /** A registry holding just `d`, built by one undisturbed registration. */
  function Single(d: Descriptor): Registry {
    Registry(map[d.name := d], map[d.interface := [d.name]], PushAll(map[], d.capabilities, d.name))
  }

  /** An `unregister` still in flight when the same name is registered again hides the new service: it ends up
      registered, with no operation pending, and missing from the interface index. */
  lemma LateUnregisterHidesService(v: Versions, d: Descriptor) returns (s: System, steps: seq<Step>)
    requires v.valid(d.version)
    ensures s == System(Single(d), map[]) && CanRun(v, s, steps)
    ensures var s' := After(v, s, steps);
      s'.threads == map[] && Lookup(s'.registry.services, d.name) == Some(d) && !Listed(s', d)
  {
    s := System(Single(d), map[]);
    var first := OverlappingStart(v, s, d);
    var second := LateEnd(v, After(v, s, first), d);
    RunConcat(v, s, first, second);
    steps := first + second;
  }

  lemma {:induction false} RunConcat(v: Versions, s: System, a: seq<Step>, b: seq<Step>)
    requires CanRun(v, s, a) && CanRun(v, After(v, s, a), b)
    ensures CanRun(v, s, a + b) && After(v, s, a + b) == After(v, After(v, s, a), b)
    decreases |a|
  {
    if a == [] {
      assert a + b == b;
    } else {
      assert (a + b)[0] == a[0] && (a + b)[1..] == a[1..] + b;
      RunConcat(v, Apply(v, s, a[0]), a[1..], b);
    }
  }

  /** Thread 1 takes the old service out of the main map; thread 2 registers the new one and returns. */
  lemma OverlappingStart(v: Versions, s: System, d: Descriptor) returns (steps: seq<Step>)
    requires v.valid(d.version) && s == System(Single(d), map[])
    ensures CanRun(v, s, steps)
    ensures var s' := After(v, s, steps);
      && s'.threads == map[1 := UnregisterInterface(d)] && s'.registry.services == map[d.name := d]
      && Entry(s'.registry.interfaces, d.interface) == [d.name, d.name] && d.interface in s'.registry.interfaces
  {
    var s2 := Apply(v, Apply(v, s, Unregister(1, d.name)), Register(2, d));
    var s4 := Apply(v, Apply(v, s2, Continue(2)), Continue(2));
    RunTwo(v, s2, Continue(2), Continue(2), s4, []);
    RunTwo(v, s, Unregister(1, d.name), Register(2, d), s2, [Continue(2), Continue(2)] + []);
    steps := [Unregister(1, d.name), Register(2, d)] + ([Continue(2), Continue(2)] + []);
    assert s4.threads == map[1 := UnregisterInterface(d)] && s4.registry.services == map[d.name := d];
    assert [d.name] + [d.name] == [d.name, d.name];
  }

  /** Thread 1 goes on to take the name out of the indexes. */
  lemma LateEnd(v: Versions, s: System, d: Descriptor) returns (steps: seq<Step>)
    requires s.threads == map[1 := UnregisterInterface(d)] && d.interface in s.registry.interfaces
    requires Entry(s.registry.interfaces, d.interface) == [d.name, d.name]
    ensures CanRun(v, s, steps)
    ensures var s' := After(v, s, steps);
      s'.threads == map[] && s'.registry.services == s.registry.services && !Listed(s', d)
  {
    var s2 := Apply(v, Apply(v, s, Continue(1)), Continue(1));
    RunTwo(v, s, Continue(1), Continue(1), s2, []);
    steps := [Continue(1), Continue(1)] + [];
    WithoutBoth(d.name);
  }

  lemma WithoutBoth(n: string)
    ensures Without([n, n], n) == []
  {
    assert [n, n][..1] == [n] && [n][..0] == [];
    assert Without([n], n) == [];
  }

  // ---------------------------------------------------------------- the exact condition

  /** A continuation of a registration in which no removal of its service starts, and which ends with the
      registration returned and an index not listing the service. */
  predicate Hides(v: Versions, s: System, t: Thread, d: Descriptor, steps: seq<Step>) {
    && CanRun(v, s, steps) && NoRemovals(steps, d.name)
    && !Registering(After(v, s, steps), t, d) && !Visible(After(v, s, steps), d)
  }

  predicate Continues(steps: seq<Step>) {
    forall i :: 0 <= i < |steps| ==> steps[i].Continue?
  }

  ghost function Clearers(s: System): set<Thread> {
    set t | t in s.threads && s.threads[t].ClearCapabilities?
  }

  /** Whoever holds the interface lock can be run to its end; nobody else moves. */
  lemma {:induction false} Unlock(v: Versions, s: System) returns (steps: seq<Step>)
    ensures CanRun(v, s, steps) && Continues(steps)
    ensures var s' := After(v, s, steps);
      && !InterfaceLocked(s')
      && (forall t :: t in s.threads && !s.threads[t].ClearCapabilities? ==>
            t in s'.threads && s'.threads[t] == s.threads[t])
    decreases Clearers(s)
  {
    if t :| t in s.threads && s.threads[t].ClearCapabilities? {
      var s1 := Apply(v, s, Continue(t));
      assert t in Clearers(s) && Clearers(s1) == Clearers(s) - {t};
      var rest := Unlock(v, s1);
      RunOne(v, s, Continue(t), rest);
      steps := [Continue(t)] + rest;
    } else {
      steps := [];
    }
  }

  /** The registration returns while `u` waits. */
  lemma ReturnFirst(v: Versions, s: System, t: Thread, u: Thread, d: Descriptor) returns (steps: seq<Step>)
    requires t in s.threads && s.threads[t] == RegisterInterface(d) && u in s.threads && u != t && !InterfaceLocked(s)
    ensures CanRun(v, s, steps) && Continues(steps)
    ensures var s' := After(v, s, steps);
      t !in s'.threads && u in s'.threads && s'.threads[u] == s.threads[u] && !InterfaceLocked(s')
  {
    var s2 := Apply(v, Apply(v, s, Continue(t)), Continue(t));
    RunTwo(v, s, Continue(t), Continue(t), s2, []);
    steps := [Continue(t), Continue(t)] + [];
    assert forall w :: w in s2.threads ==> w in s.threads && s2.threads[w] == s.threads[w];
  }

  /** Then `u` does what it still has to do. */
  lemma RemoveLast(v: Versions, s: System, u: Thread, d: Descriptor) returns (steps: seq<Step>)
    requires u in s.threads && Endangers(s.threads[u], d) && !InterfaceLocked(s)
    ensures CanRun(v, s, steps) && Continues(steps)
    ensures var s' := After(v, s, steps); s'.threads.Keys <= s.threads.Keys && !Visible(s', d)
  {
    var s1 := Apply(v, s, Continue(u));
    RunOne(v, s, Continue(u), []);
    steps := [Continue(u)] + [];
    match s.threads[u]
    case ClearInterfaces =>
    case UnregisterInterface(o) =>
      if o.interface == d.interface {
        UpdateCounts(s.registry, o, d.name, d.interface);
        assert Count(s1.registry.interfaces, d.interface, d.name) == 0;
      } else {
        RunTwo(v, s, Continue(u), Continue(u), Apply(v, s1, Continue(u)), []);
        steps := [Continue(u), Continue(u)] + [];
        TakenOut(s1, u, d);
      }
    case UnregisterCapabilities(_) => TakenOut(s, u, d);
  }

  lemma TakenOut(s: System, u: Thread, d: Descriptor)
    requires u in s.threads && s.threads[u].UnregisterCapabilities? && Endangers(s.threads[u], d)
    ensures !Visible(Resume(s, u), d)
  {
    var o := s.threads[u].d;
    var c :| c in o.capabilities && c in d.capabilities;
    RetainAllCounts(s.registry.capabilities, o.capabilities, o.name, c, d.name);
    assert Count(Resume(s, u).registry.capabilities, c, d.name) == 0;
  }

  lemma DangerHides(v: Versions, s: System, t: Thread, d: Descriptor) returns (steps: seq<Step>)
    requires Registrable(v, s, t, d) && Endangered(s, d)
    ensures Hides(v, Apply(v, s, Register(t, d)), t, d, steps)
  {
    var u :| u in s.threads && Endangers(s.threads[u], d);
    var s1 := Apply(v, s, Register(t, d));
    var a := Unlock(v, s1);
    var s2 := After(v, s1, a);
    var b := ReturnFirst(v, s2, t, u, d);
    var s3 := After(v, s2, b);
    var c := RemoveLast(v, s3, u, d);
    RunConcat(v, s2, b, c);
    RunConcat(v, s1, a, b + c);
    steps := a + (b + c);
    assert Continues(steps);
  }

  /** A successful `register` can end up hidden, without any removal starting after it, if and only if some operation
      already in flight still has to take one of its entries out. */
  lemma HiddenIff(v: Versions, s: System, t: Thread, d: Descriptor)
    requires Registrable(v, s, t, d)
    ensures (exists steps :: Hides(v, Apply(v, s, Register(t, d)), t, d, steps)) <==> Endangered(s, d)
  {
    if Endangered(s, d) {
      var steps := DangerHides(v, s, t, d);
    } else {
      var s1 := Apply(v, s, Register(t, d));
      forall steps
        ensures !Hides(v, s1, t, d, steps)
      {
        if CanRun(v, s1, steps) && NoRemovals(steps, d.name) {
          RegisterBegins(v, s, t, d);
          RegisteredStaysVisible(v, s1, t, d, steps);
        }
      }
    }
  }
}
