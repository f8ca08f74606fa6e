/**
 The service registry: a map of descriptors by name and two secondary indexes, from interface and from
 capability to lists of names.  Version parsing and matching are parameters: everything below holds for
 whatever they answer.
 */
module Discovery {
  import opened Wrappers

  datatype Descriptor = Descriptor(name: string, version: string, interface: string, provider: string,
                                   idl: Option<string>, capabilities: seq<string>, metadata: map<string, string>)

  datatype Filter = Filter(interface: Option<string>, minVersion: Option<string>, maxVersion: Option<string>,
                           capability: Option<string>, provider: Option<string>)

  datatype Error = InvalidVersion(version: string) | AlreadyRegistered(name: string)

  /** `valid`: does a version string parse; `validReq`: does a requirement parse; `satisfies(req, version)`. */
  datatype Versions = Versions(valid: string -> bool, validReq: string -> bool, satisfies: (string, string) -> bool)

  type Index = map<string, seq<string>>

  datatype Registry = Registry(services: map<string, Descriptor>, interfaces: Index, capabilities: Index)

  // ---------------------------------------------------------------- queries

  function MatchesFilter(v: Versions, d: Descriptor, f: Filter): Result<bool, Error> {
    if f.interface.Some? && d.interface != f.interface.value then Ok(false)
    else if f.provider.Some? && d.provider != f.provider.value then Ok(false)
    else if f.capability.Some? && f.capability.value !in d.capabilities then Ok(false)
    else if !v.valid(d.version) then Err(InvalidVersion(d.version))
    else if f.minVersion.Some? && !v.validReq(">=" + f.minVersion.value) then Err(InvalidVersion(f.minVersion.value))
    else if f.minVersion.Some? && !v.satisfies(">=" + f.minVersion.value, d.version) then Ok(false)
    else if f.maxVersion.Some? && !v.validReq("<" + f.maxVersion.value) then Err(InvalidVersion(f.maxVersion.value))
    else if f.maxVersion.Some? && !v.satisfies("<" + f.maxVersion.value, d.version) then Ok(false)
    else Ok(true)
  }

  /** The criteria that are checked before any version is looked at. */
  predicate Eligible(d: Descriptor, f: Filter) {
    && (f.interface == None || f.interface == Some(d.interface))
    && (f.provider == None || f.provider == Some(d.provider))
    && (f.capability.Some? ==> f.capability.value in d.capabilities)
  }

  /** A descriptor with a valid version matches exactly when it is eligible and within both bounds.  A bound that
      does not parse is an error only for a descriptor that gets as far as that bound. */
  lemma FilterMeaning(v: Versions, d: Descriptor, f: Filter)
    requires v.valid(d.version)
    ensures var badMin := f.minVersion.Some? && !v.validReq(">=" + f.minVersion.value);
      var badMax := f.maxVersion.Some? && !v.validReq("<" + f.maxVersion.value);
      var aboveMin := f.minVersion.Some? ==> v.satisfies(">=" + f.minVersion.value, d.version);
      var belowMax := f.maxVersion.Some? ==> v.satisfies("<" + f.maxVersion.value, d.version);
      && (MatchesFilter(v, d, f) == Ok(true) <==> Eligible(d, f) && !badMin && aboveMin && !badMax && belowMax)
      && (MatchesFilter(v, d, f).Err? <==> Eligible(d, f) && (badMin || (aboveMin && badMax)))
  {
  }

  function Entry(index: Index, key: string): seq<string> {
    if key in index then index[key] else []
  }

  /** The names to look at; `order` is whatever order the map yields its keys in. */
  function Candidates(r: Registry, f: Filter, order: seq<string>): seq<string> {
    if f.interface.Some? then Entry(r.interfaces, f.interface.value)
    else if f.capability.Some? then Entry(r.capabilities, f.capability.value)
    else order
  }

  /** The registered descriptors among `names` that match, up to the first error. */
  function Select(v: Versions, services: map<string, Descriptor>, names: seq<string>, f: Filter)
      : Result<seq<Descriptor>, Error>
    decreases |names|
  {
    if names == [] then Ok([]) else
    var last := names[|names| - 1];
    var front := Select(v, services, names[..|names| - 1], f);
    if front.Err? || last !in services then front else
    match MatchesFilter(v, services[last], f)
    case Err(e) => Err(e)
    case Ok(hit) => if hit then Ok(front.value + [services[last]]) else front
  }

  /** Every descriptor is filed under its own name and carries a version that parses. */
  predicate WellKeyed(v: Versions, services: map<string, Descriptor>) {
    forall n :: n in services ==> services[n].name == n && v.valid(services[n].version)
  }

  /** `order` lists every registered name once. */
  ghost predicate Enumerates(order: seq<string>, services: map<string, Descriptor>) {
    forall n :: multiset(order)[n] == if n in services then 1 else 0
  }

  /** The only error a filter can cause on well-keyed services. */
  function BadBound(v: Versions, f: Filter): Error {
    if f.minVersion.Some? && !v.validReq(">=" + f.minVersion.value) then InvalidVersion(f.minVersion.value)
    else InvalidVersion(f.maxVersion.GetOr(""))
  }

  ghost predicate Hits(v: Versions, services: map<string, Descriptor>, f: Filter, d: Descriptor) {
    d.name in services && services[d.name] == d && MatchesFilter(v, d, f) == Ok(true)
  }

  lemma MultisetSnoc<T>(s: seq<T>, x: T)
    ensures multiset(s + [x]) == multiset(s) + multiset{x}
  {
  }

  /** What `Select` returns, independently of the order of the names: an error exactly when some named
      service causes one, always the same one; otherwise every hit, as often as it is named. */
  lemma {:induction false} SelectMeaning(v: Versions, services: map<string, Descriptor>, names: seq<string>, f: Filter)
    requires WellKeyed(v, services)
    ensures var r := Select(v, services, names, f);
      && (r.Err? <==> exists n :: n in names && n in services && MatchesFilter(v, services[n], f).Err?)
      && (r.Err? ==> r.error == BadBound(v, f))
      && (r.Ok? ==> forall d :: multiset(r.value)[d] == if Hits(v, services, f, d) then multiset(names)[d.name] else 0)
    decreases |names|
  {
    if names != [] {
      var front, last := names[..|names| - 1], names[|names| - 1];
      assert names == front + [last];
      SelectMeaning(v, services, front, f);
      var r, r' := Select(v, services, front, f), Select(v, services, names, f);
      assert forall n :: n in names <==> n in front || n == last;
      if r'.Ok? {
        forall d
          ensures multiset(r'.value)[d] == if Hits(v, services, f, d) then multiset(names)[d.name] else 0
        {
          SelectCounts(v, services, front, last, f, d);
        }
      }
    }
  }

  lemma SelectCounts(v: Versions, services: map<string, Descriptor>, front: seq<string>, last: string, f: Filter,
                     d: Descriptor)
    requires WellKeyed(v, services) && Select(v, services, front + [last], f).Ok?
    ensures Select(v, services, front, f).Ok?
    ensures var r, r' := Select(v, services, front, f).value, Select(v, services, front + [last], f).value;
      multiset(r)[d] == (if Hits(v, services, f, d) then multiset(front)[d.name] else 0) ==>
      multiset(r')[d] == (if Hits(v, services, f, d) then multiset(front + [last])[d.name] else 0)
  {
    var names := front + [last];
    assert names[..|names| - 1] == front && names[|names| - 1] == last;
    MultisetSnoc(front, last);
    var r := Select(v, services, front, f).value;
    if last in services {
      MultisetSnoc(r, services[last]);
    }
  }

  // ---------------------------------------------------------------- exact indexes

  function Count(index: Index, key: string, name: string): nat {
    multiset(Entry(index, key))[name]
  }

  /** `name` is listed under exactly the interface of `d`, once. */
  ghost predicate InterfaceIs(index: Index, name: string, d: Option<Descriptor>) {
    forall i :: Count(index, i, name) == if d.Some? && d.value.interface == i then 1 else 0
  }

  /** `name` is listed under exactly the capabilities of `d`, as often as `d` lists them. */
  ghost predicate CapabilitiesAre(index: Index, name: string, d: Option<Descriptor>) {
    forall c :: Count(index, c, name) == if d.Some? then multiset(d.value.capabilities)[c] else 0
  }

  function Lookup(services: map<string, Descriptor>, name: string): Option<Descriptor> {
    if name in services then Some(services[name]) else None
  }

  /** Both indexes list `n` exactly as the main map has it. */
  ghost predicate Settled(r: Registry, n: string) {
    InterfaceIs(r.interfaces, n, Lookup(r.services, n)) && CapabilitiesAre(r.capabilities, n, Lookup(r.services, n))
  }

  ghost predicate Exact(v: Versions, r: Registry) {
    WellKeyed(v, r.services) && forall n :: Settled(r, n)
  }

  predicate NoRepeats(d: Descriptor) {
    forall i, j :: 0 <= i < j < |d.capabilities| ==> d.capabilities[i] != d.capabilities[j]
  }

  lemma {:induction false} NoRepeatsCountsOnce(s: seq<string>, c: string)
    requires forall i, j :: 0 <= i < j < |s| ==> s[i] != s[j]
    ensures multiset(s)[c] == if c in s then 1 else 0
    decreases |s|
  {
    if s != [] {
      var front := s[..|s| - 1];
      assert s == front + [s[|s| - 1]];
      NoRepeatsCountsOnce(front, c);
      MultisetSnoc(front, s[|s| - 1]);
    }
  }

  /** A service the index leaves out is one the filter rejects before it looks at any version. */
  lemma LeftOutMeansRejected(v: Versions, r: Registry, f: Filter, order: seq<string>, n: string)
    requires Exact(v, r) && Enumerates(order, r.services) && n in r.services
    requires n !in Candidates(r, f, order)
    ensures MatchesFilter(v, r.services[n], f) == Ok(false)
  {
    var names := Candidates(r, f, order);
    assert multiset(order)[n] == 1;
    assert multiset(names)[n] == 0;
    assert Settled(r, n);
    if f.interface.Some? {
      assert Count(r.interfaces, f.interface.value, n) == 0;
    } else if f.capability.Some? {
      assert Count(r.capabilities, f.capability.value, n) == 0;
    }
  }

  /** Discovery through an exact index gives what a scan over all services gives: the same outcome, the same
      error, the same set of services, and the same multiset when no descriptor repeats a capability. */
  lemma IndexRefinesScan(v: Versions, r: Registry, f: Filter, order: seq<string>)
    requires Exact(v, r) && Enumerates(order, r.services)
    ensures var byIndex, byScan := Select(v, r.services, Candidates(r, f, order), f), Select(v, r.services, order, f);
      && byIndex.Ok? == byScan.Ok?
      && (byIndex.Err? ==> byIndex == byScan)
      && (byIndex.Ok? ==> forall d :: d in byIndex.value <==> d in byScan.value)
      && (byIndex.Ok? && (forall n :: n in r.services ==> NoRepeats(r.services[n])) ==>
            multiset(byIndex.value) == multiset(byScan.value))
  {
    var names := Candidates(r, f, order);
    SelectMeaning(v, r.services, names, f);
    SelectMeaning(v, r.services, order, f);
    forall n | n in r.services
      ensures n in order && (n !in names ==> MatchesFilter(v, r.services[n], f) == Ok(false))
    {
      assert multiset(order)[n] == 1;
      if n !in names {
        LeftOutMeansRejected(v, r, f, order, n);
      }
    }
    var byIndex, byScan := Select(v, r.services, names, f), Select(v, r.services, order, f);
    if byIndex.Ok? {
      forall d
        ensures d in byIndex.value <==> d in byScan.value
      {
        assert (d in byIndex.value <==> multiset(byIndex.value)[d] > 0) &&
          (d in byScan.value <==> multiset(byScan.value)[d] > 0);
      }
      if forall n :: n in r.services ==> NoRepeats(r.services[n]) {
        forall d
          ensures multiset(byIndex.value)[d] == multiset(byScan.value)[d]
        {
          if Hits(v, r.services, f, d) {
            NamedOnce(v, r, f, order, d);
          }
        }
      }
    }
  }

  lemma NamedOnce(v: Versions, r: Registry, f: Filter, order: seq<string>, d: Descriptor)
    requires Exact(v, r) && Enumerates(order, r.services) && Hits(v, r.services, f, d) && NoRepeats(d)
    ensures multiset(Candidates(r, f, order))[d.name] == 1 == multiset(order)[d.name]
  {
    assert Settled(r, d.name);
    if f.interface.Some? {
      assert Count(r.interfaces, f.interface.value, d.name) == 1;
    } else if f.capability.Some? {
      NoRepeatsCountsOnce(d.capabilities, f.capability.value);
      assert Count(r.capabilities, f.capability.value, d.name) == 1;
    }
  }

  // ---------------------------------------------------------------- index updates

  function Push(index: Index, key: string, name: string): Index {
    index[key := Entry(index, key) + [name]]
  }

  function PushAll(index: Index, keys: seq<string>, name: string): Index
    decreases |keys|
  {
    if keys == [] then index else Push(PushAll(index, keys[..|keys| - 1], name), keys[|keys| - 1], name)
  }

  function Without(names: seq<string>, name: string): seq<string> {
    if names == [] then [] else
    Without(names[..|names| - 1], name) + (if names[|names| - 1] == name then [] else [names[|names| - 1]])
  }

  function Retain(index: Index, key: string, name: string): Index {
    if key in index then index[key := Without(index[key], name)] else index
  }

  function RetainAll(index: Index, keys: seq<string>, name: string): Index
    decreases |keys|
  {
    if keys == [] then index else Retain(RetainAll(index, keys[..|keys| - 1], name), keys[|keys| - 1], name)
  }

  lemma {:induction false} WithoutCounts(names: seq<string>, name: string, n: string)
    ensures multiset(Without(names, name))[n] == if n == name then 0 else multiset(names)[n]
    decreases |names|
  {
    if names != [] {
      var front, last := names[..|names| - 1], names[|names| - 1];
      assert names == front + [last];
      WithoutCounts(front, name, n);
    }
  }

  lemma {:induction false} PushAllCounts(index: Index, keys: seq<string>, name: string, key: string, n: string)
    ensures Count(PushAll(index, keys, name), key, n) == Count(index, key, n) +
            (if n == name then multiset(keys)[key] else 0)
    decreases |keys|
  {
    if keys != [] {
      var front, last := keys[..|keys| - 1], keys[|keys| - 1];
      assert keys == front + [last];
      PushAllCounts(index, front, name, key, n);
      MultisetSnoc(Entry(PushAll(index, front, name), last), name);
    }
  }

  lemma {:induction false} RetainAllCounts(index: Index, keys: seq<string>, name: string, key: string, n: string)
    ensures Count(RetainAll(index, keys, name), key, n) == if n == name && key in keys then 0 else Count(index, key, n)
    decreases |keys|
  {
    if keys != [] {
      var front, last := keys[..|keys| - 1], keys[|keys| - 1];
      assert keys == front + [last];
      RetainAllCounts(index, front, name, key, n);
      WithoutCounts(Entry(RetainAll(index, front, name), last), name, n);
    }
  }

  // ---------------------------------------------------------------- interleaved operations

  type Thread = nat

  /** Where an operation that has released the main lock stands.  `ClearCapabilities` still holds the
      interface index's lock, which `clear` keeps until it returns. */
  datatype Pending =
    | RegisterInterface(d: Descriptor)
    | RegisterCapabilities(d: Descriptor)
    | UnregisterInterface(d: Descriptor)
    | UnregisterCapabilities(d: Descriptor)
    | ClearInterfaces
    | ClearCapabilities

  datatype System = System(registry: Registry, threads: map<Thread, Pending>)

  datatype Step =
    | Register(t: Thread, d: Descriptor)
    | Unregister(t: Thread, name: string)
    | Clear(t: Thread)
    | Continue(t: Thread)

  predicate InterfaceLocked(s: System) {
    exists t :: t in s.threads && s.threads[t].ClearCapabilities?
  }

  predicate Enabled(s: System, step: Step) {
    if step.Continue? then
      && step.t in s.threads
      && (var p := s.threads[step.t];
          p.RegisterInterface? || p.UnregisterInterface? || p.ClearInterfaces? ==> !InterfaceLocked(s))
    else step.t !in s.threads
  }

  /** The part of an operation up to the release of the main lock. */
  function Start(v: Versions, s: System, step: Step): System
    requires !step.Continue?
  {
    var r := s.registry;
    match step
    case Register(t, d) =>
      if !v.valid(d.version) || d.name in r.services then s
      else System(r.(services := r.services[d.name := d]), s.threads[t := RegisterInterface(d)])
    case Unregister(t, name) =>
      if name !in r.services then s
      else System(r.(services := r.services - {name}), s.threads[t := UnregisterInterface(r.services[name])])
    case Clear(t) => System(r.(services := map[]), s.threads[t := ClearInterfaces])
  }

  function Resume(s: System, t: Thread): System
    requires t in s.threads
  {
    var r := s.registry;
    match s.threads[t]
    case RegisterInterface(d) =>
      System(r.(interfaces := Push(r.interfaces, d.interface, d.name)), s.threads[t := RegisterCapabilities(d)])
    case RegisterCapabilities(d) =>
      System(r.(capabilities := PushAll(r.capabilities, d.capabilities, d.name)), s.threads - {t})
    case UnregisterInterface(d) =>
      System(r.(interfaces := Retain(r.interfaces, d.interface, d.name)), s.threads[t := UnregisterCapabilities(d)])
    case UnregisterCapabilities(d) =>
      System(r.(capabilities := RetainAll(r.capabilities, d.capabilities, d.name)), s.threads - {t})
    case ClearInterfaces => System(r.(interfaces := map[]), s.threads[t := ClearCapabilities])
    case ClearCapabilities => System(r.(capabilities := map[]), s.threads - {t})
  }

  function Apply(v: Versions, s: System, step: Step): System
    requires Enabled(s, step)
  {
    if step.Continue? then Resume(s, step.t) else Start(v, s, step)
  }

  predicate CanRun(v: Versions, s: System, steps: seq<Step>)
    decreases |steps|
  {
    steps == [] || (Enabled(s, steps[0]) && CanRun(v, Apply(v, s, steps[0]), steps[1..]))
  }

  function After(v: Versions, s: System, steps: seq<Step>): System
    requires CanRun(v, s, steps)
    decreases |steps|
  {
    if steps == [] then s else After(v, Apply(v, s, steps[0]), steps[1..])
  }

  // ---------------------------------------------------------------- a returned register stays visible

  predicate Overlap(a: Descriptor, b: Descriptor) {
    exists c :: c in a.capabilities && c in b.capabilities
  }

  /** An operation in flight that still has to take an entry of `d` out of an index.  A `clear` that has come to the
      capability index is none: it holds the lock `register` needs first. */
  predicate Endangers(p: Pending, d: Descriptor) {
    match p
    case ClearInterfaces => true
    case UnregisterInterface(o) => o.name == d.name && (o.interface == d.interface || Overlap(o, d))
    case UnregisterCapabilities(o) => o.name == d.name && Overlap(o, d)
    case _ => false
  }

  predicate Endangered(s: System, d: Descriptor) {
    exists t :: t in s.threads && Endangers(s.threads[t], d)
  }

  predicate StartsRemoval(step: Step, name: string) {
    step.Clear? || (step.Unregister? && step.name == name)
  }

  predicate NoRemovals(steps: seq<Step>, name: string) {
    forall i :: 0 <= i < |steps| ==> !StartsRemoval(steps[i], name)
  }

  predicate Registering(s: System, t: Thread, d: Descriptor) {
    t in s.threads && (s.threads[t] == RegisterInterface(d) || s.threads[t] == RegisterCapabilities(d))
  }

  predicate Listed(s: System, d: Descriptor) {
    d.name in Entry(s.registry.interfaces, d.interface)
  }

  predicate Visible(s: System, d: Descriptor) {
    Listed(s, d) && forall c :: c in d.capabilities ==> d.name in Entry(s.registry.capabilities, c)
  }

  /** The registration of `d` by `t`, in progress or done, and out of danger. */
  predicate Tracked(v: Versions, s: System, t: Thread, d: Descriptor) {
    && WellKeyed(v, s.registry.services)
    && Lookup(s.registry.services, d.name) == Some(d)
    && !Endangered(s, d)
    && (InterfaceLocked(s) ==> t in s.threads && s.threads[t] == RegisterInterface(d))
    && (if Registering(s, t, d) then s.threads[t] == RegisterCapabilities(d) ==> Listed(s, d) else Visible(s, d))
  }

  /** Steps of harmless operations never drop an entry of `d` from an index. */
  lemma EntriesSurvive(v: Versions, s: System, step: Step, d: Descriptor, key: string)
    requires Enabled(s, step) && !Endangered(s, d) && !StartsRemoval(step, d.name)
    ensures var r, r' := s.registry, Apply(v, s, step).registry;
      && (key == d.interface && d.name in Entry(r.interfaces, key) ==> d.name in Entry(r'.interfaces, key))
      && (key in d.capabilities && !InterfaceLocked(s) && d.name in Entry(r.capabilities, key) ==>
            d.name in Entry(r'.capabilities, key))
  {
    if step.Continue? && s.threads[step.t].ClearCapabilities? {
      assert InterfaceLocked(s);
    } else if step.Continue? {
      var r, r', p := s.registry, Apply(v, s, step).registry, s.threads[step.t];
      assert !Endangers(p, d);
      UpdateCounts(r, p.d, d.name, key);
      assert key == d.interface ==> Count(r.interfaces, key, d.name) <= Count(r'.interfaces, key, d.name);
      assert key in d.capabilities ==> Count(r.capabilities, key, d.name) <= Count(r'.capabilities, key, d.name);
    }
  }

  /** No operation becomes dangerous on its way, and no `clear` gets hold of the interface lock. */
  lemma StaysOutOfDanger(v: Versions, s: System, step: Step, d: Descriptor)
    requires WellKeyed(v, s.registry.services)
    requires Enabled(s, step) && !Endangered(s, d) && !StartsRemoval(step, d.name)
    ensures var s' := Apply(v, s, step); !Endangered(s', d) && (InterfaceLocked(s') ==> InterfaceLocked(s))
  {
    var s' := Apply(v, s, step);
    forall u | u in s'.threads
      ensures !Endangers(s'.threads[u], d)
      ensures s'.threads[u].ClearCapabilities? ==> InterfaceLocked(s)
    {
      if u in s.threads {
        assert !Endangers(s.threads[u], d);
      }
    }
  }

  lemma TrackedStep(v: Versions, s: System, step: Step, t: Thread, d: Descriptor)
    requires Tracked(v, s, t, d) && Enabled(s, step) && !StartsRemoval(step, d.name)
    ensures Tracked(v, Apply(v, s, step), t, d)
  {
    StaysOutOfDanger(v, s, step, d);
    if step == Continue(t) && Registering(s, t, d) {
      OwnStep(v, s, t, d);
    } else {
      OthersStep(v, s, step, t, d);
    }
  }

  lemma OwnStep(v: Versions, s: System, t: Thread, d: Descriptor)
    requires Tracked(v, s, t, d) && Registering(s, t, d) && Enabled(s, Continue(t))
    requires !Endangered(Resume(s, t), d)
    ensures Tracked(v, Resume(s, t), t, d)
  {
    var s' := Resume(s, t);
    if s.threads[t] == RegisterInterface(d) {
      assert Entry(s'.registry.interfaces, d.interface) == Entry(s.registry.interfaces, d.interface) + [d.name];
    } else {
      forall c | c in d.capabilities
        ensures d.name in Entry(s'.registry.capabilities, c)
      {
        PushAllCounts(s.registry.capabilities, d.capabilities, d.name, c, d.name);
        assert Count(s'.registry.capabilities, c, d.name) > 0;
      }
    }
  }

  lemma OthersStep(v: Versions, s: System, step: Step, t: Thread, d: Descriptor)
    requires Tracked(v, s, t, d) && Enabled(s, step) && !StartsRemoval(step, d.name)
    requires !(step == Continue(t) && Registering(s, t, d))
    requires var s' := Apply(v, s, step); !Endangered(s', d) && (InterfaceLocked(s') ==> InterfaceLocked(s))
    ensures Tracked(v, Apply(v, s, step), t, d)
  {
    var s' := Apply(v, s, step);
    EntriesSurvive(v, s, step, d, d.interface);
    forall c | c in d.capabilities
      ensures !InterfaceLocked(s) && d.name in Entry(s.registry.capabilities, c) ==>
              d.name in Entry(s'.registry.capabilities, c)
    {
      EntriesSurvive(v, s, step, d, c);
    }
  }

  /** Every interleaving: once a successful `register` has returned, the service is registered and listed in
      both indexes in every later state, as long as no removal that endangers it was in flight since it began. */
  lemma {:induction false} RegisteredStaysVisible(v: Versions, s: System, t: Thread, d: Descriptor, steps: seq<Step>)
    requires Tracked(v, s, t, d) && CanRun(v, s, steps) && NoRemovals(steps, d.name)
    ensures Tracked(v, After(v, s, steps), t, d)
    decreases |steps|
  {
    if steps != [] {
      assert !StartsRemoval(steps[0], d.name);
      TrackedStep(v, s, steps[0], t, d);
      RegisteredStaysVisible(v, Apply(v, s, steps[0]), t, d, steps[1..]);
    }
  }

  /** `register` will succeed. */
  predicate Registrable(v: Versions, s: System, t: Thread, d: Descriptor) {
    && Enabled(s, Register(t, d)) && v.valid(d.version) && d.name !in s.registry.services
    && WellKeyed(v, s.registry.services)
  }

  lemma RegisterBegins(v: Versions, s: System, t: Thread, d: Descriptor)
    requires Registrable(v, s, t, d) && !Endangered(s, d)
    ensures Tracked(v, Apply(v, s, Register(t, d)), t, d)
  {
    StaysOutOfDanger(v, s, Register(t, d), d);
  }

  /** And discovery by interface or capability succeeds and finds it, in any state of any interleaving. */
  lemma RegisteredIsFound(v: Versions, s: System, t: Thread, d: Descriptor, steps: seq<Step>, f: Filter)
    requires Registrable(v, s, t, d) && !Endangered(s, d)
    requires CanRun(v, Apply(v, s, Register(t, d)), steps) && NoRemovals(steps, d.name)
    requires f.interface.Some? || f.capability.Some?
    ensures var s' := After(v, Apply(v, s, Register(t, d)), steps);
      !Registering(s', t, d) && MatchesFilter(v, d, f) == Ok(true) ==>
        var r := Select(v, s'.registry.services, Candidates(s'.registry, f, []), f);
        r.Ok? && d in r.value
  {
    RegisterBegins(v, s, t, d);
    RegisteredStaysVisible(v, Apply(v, s, Register(t, d)), t, d, steps);
    var s' := After(v, Apply(v, s, Register(t, d)), steps);
    if !Registering(s', t, d) && MatchesFilter(v, d, f) == Ok(true) {
      var names := Candidates(s'.registry, f, []);
      SelectMeaning(v, s'.registry.services, names, f);
      assert d.name in names && multiset(names)[d.name] > 0;
    }
  }

  lemma {:induction false} WellKeyedAlways(v: Versions, s: System, steps: seq<Step>)
    requires WellKeyed(v, s.registry.services) && CanRun(v, s, steps)
    ensures WellKeyed(v, After(v, s, steps).registry.services)
    decreases |steps|
  {
    if steps != [] {
      WellKeyedAlways(v, Apply(v, s, steps[0]), steps[1..]);
    }
  }

  /** Every interleaving, every filter: whatever discovery returns is registered and matches. */
  lemma DiscoveryIsSound(v: Versions, s: System, steps: seq<Step>, f: Filter, order: seq<string>)
    requires WellKeyed(v, s.registry.services) && CanRun(v, s, steps)
    ensures var r := After(v, s, steps).registry;
      var found := Select(v, r.services, Candidates(r, f, order), f);
      found.Ok? ==> forall d :: d in found.value ==> Hits(v, r.services, f, d)
  {
    WellKeyedAlways(v, s, steps);
    var r := After(v, s, steps).registry;
    SelectMeaning(v, r.services, Candidates(r, f, order), f);
    var found := Select(v, r.services, Candidates(r, f, order), f);
    if found.Ok? {
      assert forall d :: d in found.value ==> multiset(found.value)[d] > 0;
    }
  }

  // ---------------------------------------------------------------- exclusive runs keep the indexes exact

  function NameOf(p: Pending): Option<string> {
    if p.ClearInterfaces? || p.ClearCapabilities? then None else Some(p.d.name)
  }

  predicate Busy(s: System, name: string) {
    exists t :: t in s.threads && NameOf(s.threads[t]) == Some(name)
  }

  predicate Clearing(s: System) {
    exists t :: t in s.threads && NameOf(s.threads[t]) == None
  }

  /** Operations on one name do not overlap, and `clear` overlaps nothing; operations on different names
      interleave freely. */
  predicate Exclusive(s: System, step: Step) {
    match step
    case Register(_, d) => !Busy(s, d.name) && !Clearing(s)
    case Unregister(_, name) => !Busy(s, name) && !Clearing(s)
    case Clear(_) => s.threads == map[]
    case Continue(_) => true
  }

  predicate ExclusiveRun(v: Versions, s: System, steps: seq<Step>)
    requires CanRun(v, s, steps)
    decreases |steps|
  {
    steps == [] || (Exclusive(s, steps[0]) && ExclusiveRun(v, Apply(v, s, steps[0]), steps[1..]))
  }

  /** What the indexes hold for the name an operation in flight is working on. */
  ghost predicate Halfway(r: Registry, p: Pending) {
    match p
    case RegisterInterface(d) =>
      Lookup(r.services, d.name) == Some(d) && InterfaceIs(r.interfaces, d.name, None) &&
        CapabilitiesAre(r.capabilities, d.name, None)
    case RegisterCapabilities(d) =>
      Lookup(r.services, d.name) == Some(d) && InterfaceIs(r.interfaces, d.name, Some(d)) &&
        CapabilitiesAre(r.capabilities, d.name, None)
    case UnregisterInterface(d) =>
      d.name !in r.services && InterfaceIs(r.interfaces, d.name, Some(d)) &&
        CapabilitiesAre(r.capabilities, d.name, Some(d))
    case UnregisterCapabilities(d) =>
      d.name !in r.services && InterfaceIs(r.interfaces, d.name, None) &&
        CapabilitiesAre(r.capabilities, d.name, Some(d))
    case ClearInterfaces => r.services == map[]
    case ClearCapabilities => r.services == map[] && r.interfaces == map[]
  }

  /** No two operations in flight work on one name, and a `clear` is alone. */
  predicate Apart(s: System) {
    forall t, u :: t in s.threads && u in s.threads && t != u ==>
      NameOf(s.threads[t]).Some? && NameOf(s.threads[t]) != NameOf(s.threads[u])
  }

  ghost predicate IdleSettled(s: System) {
    !Clearing(s) ==> forall n :: !Busy(s, n) ==> Settled(s.registry, n)
  }

  ghost predicate Orderly(v: Versions, s: System) {
    && WellKeyed(v, s.registry.services) && Apart(s) && IdleSettled(s)
    && (forall t :: t in s.threads ==> Halfway(s.registry, s.threads[t]))
  }

  /** Two registries agree about `n`. */
  ghost predicate SameFor(r: Registry, r': Registry, n: string) {
    && Lookup(r.services, n) == Lookup(r'.services, n)
    && (forall key :: Count(r.interfaces, key, n) == Count(r'.interfaces, key, n))
    && (forall key :: Count(r.capabilities, key, n) == Count(r'.capabilities, key, n))
  }

  lemma InterfaceCounts(index: Index, d: Descriptor, n: string, key: string)
    ensures Count(Push(index, d.interface, d.name), key, n)
            == Count(index, key, n) + if key == d.interface && n == d.name then 1 else 0
    ensures Count(Retain(index, d.interface, d.name), key, n)
            == if key == d.interface && n == d.name then 0 else Count(index, key, n)
  {
    MultisetSnoc(Entry(index, d.interface), d.name);
    WithoutCounts(Entry(index, d.interface), d.name, n);
  }

  /** What the four kinds of index update do to the entries of one name under one key. */
  lemma UpdateCounts(r: Registry, d: Descriptor, n: string, key: string)
    ensures Count(Push(r.interfaces, d.interface, d.name), key, n)
            == Count(r.interfaces, key, n) + if key == d.interface && n == d.name then 1 else 0
    ensures Count(Retain(r.interfaces, d.interface, d.name), key, n)
            == if key == d.interface && n == d.name then 0 else Count(r.interfaces, key, n)
    ensures Count(PushAll(r.capabilities, d.capabilities, d.name), key, n)
            == Count(r.capabilities, key, n) + if n == d.name then multiset(d.capabilities)[key] else 0
    ensures Count(RetainAll(r.capabilities, d.capabilities, d.name), key, n)
            == if n == d.name && key in d.capabilities then 0 else Count(r.capabilities, key, n)
  {
    InterfaceCounts(r.interfaces, d, n, key);
    PushAllCounts(r.capabilities, d.capabilities, d.name, key, n);
    RetainAllCounts(r.capabilities, d.capabilities, d.name, key, n);
  }

  /** A step of an operation on one name changes nothing for any other name. */
  lemma OthersUntouched(v: Versions, s: System, step: Step, n: string)
    requires Enabled(s, step)
    requires if step.Continue? then NameOf(s.threads[step.t]).Some? && NameOf(s.threads[step.t]) != Some(n)
             else (step.Register? && step.d.name != n) || (step.Unregister? && step.name != n)
    ensures SameFor(s.registry, Apply(v, s, step).registry, n)
  {
    if step.Continue? {
      forall key
        ensures Count(s.registry.interfaces, key, n) == Count(Apply(v, s, step).registry.interfaces, key, n)
        ensures Count(s.registry.capabilities, key, n) == Count(Apply(v, s, step).registry.capabilities, key, n)
      {
        UpdateCounts(s.registry, s.threads[step.t].d, n, key);
      }
    }
  }

  lemma OwnInterface(s: System, t: Thread)
    requires t in s.threads && (s.threads[t].RegisterInterface? || s.threads[t].UnregisterInterface?)
    requires Halfway(s.registry, s.threads[t])
    ensures var s' := Resume(s, t); t in s'.threads && Halfway(s'.registry, s'.threads[t])
  {
    var r, d := s.registry, s.threads[t].d;
    forall key
      ensures Count(Push(r.interfaces, d.interface, d.name), key, d.name) == Count(r.interfaces, key, d.name) +
              if key == d.interface then 1 else 0
      ensures Count(Retain(r.interfaces, d.interface, d.name), key, d.name)
              == if key == d.interface then 0 else Count(r.interfaces, key, d.name)
    {
      UpdateCounts(r, d, d.name, key);
    }
  }

  lemma OwnCapabilities(s: System, t: Thread)
    requires t in s.threads && (s.threads[t].RegisterCapabilities? || s.threads[t].UnregisterCapabilities?)
    requires Halfway(s.registry, s.threads[t])
    ensures var s' := Resume(s, t); t !in s'.threads && Settled(s'.registry, s.threads[t].d.name)
  {
    var r, d := s.registry, s.threads[t].d;
    forall key
      ensures Count(PushAll(r.capabilities, d.capabilities, d.name), key, d.name) ==
              Count(r.capabilities, key, d.name) + multiset(d.capabilities)[key]
      ensures Count(RetainAll(r.capabilities, d.capabilities, d.name), key, d.name)
              == if key in d.capabilities then 0 else Count(r.capabilities, key, d.name)
    {
      UpdateCounts(r, d, d.name, key);
    }
  }

  /** The name an operation works on moves to the next stage. */
  lemma OwnName(s: System, t: Thread)
    requires t in s.threads && NameOf(s.threads[t]).Some? && Halfway(s.registry, s.threads[t])
    ensures var s' := Resume(s, t);
      if t in s'.threads then Halfway(s'.registry, s'.threads[t]) else Settled(s'.registry, s.threads[t].d.name)
  {
    match s.threads[t]
    case RegisterInterface(_) => OwnInterface(s, t);
    case UnregisterInterface(_) => OwnInterface(s, t);
    case RegisterCapabilities(_) => OwnCapabilities(s, t);
    case UnregisterCapabilities(_) => OwnCapabilities(s, t);
  }

  lemma HalfwayForSame(r: Registry, r': Registry, p: Pending)
    requires NameOf(p).Some? && Halfway(r, p) && SameFor(r, r', p.d.name)
    ensures Halfway(r', p)
  {
  }

  lemma SettledForSame(r: Registry, r': Registry, n: string)
    requires Settled(r, n) && SameFor(r, r', n)
    ensures Settled(r', n)
  {
  }

  lemma OrderlyClear(v: Versions, s: System, step: Step)
    requires Orderly(v, s) && Enabled(s, step)
    requires if step.Continue? then NameOf(s.threads[step.t]) == None else step.Clear? && s.threads == map[]
    ensures Orderly(v, Apply(v, s, step))
  {
    var s' := Apply(v, s, step);
    assert s'.threads.Keys <= {step.t};
    if step.t in s'.threads {
      assert NameOf(s'.threads[step.t]) == None;
    }
  }

  /** The name an operation step works on. */
  function NameAt(s: System, step: Step): Option<string>
    requires Enabled(s, step)
  {
    match step
    case Register(_, d) => Some(d.name)
    case Unregister(_, n) => Some(n)
    case Continue(t) => NameOf(s.threads[t])
    case Clear(_) => None
  }

  /** A step on one name leaves the operations on other names where they were. */
  lemma OthersStayHalfway(v: Versions, s: System, step: Step, u: Thread)
    requires Orderly(v, s) && Enabled(s, step) && Exclusive(s, step) && NameAt(s, step).Some?
    requires u in s.threads && u != step.t
    ensures var s' := Apply(v, s, step);
      && u in s'.threads && s'.threads[u] == s.threads[u] && Halfway(s'.registry, s'.threads[u])
      && NameOf(s.threads[u]).Some? && NameOf(s.threads[u]) != NameAt(s, step)
  {
    assert !step.Continue? ==> !Clearing(s) && !Busy(s, NameAt(s, step).value);
    var n := s.threads[u].d.name;
    OthersUntouched(v, s, step, n);
    HalfwayForSame(s.registry, Apply(v, s, step).registry, s.threads[u]);
  }

  /** And the one it belongs to gets to its next stage. */
  lemma OwnStaysHalfway(v: Versions, s: System, step: Step)
    requires Orderly(v, s) && Enabled(s, step) && Exclusive(s, step) && NameAt(s, step).Some?
    ensures var s', t, name := Apply(v, s, step), step.t, NameAt(s, step).value;
      if t in s'.threads then NameOf(s'.threads[t]) == Some(name) && Halfway(s'.registry, s'.threads[t])
      else Settled(s'.registry, name)
  {
    if step.Continue? {
      OwnName(s, step.t);
    } else {
      assert !Clearing(s) && Settled(s.registry, NameAt(s, step).value);
    }
  }

  /** A name nobody is working on stays settled. */
  lemma IdleStaysSettled(v: Versions, s: System, step: Step, n: string)
    requires Orderly(v, s) && Enabled(s, step) && Exclusive(s, step) && NameAt(s, step).Some? && !Clearing(s)
    requires NameAt(s, step) != Some(n) && !Busy(Apply(v, s, step), n)
    ensures Settled(Apply(v, s, step).registry, n)
  {
    assert !Busy(s, n) by {
      forall u | u in s.threads
        ensures NameOf(s.threads[u]) != Some(n)
      {
        if u != step.t {
          OthersStayHalfway(v, s, step, u);
        }
      }
    }
    OthersUntouched(v, s, step, n);
    SettledForSame(s.registry, Apply(v, s, step).registry, n);
  }

  lemma NoClearBeside(v: Versions, s: System, step: Step)
    requires Orderly(v, s) && Enabled(s, step) && Exclusive(s, step) && NameAt(s, step).Some?
    ensures !Clearing(s) && !Clearing(Apply(v, s, step))
  {
    OwnStaysHalfway(v, s, step);
    forall u | u in Apply(v, s, step).threads
      ensures NameOf(Apply(v, s, step).threads[u]).Some?
    {
      if u != step.t {
        OthersStayHalfway(v, s, step, u);
      }
    }
  }

  lemma OrderlyNamed(v: Versions, s: System, step: Step)
    requires Orderly(v, s) && Enabled(s, step) && Exclusive(s, step) && NameAt(s, step).Some?
    ensures Orderly(v, Apply(v, s, step))
  {
    StaysApart(v, s, step);
    OwnStaysHalfway(v, s, step);
    forall u | u in Apply(v, s, step).threads && u != step.t
      ensures Halfway(Apply(v, s, step).registry, Apply(v, s, step).threads[u])
    {
      OthersStayHalfway(v, s, step, u);
    }
    StaysIdleSettled(v, s, step);
  }

  lemma StaysApart(v: Versions, s: System, step: Step)
    requires Orderly(v, s) && Enabled(s, step) && Exclusive(s, step) && NameAt(s, step).Some?
    ensures Apart(Apply(v, s, step))
  {
    var s' := Apply(v, s, step);
    OwnStaysHalfway(v, s, step);
    forall u | u in s'.threads && u != step.t
      ensures u in s.threads && s'.threads[u] == s.threads[u]
      ensures NameOf(s.threads[u]).Some? && NameOf(s.threads[u]) != NameAt(s, step)
    {
      OthersStayHalfway(v, s, step, u);
    }
  }

  lemma StaysIdleSettled(v: Versions, s: System, step: Step)
    requires Orderly(v, s) && Enabled(s, step) && Exclusive(s, step) && NameAt(s, step).Some?
    ensures IdleSettled(Apply(v, s, step))
  {
    var s', name := Apply(v, s, step), NameAt(s, step).value;
    NoClearBeside(v, s, step);
    OwnStaysHalfway(v, s, step);
    forall n | !Busy(s', n)
      ensures Settled(s'.registry, n)
    {
      if n != name {
        IdleStaysSettled(v, s, step, n);
      }
    }
  }

  lemma OrderlyStep(v: Versions, s: System, step: Step)
    requires Orderly(v, s) && Enabled(s, step) && Exclusive(s, step)
    ensures Orderly(v, Apply(v, s, step))
  {
    if NameAt(s, step) == None {
      OrderlyClear(v, s, step);
    } else {
      OrderlyNamed(v, s, step);
    }
  }

  lemma {:induction false} OrderlyAlways(v: Versions, s: System, steps: seq<Step>)
    requires Orderly(v, s) && CanRun(v, s, steps) && ExclusiveRun(v, s, steps)
    ensures Orderly(v, After(v, s, steps))
    decreases |steps|
  {
    if steps != [] {
      OrderlyStep(v, s, steps[0]);
      OrderlyAlways(v, Apply(v, s, steps[0]), steps[1..]);
    }
  }

  /** Every exclusive run: whenever nothing is in flight, both indexes are exact, so discovery equals a scan. */
  lemma QuietMeansExact(v: Versions, s: System, steps: seq<Step>)
    requires s == System(Registry(map[], map[], map[]), map[]) && CanRun(v, s, steps) && ExclusiveRun(v, s, steps)
    ensures var s' := After(v, s, steps); s'.threads == map[] ==> Exact(v, s'.registry)
  {
    OrderlyAlways(v, s, steps);
    var s' := After(v, s, steps);
    if s'.threads == map[] {
      assert !Clearing(s') && forall n :: !Busy(s', n);
    }
  }

  // ---------------------------------------------------------------- one operation at a time

  lemma ExactIsOrderly(v: Versions, r: Registry)
    ensures Exact(v, r) <==> Orderly(v, System(r, map[]))
  {
    var s := System(r, map[]);
    assert !Clearing(s) && forall n :: !Busy(s, n);
  }

  function Registered(r: Registry, d: Descriptor): Registry {
    Registry(r.services[d.name := d], Push(r.interfaces, d.interface, d.name),
      PushAll(r.capabilities, d.capabilities, d.name))
  }

  function Unregistered(r: Registry, d: Descriptor): Registry {
    Registry(r.services - {d.name}, Retain(r.interfaces, d.interface, d.name),
      RetainAll(r.capabilities, d.capabilities, d.name))
  }

  lemma RegisteredIsExact(v: Versions, r: Registry, d: Descriptor)
    requires Exact(v, r) && v.valid(d.version) && d.name !in r.services
    ensures Exact(v, Registered(r, d))
  {
    ExactIsOrderly(v, r);
    var s := System(r, map[]);
    OrderlyStep(v, s, Register(0, d));
    var s1 := Apply(v, s, Register(0, d));
    OrderlyStep(v, s1, Continue(0));
    var s2 := Apply(v, s1, Continue(0));
    OrderlyStep(v, s2, Continue(0));
    assert Apply(v, s2, Continue(0)) == System(Registered(r, d), map[]);
    ExactIsOrderly(v, Registered(r, d));
  }

  lemma UnregisteredIsExact(v: Versions, r: Registry, name: string)
    requires Exact(v, r) && name in r.services
    ensures Exact(v, Unregistered(r, r.services[name]))
  {
    var d := r.services[name];
    ExactIsOrderly(v, r);
    var s := System(r, map[]);
    OrderlyStep(v, s, Unregister(0, name));
    var s1 := Apply(v, s, Unregister(0, name));
    OrderlyStep(v, s1, Continue(0));
    var s2 := Apply(v, s1, Continue(0));
    OrderlyStep(v, s2, Continue(0));
    assert Apply(v, s2, Continue(0)) == System(Unregistered(r, d), map[]);
    ExactIsOrderly(v, Unregistered(r, d));
  }
}
