/** The registry as an object, one operation at a time, and the results of discovery down to number and order. */
module DiscoveryService {
  import opened Wrappers
  import opened Discovery

  // ---------------------------------------------------------------- how often a service is returned

  /** How often discovery returns a service it finds: once, or by capability as often as the service lists it. */
  function Times(d: Descriptor, f: Filter): nat {
    if f.interface.None? && f.capability.Some? then multiset(d.capabilities)[f.capability.value] else 1
  }

  lemma CandidatesCount(v: Versions, r: Registry, f: Filter, order: seq<string>, d: Descriptor)
    requires Exact(v, r) && Enumerates(order, r.services) && Hits(v, r.services, f, d)
    ensures multiset(Candidates(r, f, order))[d.name] == Times(d, f)
  {
    assert Settled(r, d.name);
    if f.interface.Some? {
      assert Count(r.interfaces, f.interface.value, d.name) == 1;
    } else if f.capability.Some? {
      assert Count(r.capabilities, f.capability.value, d.name) == multiset(d.capabilities)[f.capability.value];
    }
  }

  lemma DiscoveryMeaning(v: Versions, r: Registry, f: Filter, order: seq<string>)
    requires Exact(v, r) && Enumerates(order, r.services)
    ensures var found := Select(v, r.services, Candidates(r, f, order), f);
      && (found.Err? <==> exists n :: n in r.services && MatchesFilter(v, r.services[n], f).Err?)
      && (found.Err? ==> found.error == BadBound(v, f))
      && (found.Ok? ==> forall d :: multiset(found.value)[d] == if Hits(v, r.services, f, d) then Times(d, f) else 0)
  {
    IndexRefinesScan(v, r, f, order);
    SelectMeaning(v, r.services, order, f);
    assert forall n :: n in r.services ==> multiset(order)[n] == 1;
    var names := Candidates(r, f, order);
    SelectMeaning(v, r.services, names, f);
    forall d | Hits(v, r.services, f, d)
      ensures multiset(names)[d.name] == Times(d, f)
    {
      CandidatesCount(v, r, f, order, d);
    }
  }

  // ---------------------------------------------------------------- in which order

  /** `since[n]` numbers the registration of `n`: later ones have larger numbers. */
  type Serial = map<string, nat>

  predicate Sorted(names: seq<string>, since: Serial) {
    && (forall i :: 0 <= i < |names| ==> names[i] in since)
    && (forall i, j :: 0 <= i < j < |names| ==> since[names[i]] <= since[names[j]])
  }

  /** Every index entry lists its names in order of registration. */
  ghost predicate Chronological(r: Registry, since: Serial, next: nat) {
    && (forall n :: n in r.services ==> n in since)
    && (forall n :: n in since ==> since[n] < next)
    && (forall m, n :: m in r.services && n in r.services && m != n ==> since[m] != since[n])
    && (forall key :: Sorted(Entry(r.interfaces, key), since))
    && (forall key :: Sorted(Entry(r.capabilities, key), since))
  }

  lemma {:induction false} WithoutIsSorted(names: seq<string>, name: string, since: Serial)
    requires Sorted(names, since)
    ensures Sorted(Without(names, name), since)
    ensures forall x :: x in Without(names, name) ==> x in names
    decreases |names|
  {
    if names != [] {
      var front, last := names[..|names| - 1], names[|names| - 1];
      assert names == front + [last];
      WithoutIsSorted(front, name, since);
      forall x | x in Without(front, name)
        ensures since[x] <= since[last]
      {
        var i :| 0 <= i < |front| && front[i] == x;
        assert since[names[i]] <= since[names[|names| - 1]];
      }
    }
  }

  lemma {:induction false} RetainAllIsSorted(index: Index, keys: seq<string>, name: string, since: Serial, key: string)
    requires forall k :: Sorted(Entry(index, k), since)
    ensures Sorted(Entry(RetainAll(index, keys, name), key), since)
    decreases |keys|
  {
    if keys != [] {
      RetainAllIsSorted(index, keys[..|keys| - 1], name, since, key);
      WithoutIsSorted(Entry(RetainAll(index, keys[..|keys| - 1], name), key), name, since);
    }
  }

  /** The newest name may be added at the end of any entry. */
  lemma {:induction false} PushAllIsSorted(index: Index, keys: seq<string>, name: string, since: Serial, key: string)
    requires name in since && (forall n :: n in since ==> since[n] <= since[name])
    requires forall k :: Sorted(Entry(index, k), since)
    ensures Sorted(Entry(PushAll(index, keys, name), key), since)
    decreases |keys|
  {
    if keys != [] {
      PushAllIsSorted(index, keys[..|keys| - 1], name, since, key);
    }
  }

  /** A name that is not registered is in no entry, so it may get a new number. */
  lemma RenumberKeepsSorted(v: Versions, r: Registry, since: Serial, next: nat, name: string, key: string)
    requires Exact(v, r) && Chronological(r, since, next) && name !in r.services
    ensures Sorted(Entry(r.interfaces, key), since[name := next])
    ensures Sorted(Entry(r.capabilities, key), since[name := next])
  {
    assert Settled(r, name);
    assert Count(r.interfaces, key, name) == 0 && Count(r.capabilities, key, name) == 0;
    assert name !in Entry(r.interfaces, key) && name !in Entry(r.capabilities, key);
    SameNumbers(Entry(r.interfaces, key), since, name, next);
    SameNumbers(Entry(r.capabilities, key), since, name, next);
  }

  lemma SameNumbers(names: seq<string>, since: Serial, name: string, next: nat)
    requires Sorted(names, since) && name !in names
    ensures Sorted(names, since[name := next])
  {
    assert forall i :: 0 <= i < |names| ==> names[i] in names && names[i] != name;
  }

  lemma PushedIsSorted(v: Versions, r: Registry, since: Serial, next: nat, d: Descriptor, key: string)
    requires Exact(v, r) && Chronological(r, since, next) && d.name !in r.services
    ensures Sorted(Entry(Registered(r, d).interfaces, key), since[d.name := next])
    ensures Sorted(Entry(Registered(r, d).capabilities, key), since[d.name := next])
  {
    var since' := since[d.name := next];
    forall k
      ensures Sorted(Entry(r.interfaces, k), since') && Sorted(Entry(r.capabilities, k), since')
    {
      RenumberKeepsSorted(v, r, since, next, d.name, k);
    }
    assert forall n :: n in since' ==> since'[n] <= since'[d.name];
    PushAllIsSorted(r.interfaces, [d.interface], d.name, since', key);
    OnePush(r.interfaces, d.interface, d.name);
    PushAllIsSorted(r.capabilities, d.capabilities, d.name, since', key);
  }

  lemma RegisteredIsChronological(v: Versions, r: Registry, since: Serial, next: nat, d: Descriptor)
    requires Exact(v, r) && Chronological(r, since, next) && d.name !in r.services
    ensures Chronological(Registered(r, d), since[d.name := next], next + 1)
  {
    var since', r' := since[d.name := next], Registered(r, d);
    assert r'.services == r.services[d.name := d];
    forall key
      ensures Sorted(Entry(r'.interfaces, key), since') && Sorted(Entry(r'.capabilities, key), since')
    {
      PushedIsSorted(v, r, since, next, d, key);
    }
  }

  lemma OnePush(index: Index, key: string, name: string)
    ensures PushAll(index, [key], name) == Push(index, key, name)
  {
    assert [key][..0] == [];
  }

  lemma UnregisteredIsChronological(r: Registry, since: Serial, next: nat, d: Descriptor)
    requires Chronological(r, since, next)
    ensures Chronological(Unregistered(r, d), since, next)
  {
    var r' := Unregistered(r, d);
    forall key
      ensures Sorted(Entry(r'.interfaces, key), since) && Sorted(Entry(r'.capabilities, key), since)
    {
      WithoutIsSorted(Entry(r.interfaces, key), d.name, since);
      RetainAllIsSorted(r.capabilities, d.capabilities, d.name, since, key);
    }
  }

  /** What every operation keeps. */
  ghost predicate Consistent(v: Versions, r: Registry, since: Serial, next: nat) {
    Exact(v, r) && Chronological(r, since, next)
  }

  lemma RegisteredKeeps(v: Versions, r: Registry, since: Serial, next: nat, d: Descriptor)
    requires Consistent(v, r, since, next) && v.valid(d.version) && d.name !in r.services
    ensures Consistent(v, Registered(r, d), since[d.name := next], next + 1)
  {
    RegisteredIsExact(v, r, d);
    RegisteredIsChronological(v, r, since, next, d);
  }

  lemma UnregisteredKeeps(v: Versions, r: Registry, since: Serial, next: nat, name: string)
    requires Consistent(v, r, since, next) && name in r.services
    ensures r.services[name].name == name && Consistent(v, Unregistered(r, r.services[name]), since, next)
  {
    UnregisteredIsExact(v, r, name);
    UnregisteredIsChronological(r, since, next, r.services[name]);
  }

  predicate SortedServices(found: seq<Descriptor>, since: Serial) {
    && (forall i :: 0 <= i < |found| ==> found[i].name in since)
    && (forall i, j :: 0 <= i < j < |found| ==> since[found[i].name] <= since[found[j].name])
  }

  lemma SortedServicesSnoc(found: seq<Descriptor>, d: Descriptor, names: seq<string>, since: Serial)
    requires SortedServices(found, since) && (forall x :: x in found ==> x.name in names)
    requires Sorted(names + [d.name], since)
    ensures SortedServices(found + [d], since)
  {
    var all := names + [d.name];
    assert all[|names|] == d.name;
    forall i | 0 <= i < |found|
      ensures since[found[i].name] <= since[d.name]
    {
      assert found[i] in found;
      var k :| 0 <= k < |names| && names[k] == found[i].name;
      assert since[all[k]] <= since[all[|names|]];
    }
  }

  /** The filter loop keeps the order of the names it is given. */
  lemma {:induction false} SelectIsSorted(v: Versions, services: map<string, Descriptor>, names: seq<string>, f: Filter,
                                          since: Serial)
    requires WellKeyed(v, services) && Sorted(names, since) && Select(v, services, names, f).Ok?
    ensures var found := Select(v, services, names, f).value;
      SortedServices(found, since) && forall d :: d in found ==> d.name in names
    decreases |names|
  {
    if names != [] {
      var front, last := names[..|names| - 1], names[|names| - 1];
      assert names == front + [last];
      SelectIsSorted(v, services, front, f, since);
      if last in services {
        SortedServicesSnoc(Select(v, services, front, f).value, services[last], front, since);
      }
    }
  }

  // ---------------------------------------------------------------- the object

  class ServiceDiscovery {
    const versions: Versions
    var services: map<string, Descriptor>
    var interfaces: Index
    var capabilities: Index
    ghost var since: Serial
    ghost var next: nat

    ghost function State(): Registry
      reads this
    {
      Registry(services, interfaces, capabilities)
    }

    ghost predicate Valid()
      reads this
    {
      Consistent(versions, State(), since, next)
    }

    constructor (v: Versions)
      ensures Valid() && versions == v && services == map[]
    {
      versions := v;
      services, interfaces, capabilities := map[], map[], map[];
      since, next := map[], 0;
    }

    method Register(d: Descriptor) returns (r: Result<(), Error>)
      requires Valid()
      modifies this
      ensures Valid()
      ensures r == if !versions.valid(d.version) then Err(InvalidVersion(d.version))
                   else if d.name in old(services) then Err(AlreadyRegistered(d.name))
                   else Ok(())
      ensures State() == if r.Ok? then Registered(old(State()), d) else old(State())
      ensures r.Ok? ==> next > old(next) && since == old(since)[d.name := old(next)]
      ensures r.Err? ==> next == old(next) && since == old(since)
    {
      if !versions.valid(d.version) {
        return Err(InvalidVersion(d.version));
      }
      if d.name in services {
        return Err(AlreadyRegistered(d.name));
      }
      RegisteredKeeps(versions, State(), since, next, d);
      since, next := since[d.name := next], next + 1;
      services := services[d.name := d];
      interfaces := Push(interfaces, d.interface, d.name);
      capabilities := PushCapabilities(capabilities, d.capabilities, d.name);
      assert State() == Registered(old(State()), d);
      return Ok(());
    }

    method Unregister(name: string) returns (removed: bool)
      requires Valid()
      modifies this
      ensures Valid()
      ensures removed == (name in old(services)) && services == old(services) - {name}
      ensures State() == if removed then Unregistered(old(State()), old(services)[name]) else old(State())
      ensures since == old(since) && next == old(next)
    {
      if name !in services {
        assert services - {name} == services;
        return false;
      }
      var d := services[name];
      UnregisteredKeeps(versions, State(), since, next, name);
      services := services - {name};
      interfaces := Retain(interfaces, d.interface, name);
      capabilities := RetainCapabilities(capabilities, d.capabilities, name);
      assert State() == Unregistered(old(State()), d);
      return true;
    }

    method Clear()
      modifies this
      ensures Valid() && services == map[] && next == old(next)
    {
      services, interfaces, capabilities := map[], map[], map[];
      since := map[];
    }

    /** Fails exactly when some service passes the checks that precede the version bounds and a bound does not
        parse; otherwise returns exactly the registered services that match, each once, or by capability as often as
        it lists that capability.  By interface or capability they come in order of registration. */
    method Discover(f: Filter) returns (r: Result<seq<Descriptor>, Error>)
      requires Valid()
      ensures r.Err? <==> exists n :: n in services && MatchesFilter(versions, services[n], f).Err?
      ensures r.Err? ==> r.error == BadBound(versions, f)
      ensures r.Ok? ==>
                forall d :: multiset(r.value)[d] == if Hits(versions, services, f, d) then Times(d, f) else 0
      ensures r.Ok? && (f.interface.Some? || f.capability.Some?) ==> SortedServices(r.value, since)
    {
      var order := KeysInSomeOrder(services);
      DiscoveryMeaning(versions, State(), f, order);
      var names := Candidates(Registry(services, interfaces, capabilities), f, order);
      r := ApplyFilter(versions, services, names, f);
      if r.Ok? && (f.interface.Some? || f.capability.Some?) {
        SelectIsSorted(versions, services, names, f, since);
      }
    }
  }

  method PushCapabilities(index: Index, keys: seq<string>, name: string) returns (r: Index)
    ensures r == PushAll(index, keys, name)
  {
    r := index;
    for i := 0 to |keys|
      invariant r == PushAll(index, keys[..i], name)
    {
      assert keys[..i + 1][..i] == keys[..i];
      r := Push(r, keys[i], name);
    }
    assert keys[..|keys|] == keys;
  }

  method RetainCapabilities(index: Index, keys: seq<string>, name: string) returns (r: Index)
    ensures r == RetainAll(index, keys, name)
  {
    r := index;
    for i := 0 to |keys|
      invariant r == RetainAll(index, keys[..i], name)
    {
      assert keys[..i + 1][..i] == keys[..i];
      r := Retain(r, keys[i], name);
    }
    assert keys[..|keys|] == keys;
  }

  /** The loop of `discover`, which stops at the first error. */
  method ApplyFilter(v: Versions, services: map<string, Descriptor>, names: seq<string>, f: Filter)
      returns (r: Result<seq<Descriptor>, Error>)
    ensures r == Select(v, services, names, f)
  {
    var results: seq<Descriptor> := [];
    for i := 0 to |names|
      invariant Select(v, services, names[..i], f) == Ok(results)
    {
      assert names[..i + 1][..i] == names[..i];
      if names[i] in services {
        var hit := MatchesFilter(v, services[names[i]], f);
        if hit.Err? {
          ErrorIsFinal(v, services, names, i + 1, f);
          return Err(hit.error);
        }
        if hit.value {
          results := results + [services[names[i]]];
        }
      }
    }
    assert names[..|names|] == names;
    return Ok(results);
  }

  lemma {:induction false} ErrorIsFinal(v: Versions, services: map<string, Descriptor>, names: seq<string>, k: nat,
                                        f: Filter)
    requires k <= |names| && Select(v, services, names[..k], f).Err?
    ensures Select(v, services, names, f) == Select(v, services, names[..k], f)
    decreases |names|
  {
    if k == |names| {
      assert names[..k] == names;
    } else {
      var front := names[..|names| - 1];
      assert front[..k] == names[..k];
      ErrorIsFinal(v, services, front, k, f);
    }
  }

  method KeysInSomeOrder(services: map<string, Descriptor>) returns (order: seq<string>)
    ensures Enumerates(order, services)
  {
    order := [];
    var left := services.Keys;
    while left != {}
      invariant left <= services.Keys
      invariant forall n :: multiset(order)[n] == if n in services && n !in left then 1 else 0
      decreases left
    {
      var n :| n in left;
      MultisetSnoc(order, n);
      order := order + [n];
      left := left - {n};
    }
  }
}
