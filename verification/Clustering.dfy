/**
 The replicated service registry: version vectors, conflict detection and last-write-wins merging.
 */
module Clustering {
  import opened Wrappers

  type Vector = map<string, nat>

  datatype Service = Service(id: string, name: string, version: string, node: string, address: string, port: nat,
                             metadata: map<string, string>, registeredAt: nat, vector: Vector)

  type Services = map<string, Service>

  // ---------------------------------------------------------------- version vectors

  /** A missing counter reads as zero. */
  function At(a: Vector, key: string): nat {
    if key in a then a[key] else 0
  }

  ghost predicate Dominates(a: Vector, b: Vector) {
    (forall k :: At(a, k) >= At(b, k)) && exists k :: At(a, k) > At(b, k)
  }

  /** The early-exit loop, whatever order the keys come in. */
  method VersionVectorDominates(a: Vector, b: Vector) returns (dominates: bool)
    ensures dominates <==> Dominates(a, b)
  {
    var keys := a.Keys + b.Keys;
    var greaterOrEqual, strictlyGreater := true, false;
    while keys != {}
      invariant greaterOrEqual
      invariant keys <= a.Keys + b.Keys
      invariant forall k :: k !in keys ==> At(a, k) >= At(b, k)
      invariant strictlyGreater <==> exists k :: k !in keys && At(a, k) > At(b, k)
      decreases keys
    {
      var key :| key in keys;
      if At(a, key) < At(b, key) {
        greaterOrEqual := false;
        break;
      }
      if At(a, key) > At(b, key) {
        strictlyGreater := true;
      }
      keys := keys - {key};
    }
    dominates := greaterOrEqual && strictlyGreater;
  }

  ghost predicate SameCounters(a: Vector, b: Vector) {
    forall k :: At(a, k) == At(b, k)
  }

  predicate NoZeros(a: Vector) {
    forall k :: k in a ==> a[k] > 0
  }

  /** Neither dominates and the maps differ: what the code calls a conflict. */
  ghost predicate Conflict(a: Vector, b: Vector) {
    !Dominates(a, b) && !Dominates(b, a) && a != b
  }

  /** Each vector is strictly ahead of the other somewhere. */
  ghost predicate Concurrent(a: Vector, b: Vector) {
    (exists k :: At(a, k) > At(b, k)) && exists k :: At(b, k) > At(a, k)
  }

  lemma DominanceIsAStrictOrder(a: Vector, b: Vector, c: Vector)
    ensures !Dominates(a, a)
    ensures Dominates(a, b) ==> !Dominates(b, a)
    ensures Dominates(a, b) && Dominates(b, c) ==> Dominates(a, c)
  {
    if Dominates(a, b) && Dominates(b, c) {
      var k :| At(a, k) > At(b, k);
      assert At(b, k) >= At(c, k);
    }
  }

  /** A conflict is concurrency, or two spellings of the same counters that differ in stored zeros. */
  lemma ConflictMeans(a: Vector, b: Vector)
    ensures Conflict(a, b) <==> Concurrent(a, b) || (SameCounters(a, b) && a != b)
    ensures Conflict(a, b) == Conflict(b, a)
  {
    if Conflict(a, b) && !Concurrent(a, b) {
      assert (forall k :: At(a, k) >= At(b, k)) || (forall k :: At(b, k) >= At(a, k));
      assert SameCounters(a, b);
    }
  }

  lemma SameCountersWithoutZeros(a: Vector, b: Vector)
    requires NoZeros(a) && NoZeros(b) && SameCounters(a, b)
    ensures a == b
  {
    forall k
      ensures k in a <==> k in b
      ensures k in a ==> a[k] == b[k]
    {
      assert At(a, k) == At(b, k);
    }
  }

  /** Without stored zeros exactly one of the four relations holds. */
  lemma ExactlyOneRelation(a: Vector, b: Vector)
    requires NoZeros(a) && NoZeros(b)
    ensures Conflict(a, b) <==> Concurrent(a, b)
    ensures multiset{Dominates(a, b), Dominates(b, a), a == b, Conflict(a, b)}[true] == 1
  {
    ConflictMeans(a, b);
    DominanceIsAStrictOrder(a, b, a);
    DominanceIsAStrictOrder(b, a, b);
    if SameCounters(a, b) {
      SameCountersWithoutZeros(a, b);
    }
  }

  // ---------------------------------------------------------------- merging

  ghost function Resolve(local: Service, remote: Service): Service {
    if !Conflict(local.vector, remote.vector) then local
    else if remote.registeredAt >= local.registeredAt then remote
    else local
  }

  ghost function Merge(services: Services, remote: Service): Services {
    services[remote.id := if remote.id in services then Resolve(services[remote.id], remote) else remote]
  }

  ghost function MergeAll(services: Services, batch: seq<Service>): Services
    decreases |batch|
  {
    if batch == [] then services else Merge(MergeAll(services, batch[..|batch| - 1]), batch[|batch| - 1])
  }

  predicate WellKeyed(services: Services) {
    forall id :: id in services ==> services[id].id == id
  }

  class ServiceCluster {
    var services: Services

    constructor ()
      ensures services == map[]
    {
      services := map[];
    }

    method RegisterService(service: Service)
      requires WellKeyed(services)
      modifies this
      ensures services == old(services)[service.id := service] && WellKeyed(services)
    {
      services := services[service.id := service];
    }

    method SyncFromRemoteServices(remote: seq<Service>)
      requires WellKeyed(services)
      modifies this
      ensures services == MergeAll(old(services), remote) && WellKeyed(services)
    {
      for i := 0 to |remote|
        invariant services == MergeAll(old(services), remote[..i]) && WellKeyed(services)
      {
        assert remote[..i + 1][..i] == remote[..i];
        var r := remote[i];
        if r.id in services {
          var local := services[r.id];
          var conflict := DetectVersionConflict(local.vector, r.vector);
          if conflict {
            var resolved := if r.registeredAt >= local.registeredAt then r else local;
            services := services[resolved.id := resolved];
          } else {
            assert services == services[r.id := local];
          }
        } else {
          services := services[r.id := r];
        }
      }
      assert remote[..|remote|] == remote;
    }
  }

  method DetectVersionConflict(local: Vector, remote: Vector) returns (conflict: bool)
    ensures conflict == Conflict(local, remote)
  {
    var localDominates := VersionVectorDominates(local, remote);
    var remoteDominates := VersionVectorDominates(remote, local);
    conflict := !localDominates && !remoteDominates && local != remote;
  }

  // ---------------------------------------------------------------- one id at a time

  function Lookup(services: Services, id: string): Option<Service> {
    if id in services then Some(services[id]) else None
  }

  ghost function Receive(held: Option<Service>, remote: Service): Option<Service> {
    Some(if held.Some? then Resolve(held.value, remote) else remote)
  }

  /** What becomes of one id: the other entries of the batch play no part. */
  ghost function Follow(held: Option<Service>, batch: seq<Service>, id: string): Option<Service>
    decreases |batch|
  {
    if batch == [] then held else
    var last := batch[|batch| - 1];
    var before := Follow(held, batch[..|batch| - 1], id);
    if last.id == id then Receive(before, last) else before
  }

  lemma {:induction false} MergeAllFollows(services: Services, batch: seq<Service>, id: string)
    ensures Lookup(MergeAll(services, batch), id) == Follow(Lookup(services, id), batch, id)
    decreases |batch|
  {
    if batch != [] {
      MergeAllFollows(services, batch[..|batch| - 1], id);
    }
  }

  lemma SameLookups(a: Services, b: Services)
    requires forall id :: Lookup(a, id) == Lookup(b, id)
    ensures a == b
  {
    forall id
      ensures id in a <==> id in b
      ensures id in a ==> a[id] == b[id]
    {
      assert Lookup(a, id) == Lookup(b, id);
    }
  }

  // ---------------------------------------------------------------- what every sync keeps

  /** No id disappears, no timestamp decreases, and every stored service was local or received. */
  lemma {:induction false} SyncKeeps(services: Services, batch: seq<Service>, id: string)
    ensures var before, after := Lookup(services, id), Lookup(MergeAll(services, batch), id);
      && (before.Some? ==> after.Some? && before.value.registeredAt <= after.value.registeredAt)
      && (after.Some? ==> after == before || (after.value in batch && after.value.id == id))
    decreases |batch|
  {
    if batch != [] {
      var front, last := batch[..|batch| - 1], batch[|batch| - 1];
      assert batch == front + [last];
      SyncKeeps(services, front, id);
    }
  }

  lemma {:induction false} MergeAllConcat(services: Services, a: seq<Service>, b: seq<Service>)
    ensures MergeAll(services, a + b) == MergeAll(MergeAll(services, a), b)
    decreases |b|
  {
    if b == [] {
      assert a + b == a;
    } else {
      assert (a + b)[..|a + b| - 1] == a + b[..|b| - 1];
      MergeAllConcat(services, a, b[..|b| - 1]);
    }
  }

  /** One entry for a known id: it is stored exactly if it is in conflict with the stored one and not older, or is
      that one; otherwise the stored one stays. */
  lemma SyncOneIff(services: Services, remote: Service)
    requires remote.id in services
    ensures var local, now := services[remote.id], Lookup(MergeAll(services, [remote]), remote.id);
      && (now == Some(remote) <==>
            local == remote || (Conflict(local.vector, remote.vector) && local.registeredAt <= remote.registeredAt))
      && (now != Some(remote) ==> now == Some(local))
  {
    assert [remote][..0] == [];
    assert MergeAll(services, [remote]) == Merge(services, remote);
  }

  /** Different versions of `id` are in conflict. */
  ghost predicate PairwiseInConflict(held: Option<Service>, batch: seq<Service>, id: string) {
    forall a, b :: Knows(held, batch, id, a) && Knows(held, batch, id, b) && a != b ==> Conflict(a.vector, b.vector)
  }

  /** Whatever came from position `from` on is older than `s`. */
  predicate OlderFrom(batch: seq<Service>, from: nat, id: string, s: Service) {
    forall j :: from <= j < |batch| && batch[j].id == id ==> batch[j].registeredAt < s.registeredAt
  }

  /** `s` is the last received of those with the greatest timestamp. */
  ghost predicate LastOfLatest(held: Option<Service>, batch: seq<Service>, id: string, s: Service) {
    && (forall x :: Knows(held, batch, id, x) ==> x.registeredAt <= s.registeredAt)
    && ((held == Some(s) && OlderFrom(batch, 0, id, s)) ||
        exists i :: 0 <= i < |batch| && batch[i] == s && s.id == id && OlderFrom(batch, i + 1, id, s))
  }

  /** Among versions in conflict the last received of the latest is held: a tie goes to the newcomer. */
  lemma {:induction false} HoldsLastOfLatest(held: Option<Service>, batch: seq<Service>, id: string)
    requires PairwiseInConflict(held, batch, id)
    ensures var now := Follow(held, batch, id);
      && (now.None? ==> forall s :: !Knows(held, batch, id, s))
      && (now.Some? ==> LastOfLatest(held, batch, id, now.value))
    decreases |batch|
  {
    if batch != [] {
      var front, last := batch[..|batch| - 1], batch[|batch| - 1];
      assert batch == front + [last];
      assert forall s :: Knows(held, batch, id, s) <==> Knows(held, front, id, s) || (s == last && last.id == id);
      HoldsLastOfLatest(held, front, id);
      var before, now := Follow(held, front, id), Follow(held, batch, id);
      if now.Some? {
        OneMoreReceived(held, front, last, id, before, now.value);
      }
    }
  }

  lemma OneMoreReceived(held: Option<Service>, front: seq<Service>, last: Service, id: string, before: Option<Service>,
                        now: Service)
    requires PairwiseInConflict(held, front + [last], id)
    requires before.None? ==> forall s :: !Knows(held, front, id, s)
    requires before.Some? ==> LastOfLatest(held, front, id, before.value)
    requires Some(now) == if last.id == id then Receive(before, last) else before
    ensures LastOfLatest(held, front + [last], id, now)
  {
    var batch := front + [last];
    assert batch[|front|] == last;
    assert forall s :: Knows(held, batch, id, s) ==> Knows(held, front, id, s) || (s == last && last.id == id);
    if last.id == id && now == last {
      if before.Some? && before.value != last {
        BeforeIsKnown(held, front, id, before.value);
        assert Knows(held, batch, id, before.value) && Knows(held, batch, id, last);
      }
      assert OlderFrom(batch, |front| + 1, id, now);
    } else {
      var b := before.value;
      assert now == b;
      if last.id == id {
        BeforeIsKnown(held, front, id, b);
        assert Knows(held, batch, id, b) && Knows(held, batch, id, last);
        assert last.registeredAt < b.registeredAt;
      }
      if held == Some(b) && OlderFrom(front, 0, id, b) {
        assert OlderFrom(batch, 0, id, b);
      } else {
        var i :| 0 <= i < |front| && front[i] == b && b.id == id && OlderFrom(front, i + 1, id, b);
        assert batch[i] == b && OlderFrom(batch, i + 1, id, b);
      }
    }
  }

  lemma BeforeIsKnown(held: Option<Service>, batch: seq<Service>, id: string, s: Service)
    requires LastOfLatest(held, batch, id, s)
    ensures Knows(held, batch, id, s)
  {
  }

  // ---------------------------------------------------------------- batches with one entry per id

  predicate OnePerId(batch: seq<Service>) {
    forall i, j :: 0 <= i < j < |batch| ==> batch[i].id != batch[j].id
  }

  predicate Mentions(batch: seq<Service>, id: string) {
    exists s :: s in batch && s.id == id
  }

  lemma {:induction false} UnmentionedIsKept(held: Option<Service>, batch: seq<Service>, id: string)
    requires !Mentions(batch, id)
    ensures Follow(held, batch, id) == held
    decreases |batch|
  {
    if batch != [] {
      var front, last := batch[..|batch| - 1], batch[|batch| - 1];
      assert last in batch && forall s :: s in front ==> s in batch;
      UnmentionedIsKept(held, front, id);
    }
  }

  lemma {:induction false} MentionedIsReceivedOnce(held: Option<Service>, batch: seq<Service>, s: Service)
    requires OnePerId(batch) && s in batch
    ensures Follow(held, batch, s.id) == Receive(held, s)
    decreases |batch|
  {
    var front, last := batch[..|batch| - 1], batch[|batch| - 1];
    assert batch == front + [last];
    if s == last {
      forall i | 0 <= i < |front|
        ensures front[i].id != s.id
      {
        assert batch[i].id != batch[|batch| - 1].id;
      }
      UnmentionedIsKept(held, front, s.id);
    } else {
      assert s in front;
      var i :| 0 <= i < |front| && front[i] == s;
      assert batch[i].id != last.id;
      MentionedIsReceivedOnce(held, front, s);
    }
  }

  /** The order of such a batch does not matter. */
  lemma SyncIgnoresOrder(services: Services, batch: seq<Service>, batch': seq<Service>)
    requires OnePerId(batch) && OnePerId(batch') && (forall s :: s in batch <==> s in batch')
    ensures MergeAll(services, batch) == MergeAll(services, batch')
  {
    forall id
      ensures Lookup(MergeAll(services, batch), id) == Lookup(MergeAll(services, batch'), id)
    {
      var held := Lookup(services, id);
      MergeAllFollows(services, batch, id);
      MergeAllFollows(services, batch', id);
      if s :| s in batch && s.id == id {
        MentionedIsReceivedOnce(held, batch, s);
        MentionedIsReceivedOnce(held, batch', s);
      } else {
        UnmentionedIsKept(held, batch, id);
        UnmentionedIsKept(held, batch', id);
      }
    }
    SameLookups(MergeAll(services, batch), MergeAll(services, batch'));
  }

  /** Receiving such a batch twice changes nothing more. */
  lemma SyncIsIdempotent(services: Services, batch: seq<Service>)
    requires OnePerId(batch)
    ensures MergeAll(MergeAll(services, batch), batch) == MergeAll(services, batch)
  {
    var once := MergeAll(services, batch);
    forall id
      ensures Lookup(MergeAll(once, batch), id) == Lookup(once, id)
    {
      MergeAllFollows(services, batch, id);
      MergeAllFollows(once, batch, id);
      if s :| s in batch && s.id == id {
        MentionedIsReceivedOnce(Lookup(services, id), batch, s);
        MentionedIsReceivedOnce(Lookup(once, id), batch, s);
      } else {
        UnmentionedIsKept(Lookup(once, id), batch, id);
      }
    }
    SameLookups(MergeAll(once, batch), once);
  }

  // ---------------------------------------------------------------- convergence

  /** Distinct versions of one service were made concurrently, at different times. */
  ghost predicate Mergeable(a: Service, b: Service) {
    a == b || (Conflict(a.vector, b.vector) && a.registeredAt != b.registeredAt)
  }

  /** `s` is a version of `id` that a node starting from `held` knows after receiving `batch`. */
  predicate Knows(held: Option<Service>, batch: seq<Service>, id: string, s: Service) {
    held == Some(s) || (s in batch && s.id == id)
  }

  ghost predicate PairwiseMergeable(held: Option<Service>, batch: seq<Service>, id: string) {
    forall a, b :: Knows(held, batch, id, a) && Knows(held, batch, id, b) ==> Mergeable(a, b)
  }

  /** If the versions of an id are pairwise concurrent with distinct timestamps, a node that has received any
      sequence of them holds the latest it knows of. */
  lemma {:induction false} HoldsTheLatest(held: Option<Service>, batch: seq<Service>, id: string)
    requires PairwiseMergeable(held, batch, id)
    ensures var now := Follow(held, batch, id);
      && (now.None? ==> forall s :: !Knows(held, batch, id, s))
      && (now.Some? ==> Knows(held, batch, id, now.value))
      && (now.Some? ==> forall s :: Knows(held, batch, id, s) ==> s.registeredAt <= now.value.registeredAt)
    decreases |batch|
  {
    if batch != [] {
      var front, last := batch[..|batch| - 1], batch[|batch| - 1];
      assert batch == front + [last];
      assert forall s :: Knows(held, batch, id, s) <==> Knows(held, front, id, s) || (s == last && last.id == id);
      HoldsTheLatest(held, front, id);
      var before := Follow(held, front, id);
      if before.Some? && last.id == id {
        assert Mergeable(before.value, last);
      }
    }
  }

  /** Convergence: two nodes that know the same versions of each service agree, whatever the order, repetition
      or batching of what they received. */
  lemma Converges(a: Services, receivedA: seq<Service>, b: Services, receivedB: seq<Service>)
    requires forall id :: PairwiseMergeable(Lookup(a, id), receivedA, id)
    requires forall id, s :: Knows(Lookup(a, id), receivedA, id, s) <==> Knows(Lookup(b, id), receivedB, id, s)
    ensures MergeAll(a, receivedA) == MergeAll(b, receivedB)
  {
    forall id
      ensures Lookup(MergeAll(a, receivedA), id) == Lookup(MergeAll(b, receivedB), id)
    {
      ConvergesAt(Lookup(a, id), receivedA, Lookup(b, id), receivedB, id);
      MergeAllFollows(a, receivedA, id);
      MergeAllFollows(b, receivedB, id);
    }
    SameLookups(MergeAll(a, receivedA), MergeAll(b, receivedB));
  }

  lemma ConvergesAt(a: Option<Service>, receivedA: seq<Service>, b: Option<Service>, receivedB: seq<Service>,
                    id: string)
    requires PairwiseMergeable(a, receivedA, id)
    requires forall s :: Knows(a, receivedA, id, s) <==> Knows(b, receivedB, id, s)
    ensures Follow(a, receivedA, id) == Follow(b, receivedB, id)
  {
    HoldsTheLatest(a, receivedA, id);
    HoldsTheLatest(b, receivedB, id);
    var x, y := Follow(a, receivedA, id), Follow(b, receivedB, id);
    if x.Some? && y.Some? {
      assert Mergeable(x.value, y.value);
    }
  }

  /** The condition is exact for an exchange: two nodes holding one version each of the same service agree after
      sending them to each other if and only if the versions are mergeable. */
  lemma ExchangeAgreesIff(a: Service, b: Service)
    requires a.id == b.id
    ensures MergeAll(map[a.id := a], [b]) == MergeAll(map[b.id := b], [a]) <==> Mergeable(a, b)
  {
    ConflictMeans(a.vector, b.vector);
    var x, y := MergeAll(map[a.id := a], [b]), MergeAll(map[b.id := b], [a]);
    assert x == Merge(map[a.id := a], b) && y == Merge(map[b.id := b], a) by {
      assert [b][..0] == [] && [a][..0] == [];
    }
    assert x[a.id] == Resolve(a, b) && y[a.id] == Resolve(b, a);
    assert x.Keys == y.Keys == {a.id};
  }

  // ---------------------------------------------------------------- when every order agrees

  /** `batch` delivers exactly these versions, in some order, some possibly repeated. */
  ghost predicate Delivers(batch: seq<Service>, versions: set<Service>) {
    forall s :: s in batch <==> s in versions
  }

  /** A version that is later than, and in conflict with, every other. */
  ghost predicate Wins(w: Service, versions: set<Service>) {
    w in versions &&
    forall x :: x in versions && x != w ==> Conflict(w.vector, x.vector) && x.registeredAt < w.registeredAt
  }

  lemma {:induction false} FollowConcat(held: Option<Service>, a: seq<Service>, b: seq<Service>, id: string)
    ensures Follow(held, a + b, id) == Follow(Follow(held, a, id), b, id)
    decreases |b|
  {
    if b == [] {
      assert a + b == a;
    } else {
      assert (a + b)[..|a + b| - 1] == a + b[..|b| - 1];
      FollowConcat(held, a, b[..|b| - 1], id);
    }
  }

  lemma {:induction false} FollowHolds(held: Option<Service>, batch: seq<Service>, id: string)
    ensures var now := Follow(held, batch, id); now == held || (now.Some? && now.value in batch)
    decreases |batch|
  {
    if batch != [] {
      FollowHolds(held, batch[..|batch| - 1], id);
    }
  }

  /** Once delivered, a winner is held for good. */
  lemma {:induction false} WinnerIsHeld(batch: seq<Service>, versions: set<Service>, w: Service, id: string)
    requires Wins(w, versions) && (forall s :: s in batch ==> s in versions)
    requires forall v :: v in versions ==> v.id == id
    ensures var now := Follow(None, batch, id);
      (w in batch ==> now == Some(w)) && (now.Some? ==> now.value in versions)
    decreases |batch|
  {
    if batch != [] {
      var front, last := batch[..|batch| - 1], batch[|batch| - 1];
      assert batch == front + [last] && last in batch;
      WinnerIsHeld(front, versions, w, id);
      var before := Follow(None, front, id);
      if before.Some? && before.value != w {
        ConflictMeans(w.vector, before.value.vector);
      }
    }
  }

  lemma {:induction false} Listing(versions: set<Service>) returns (batch: seq<Service>)
    ensures Delivers(batch, versions)
    decreases versions
  {
    if versions == {} {
      batch := [];
    } else {
      var v :| v in versions;
      var rest := Listing(versions - {v});
      batch := rest + [v];
    }
  }

  /** A version that does not conflict with `w`, delivered first, keeps `w` out. */
  lemma OrderedComesFirst(versions: set<Service>, w: Service, x: Service, id: string) returns (batch: seq<Service>)
    requires x in versions && w in versions && x != w && (forall v :: v in versions ==> v.id == id)
    requires !Conflict(w.vector, x.vector)
    ensures Delivers(batch, versions) && Follow(None, batch, id) != Some(w)
  {
    var rest := Listing(versions - {w});
    var first := [x, w];
    batch := first + rest;
    FollowConcat(None, first, rest, id);
    ConflictMeans(w.vector, x.vector);
    assert Follow(None, first, id) == Some(x) by {
      assert first[..1] == [x] && first[..1][..0] == [];
      assert Follow(None, [x], id) == Some(x);
    }
    FollowHolds(Some(x), rest, id);
  }

  lemma AgreementHasWinner(versions: set<Service>, batch: seq<Service>, id: string)
    requires Delivers(batch, versions) && versions != {} && (forall v :: v in versions ==> v.id == id)
    requires forall b :: Delivers(b, versions) ==> Follow(None, b, id) == Follow(None, batch, id)
    ensures Follow(None, batch, id).Some? && Wins(Follow(None, batch, id).value, versions)
  {
    FollowHolds(None, batch, id);
    var v :| v in versions;
    NeverEmpty(batch, v, id);
    var w := Follow(None, batch, id).value;
    forall x | x in versions && x != w
      ensures Conflict(w.vector, x.vector) && x.registeredAt < w.registeredAt
    {
      if !Conflict(w.vector, x.vector) {
        var b := OrderedComesFirst(versions, w, x, id);
      } else {
        var again := batch + [x];
        assert Delivers(again, versions) && again[..|batch|] == batch;
      }
    }
  }

  lemma {:induction false} NeverEmpty(batch: seq<Service>, v: Service, id: string)
    requires v in batch && v.id == id
    ensures Follow(None, batch, id).Some?
    decreases |batch|
  {
    var front, last := batch[..|batch| - 1], batch[|batch| - 1];
    assert batch == front + [last];
    if last != v {
      NeverEmpty(front, v, id);
    }
  }

  /** The exact condition for any set of versions of one service: every order and repetition of them leaves every
      node with the same state if and only if one version is later than, and in conflict with, every other. */
  lemma EveryOrderAgreesIff(versions: set<Service>, id: string)
    requires versions != {} && (forall v :: v in versions ==> v.id == id)
    ensures (forall a, b :: Delivers(a, versions) && Delivers(b, versions) ==>
               Lookup(MergeAll(map[], a), id) == Lookup(MergeAll(map[], b), id))
            <==> exists w :: Wins(w, versions)
  {
    forall a
      ensures Lookup(MergeAll(map[], a), id) == Follow(None, a, id)
    {
      MergeAllFollows(map[], a, id);
    }
    if w :| Wins(w, versions) {
      forall a | Delivers(a, versions)
        ensures Lookup(MergeAll(map[], a), id) == Some(w)
      {
        WinnerIsHeld(a, versions, w, id);
      }
    } else if forall a, b :: Delivers(a, versions) && Delivers(b, versions) ==>
                Lookup(MergeAll(map[], a), id) == Lookup(MergeAll(map[], b), id) {
      var batch := Listing(versions);
      forall b | Delivers(b, versions)
        ensures Follow(None, b, id) == Follow(None, batch, id)
      {
        assert Lookup(MergeAll(map[], b), id) == Lookup(MergeAll(map[], batch), id);
      }
      AgreementHasWinner(versions, batch, id);
    }
  }

  /** A version that is ahead of, or behind, everything received is never replaced.  So a node never takes over
      an update that strictly dominates what it holds, however often it is sent. */
  lemma {:induction false} OrderedVersionsAreIgnored(services: Services, batch: seq<Service>, id: string)
    requires id in services
    requires forall s :: s in batch && s.id == id ==>
             Dominates(s.vector, services[id].vector) || Dominates(services[id].vector, s.vector)
    ensures Lookup(MergeAll(services, batch), id) == Some(services[id])
    decreases |batch|
  {
    if batch != [] {
      var front, last := batch[..|batch| - 1], batch[|batch| - 1];
      assert last in batch && forall s :: s in front ==> s in batch;
      OrderedVersionsAreIgnored(services, front, id);
    }
  }
}
