/**
 The plugin dependency graph: construction, cycle detection, topological sorting and transitive closure.
 */
module DependencyGraph {
  import opened Wrappers

  type PluginId = string

  datatype Dependency = Dependency(name: PluginId, requirement: string, optional: bool)

  /** `from` depends on `to`. */
  datatype Edge = Edge(from: PluginId, to: PluginId)

  datatype Graph = Graph(nodes: map<PluginId, seq<Dependency>>, edges: seq<Edge>,
                         dependents: map<PluginId, set<PluginId>>)

  // ---------------------------------------------------------------- relations

  /** `b` is a direct dependency of `a`, by the node's own list. */
  predicate DependsOn(g: Graph, a: PluginId, b: PluginId) {
    a in g.nodes && exists d :: d in g.nodes[a] && d.name == b
  }

  predicate HasEdge(g: Graph, a: PluginId, b: PluginId) {
    Edge(a, b) in g.edges
  }

  /** Holds for every graph built with `AddPlugin`.  A plugin added twice leaves its old edges behind, so there
      can be more edges than the nodes' lists say. */
  predicate Valid(g: Graph) {
    && (forall e :: e in g.edges ==> e.from in g.nodes)
    && (forall a :: a in g.nodes ==> forall d :: d in g.nodes[a] ==> HasEdge(g, a, d.name))
    && (forall e :: e in g.edges ==> e.to in g.dependents && e.from in g.dependents[e.to])
    && (forall b :: b in g.dependents ==> forall a :: a in g.dependents[b] ==> HasEdge(g, a, b))
  }

  /** The mutable graph. */
  class PluginGraph {
    var nodes: map<PluginId, seq<Dependency>>
    var edges: seq<Edge>
    var dependents: map<PluginId, set<PluginId>>

    function View(): Graph
      reads this
    {
      Graph(nodes, edges, dependents)
    }

    constructor ()
      ensures View() == Graph(map[], [], map[]) && Valid(View())
    {
      nodes, edges, dependents := map[], [], map[];
    }

    method AddPlugin(id: PluginId, dependencies: seq<Dependency>)
      requires Valid(View())
      modifies this
      ensures Valid(View())
      ensures nodes == old(nodes)[id := dependencies]
      ensures edges == old(edges) + NewEdges(id, dependencies)
    {
      for i := 0 to |dependencies|
        invariant nodes == old(nodes) && edges == old(edges) + NewEdges(id, dependencies[..i])
        invariant forall e :: e in edges ==> e.to in dependents && e.from in dependents[e.to]
        invariant forall b :: b in dependents ==> forall a :: a in dependents[b] ==> Edge(a, b) in edges
      {
        var name := dependencies[i].name;
        edges := edges + [Edge(id, name)];
        dependents := dependents[name := (if name in dependents then dependents[name] else {}) + {id}];
      }
      assert dependencies[..|dependencies|] == dependencies;
      nodes := nodes[id := dependencies];
      forall d | d in dependencies
        ensures Edge(id, d.name) in edges
      {
        var i :| 0 <= i < |dependencies| && dependencies[i] == d;
        assert edges[|old(edges)| + i] == Edge(id, d.name);
      }
    }
  }

  function NewEdges(id: PluginId, dependencies: seq<Dependency>): seq<Edge> {
    seq(|dependencies|, i requires 0 <= i < |dependencies| => Edge(id, dependencies[i].name))
  }

  // ---------------------------------------------------------------- cycles and orders, for any relation

  type Relation = (PluginId, PluginId) -> bool

  /** Every element is related to the next, and the last to the first. */
  ghost predicate IsCycle(r: Relation, c: seq<PluginId>) {
    c != [] && IsPath(r, c) && r(c[|c| - 1], c[0])
  }

  ghost predicate IsPath(r: Relation, p: seq<PluginId>) {
    forall i :: 0 < i < |p| ==> r(p[i - 1], p[i])
  }

  ghost predicate Acyclic(r: Relation) {
    forall c :: !IsCycle(r, c)
  }

  /** Whatever an element of `order` is related to comes before it. */
  ghost predicate Topological(r: Relation, order: seq<PluginId>) {
    forall i, b :: 0 <= i < |order| && r(order[i], b) ==> b in order[..i]
  }

  lemma {:induction false} CycleStaysBelow(r: Relation, order: seq<PluginId>, c: seq<PluginId>, k: nat, at: nat)
      returns (i: nat)
    requires Topological(r, order) && IsPath(r, c) && k < |c|
    requires at < |order| && order[at] == c[0]
    ensures i <= at && i < |order| && order[i] == c[k] && (k > 0 ==> i < at)
    decreases k
  {
    if k == 0 {
      i := at;
    } else {
      var j := CycleStaysBelow(r, order, c, k - 1, at);
      assert r(order[j], c[k]);
      i :| 0 <= i < j && order[i] == c[k];
    }
  }

  /** A topological order that contains everything related to something rules out cycles. */
  lemma TopologicalMeansAcyclic(r: Relation, order: seq<PluginId>)
    requires Topological(r, order) && forall a, b :: r(a, b) ==> a in order
    requires Distinct(order)
    ensures Acyclic(r)
  {
    forall c
      ensures !IsCycle(r, c)
    {
      if IsCycle(r, c) {
        var at :| 0 <= at < |order| && order[at] == c[0];
        var i := CycleStaysBelow(r, order, c, |c| - 1, at);
        assert false;
      }
    }
  }

  predicate Distinct(p: seq<PluginId>) {
    forall i, j :: 0 <= i < j < |p| ==> p[i] != p[j]
  }

  /** A cycle closes as soon as a path returns to itself. */
  lemma PathClosesCycle(r: Relation, p: seq<PluginId>, b: PluginId) returns (c: seq<PluginId>)
    requires IsPath(r, p) && b in p && r(p[|p| - 1], b)
    ensures IsCycle(r, c)
  {
    var i :| 0 <= i < |p| && p[i] == b;
    c := p[i..];
    assert c[|c| - 1] == p[|p| - 1];
  }

  lemma {:induction false} DistinctFits(p: seq<PluginId>, s: set<PluginId>)
    requires Distinct(p) && forall x :: x in p ==> x in s
    ensures |p| <= |s|
    ensures |p| == |s| ==> forall x :: x in s ==> x in p
    decreases |p|
  {
    if p != [] {
      var front, last := p[..|p| - 1], p[|p| - 1];
      assert p == front + [last];
      forall x | x in front
        ensures x in s - {last}
      {
        var i :| 0 <= i < |front| && front[i] == x;
        assert p[i] != p[|p| - 1];
      }
      DistinctFits(front, s - {last});
    } else if |s| == 0 {
      assert s == {};
    }
  }

  // ---------------------------------------------------------------- cycle detection

  ghost function Dependencies(g: Graph): Relation {
    (a, b) => DependsOn(g, a, b)
  }

  function Names(g: Graph): set<PluginId> {
    g.nodes.Keys + set a, d | a in g.nodes && d in g.nodes[a] :: d.name
  }

  lemma TopologicalSnoc(r: Relation, order: seq<PluginId>, x: PluginId)
    requires Topological(r, order) && forall b :: r(x, b) ==> b in order
    ensures Topological(r, order + [x])
  {
    forall i, b | 0 <= i < |order + [x]| && r((order + [x])[i], b)
      ensures b in (order + [x])[..i]
    {
      if i < |order| {
        assert (order + [x])[..i] == order[..i];
      } else {
        assert (order + [x])[..i] == order;
      }
    }
  }

  /** A reported cycle ends with the dependency of `a` on `b`. */
  ghost predicate Closes(cycles: seq<seq<PluginId>>, a: PluginId, b: PluginId) {
    exists c :: c in cycles && c != [] && c[|c| - 1] == a && c[0] == b
  }

  /** The dependencies that close no reported cycle. */
  ghost function Forward(g: Graph, cycles: seq<seq<PluginId>>): Relation {
    (a, b) => DependsOn(g, a, b) && !Closes(cycles, a, b)
  }

  lemma MoreCyclesCloseMore(g: Graph, cycles: seq<seq<PluginId>>, cycles': seq<seq<PluginId>>, order: seq<PluginId>)
    requires cycles <= cycles' && Topological(Forward(g, cycles), order)
    ensures Topological(Forward(g, cycles'), order)
  {
    forall i, b | 0 <= i < |order| && Forward(g, cycles')(order[i], b)
      ensures b in order[..i]
    {
      assert forall c :: c in cycles ==> c in cycles';
      assert Forward(g, cycles)(order[i], b);
    }
  }

  /** Depth-first search.  `finished` lists the plugins whose search is over, in the order they finished. */
  class CycleFinder {
    const g: Graph
    var visited: set<PluginId>
    var recStack: set<PluginId>
    var path: seq<PluginId>
    var cycles: seq<seq<PluginId>>
    ghost var finished: seq<PluginId>

    constructor (g: Graph)
      ensures this.g == g && Searching() && visited == {} && path == [] && cycles == []
    {
      this.g := g;
      visited, recStack, path, cycles, finished := {}, {}, [], [], [];
    }

    ghost predicate Searching()
      reads this
    {
      && (forall x :: x in recStack <==> x in path)
      && Distinct(path) && IsPath(Dependencies(g), path)
      && recStack <= visited <= Names(g)
      && Distinct(finished) && (forall x :: x in finished <==> x in visited && x !in recStack)
      && (forall c :: c in cycles ==> IsCycle(Dependencies(g), c))
      && Topological(Forward(g, cycles), finished)
    }

    method Enter(id: PluginId)
      requires Searching() && id in Names(g) && id !in visited
      requires path != [] ==> DependsOn(g, path[|path| - 1], id)
      modifies this
      ensures Searching() && path == old(path) + [id] && recStack == old(recStack) + {id}
      ensures visited == old(visited) + {id} && cycles == old(cycles) && finished == old(finished)
    {
      visited := visited + {id};
      recStack := recStack + {id};
      path := path + [id];
    }

    method Leave(id: PluginId)
      requires Searching() && path != [] && path[|path| - 1] == id
      requires forall b :: DependsOn(g, id, b) ==> Handled(id, b)
      modifies this
      ensures Searching() && path == old(path)[..|old(path)| - 1] && recStack == old(recStack) - {id}
      ensures visited == old(visited) && cycles == old(cycles) && finished == old(finished) + [id]
    {
      assert id in path && id !in finished;
      TopologicalSnoc(Forward(g, cycles), finished, id);
      path := path[..|path| - 1];
      recStack := recStack - {id};
      finished := finished + [id];
    }

    method Visit(id: PluginId)
      requires Searching() && id in Names(g) && id !in visited
      requires path != [] ==> DependsOn(g, path[|path| - 1], id)
      modifies this
      ensures Searching() && path == old(path) && recStack == old(recStack)
      ensures old(visited) <= visited && id in visited && old(cycles) <= cycles
      decreases Names(g) - visited, 0
    {
      Enter(id);
      assert id in Names(g) - old(visited) && id !in Names(g) - visited;
      if id in g.nodes {
        VisitDependencies(id);
      }
      assert forall b :: DependsOn(g, id, b) ==> Handled(id, b);
      Leave(id);
      assert (old(path) + [id])[..|old(path)|] == old(path);
      assert old(recStack) + {id} - {id} == old(recStack);
    }

    /** The search for `b` is over, or it closed a reported cycle. */
    ghost predicate Handled(a: PluginId, b: PluginId)
      reads this
    {
      b in finished || Closes(cycles, a, b)
    }

    method VisitDependencies(id: PluginId)
      requires Searching() && path != [] && path[|path| - 1] == id && id in g.nodes
      modifies this
      ensures Searching() && path == old(path) && recStack == old(recStack)
      ensures old(visited) <= visited && old(cycles) <= cycles
      ensures forall b :: DependsOn(g, id, b) ==> Handled(id, b)
      decreases Names(g) - visited, 2
    {
      var dependencies := g.nodes[id];
      for i := 0 to |dependencies|
        invariant Searching() && path == old(path) && recStack == old(recStack)
        invariant old(visited) <= visited && old(cycles) <= cycles
        invariant forall j :: 0 <= j < i ==> Handled(id, dependencies[j].name)
      {
        ghost var before := cycles;
        VisitDependency(id, dependencies[i]);
        assert forall c :: c in before ==> c in cycles;
      }
    }

    method VisitDependency(id: PluginId, d: Dependency)
      requires Searching() && path != [] && path[|path| - 1] == id && id in g.nodes && d in g.nodes[id]
      modifies this
      ensures Searching() && path == old(path) && recStack == old(recStack)
      ensures old(visited) <= visited && old(cycles) <= cycles
      ensures Handled(id, d.name) && forall x :: x in old(finished) ==> x in finished
      decreases Names(g) - visited, 1
    {
      assert DependsOn(g, id, d.name);
      if d.name !in visited {
        Visit(d.name);
      } else if d.name in recStack {
        Report(d.name);
      }
    }

    /** The search met `name` again on its current path: the path from there on is a cycle. */
    method Report(name: PluginId)
      requires Searching() && name in recStack && DependsOn(g, path[|path| - 1], name)
      modifies this`cycles
      ensures Searching() && old(cycles) <= cycles && Closes(cycles, path[|path| - 1], name)
    {
      var start := 0;
      while path[start] != name
        invariant 0 <= start < |path| && name in path[start..]
        decreases |path| - start
      {
        start := start + 1;
      }
      var cycle := path[start..];
      assert cycle[|cycle| - 1] == path[|path| - 1];
      MoreCyclesCloseMore(g, cycles, cycles + [cycle], finished);
      cycles := cycles + [cycle];
      assert cycle in cycles;
    }
  }

  /** The `i`-th dependency on a cycle closes a reported one. */
  ghost predicate ClosesAt(cycles: seq<seq<PluginId>>, c: seq<PluginId>, i: nat) {
    i < |c| && Closes(cycles, c[i], c[if i + 1 < |c| then i + 1 else 0])
  }

  /** If what closes no reported cycle is acyclic, every cycle has a dependency that does close one. */
  lemma EveryCycleIsCaught(g: Graph, cycles: seq<seq<PluginId>>, c: seq<PluginId>)
    requires Acyclic(Forward(g, cycles)) && IsCycle(Dependencies(g), c)
    ensures exists i :: ClosesAt(cycles, c, i)
  {
    if forall i :: !ClosesAt(cycles, c, i) {
      forall i | 0 < i < |c|
        ensures Forward(g, cycles)(c[i - 1], c[i])
      {
        assert !ClosesAt(cycles, c, i - 1);
      }
      assert !ClosesAt(cycles, c, |c| - 1);
      assert IsCycle(Forward(g, cycles), c);
    }
  }

  /** Every reported cycle is one, and every cycle of the plugins' lists contains the dependency that closes a
      reported one; so none is reported exactly when there is none. */
  method DetectCycles(g: Graph) returns (cycles: seq<seq<PluginId>>)
    ensures forall c :: c in cycles ==> IsCycle(Dependencies(g), c)
    ensures forall c :: IsCycle(Dependencies(g), c) ==> exists i :: ClosesAt(cycles, c, i)
    ensures cycles == [] <==> Acyclic(Dependencies(g))
  {
    var finder := new CycleFinder(g);
    var left := g.nodes.Keys;
    while left != {}
      invariant finder.g == g && finder.Searching() && finder.path == []
      invariant left <= g.nodes.Keys && forall id :: id in g.nodes && id !in left ==> id in finder.visited
      decreases left
    {
      var id :| id in left;
      if id !in finder.visited {
        finder.Visit(id);
      }
      left := left - {id};
    }
    cycles := finder.cycles;
    TopologicalMeansAcyclic(Forward(g, cycles), finder.finished);
    forall c | IsCycle(Dependencies(g), c)
      ensures exists i :: ClosesAt(cycles, c, i)
    {
      EveryCycleIsCaught(g, cycles, c);
    }
    if cycles != [] {
      assert IsCycle(Dependencies(g), cycles[0]);
    }
  }

  // ---------------------------------------------------------------- topological sort

  datatype GraphError = CyclicDependency(cycles: seq<seq<PluginId>>) | UnknownCycle

  ghost function Edges(g: Graph): Relation {
    (a, b) => HasEdge(g, a, b)
  }

  /** The graphs that can be sorted: every dependency, optional or not, is present, no plugin lists a dependency
      twice, and no chain of edges returns to its start. */
  ghost predicate Sortable(g: Graph) {
    Complete(g) && Acyclic(Edges(g))
  }

  ghost predicate Complete(g: Graph) {
    && (forall e :: e in g.edges ==> e.to in g.nodes)
    && (forall n :: NoDuplicateFrom(g.edges, n))
  }

  predicate NoDuplicateFrom(edges: seq<Edge>, n: PluginId) {
    forall i, j :: 0 <= i < j < |edges| && edges[i].from == n ==> edges[i] != edges[j]
  }

  function OutDegree(edges: seq<Edge>, n: PluginId): nat {
    if edges == [] then 0
    else OutDegree(edges[..|edges| - 1], n) + if edges[|edges| - 1].from == n then 1 else 0
  }

  function Targets(edges: seq<Edge>, n: PluginId): set<PluginId> {
    if edges == [] then {}
    else Targets(edges[..|edges| - 1], n) + if edges[|edges| - 1].from == n then {edges[|edges| - 1].to} else {}
  }

  function Elements(s: seq<PluginId>): set<PluginId> {
    set x | x in s
  }

  lemma {:induction false} TargetsAre(edges: seq<Edge>, n: PluginId, t: PluginId)
    ensures t in Targets(edges, n) <==> Edge(n, t) in edges
    decreases |edges|
  {
    if edges != [] {
      assert edges == edges[..|edges| - 1] + [edges[|edges| - 1]];
      TargetsAre(edges[..|edges| - 1], n, t);
    }
  }

  lemma NoDuplicateSnoc(front: seq<Edge>, last: Edge, n: PluginId)
    ensures NoDuplicateFrom(front + [last], n) <==> NoDuplicateFrom(front, n) && (last.from == n ==> last !in front)
  {
    var edges := front + [last];
    if NoDuplicateFrom(edges, n) {
      forall i, j | 0 <= i < j < |front| && front[i].from == n
        ensures front[i] != front[j]
      {
        assert edges[i] != edges[j];
      }
      if last.from == n {
        forall i | 0 <= i < |front|
          ensures front[i] != last
        {
          assert edges[i] == front[i] && edges[|front|] == last;
        }
      }
    }
  }

  /** Counting edges and counting targets agree exactly when no edge is repeated. */
  lemma {:induction false} DegreeCountsTargets(edges: seq<Edge>, n: PluginId)
    ensures |Targets(edges, n)| <= OutDegree(edges, n)
    ensures |Targets(edges, n)| == OutDegree(edges, n) <==> NoDuplicateFrom(edges, n)
    decreases |edges|
  {
    if edges != [] {
      var front, last := edges[..|edges| - 1], edges[|edges| - 1];
      assert edges == front + [last];
      DegreeCountsTargets(front, n);
      NoDuplicateSnoc(front, last, n);
      TargetsAre(front, n, last.to);
    }
  }

  lemma SubsetSizes(a: set<PluginId>, b: set<PluginId>)
    ensures |a * b| <= |a|
    ensures |a * b| == |a| <==> a <= b
  {
    assert a == a * b + (a - b);
    assert |a| == |a * b| + |a - b|;
    if a <= b {
      assert a * b == a;
    }
  }

  /** How many edges of `n` are not accounted for by the plugins in `done`. */
  function Missing(g: Graph, n: PluginId, done: set<PluginId>): int {
    OutDegree(g.edges, n) - |Targets(g.edges, n) * done|
  }

  /** None is missing exactly when all targets are done and no edge is repeated. */
  lemma MissingMeans(g: Graph, n: PluginId, done: set<PluginId>)
    ensures Missing(g, n, done) >= 0
    ensures Missing(g, n, done) == 0 <==> NoDuplicateFrom(g.edges, n) && forall b :: HasEdge(g, n, b) ==> b in done
  {
    DegreeCountsTargets(g.edges, n);
    SubsetSizes(Targets(g.edges, n), done);
    assert Targets(g.edges, n) <= done <==> forall b :: HasEdge(g, n, b) ==> b in done by {
      forall b
        ensures b in Targets(g.edges, n) <==> HasEdge(g, n, b)
      {
        TargetsAre(g.edges, n, b);
      }
    }
  }

  lemma OneMoreDone(g: Graph, n: PluginId, done: set<PluginId>, t: PluginId)
    requires t !in done
    ensures Missing(g, n, done + {t}) == Missing(g, n, done) - if HasEdge(g, n, t) then 1 else 0
  {
    TargetsAre(g.edges, n, t);
    var before, after := Targets(g.edges, n) * done, Targets(g.edges, n) * (done + {t});
    assert after == if HasEdge(g, n, t) then before + {t} else before;
  }

  /** What is missing for each plugin. */
  function Need(g: Graph, done: set<PluginId>): map<PluginId, int> {
    map n | n in g.nodes :: Missing(g, n, done)
  }

  /** The state of Kahn's algorithm between two removals from the queue. */
  ghost predicate Sorting(g: Graph, degree: map<PluginId, nat>, queue: seq<PluginId>, result: seq<PluginId>) {
    && Counting(degree, result + queue, Need(g, Elements(result)), {})
    && Topological(Edges(g), result)
  }

  /** `degree` is `need`, except that plugins in `left` have one edge more to be told about; `ready` lists the
      plugins that need nothing. */
  ghost predicate Counting(degree: map<PluginId, nat>, ready: seq<PluginId>, need: map<PluginId, int>,
                           left: set<PluginId>) {
    && degree.Keys == need.Keys && left <= need.Keys
    && Distinct(ready)
    && (forall n :: n in need ==> need[n] >= 0 && degree[n] == need[n] + if n in left then 1 else 0)
    && (forall n :: n in ready <==> n in need && degree[n] == 0)
  }

  method CountDegrees(g: Graph) returns (degree: map<PluginId, nat>)
    requires Valid(g)
    ensures degree.Keys == g.nodes.Keys
    ensures forall n :: n in g.nodes ==> degree[n] == OutDegree(g.edges, n)
  {
    degree := map n | n in g.nodes :: 0;
    for i := 0 to |g.edges|
      invariant degree.Keys == g.nodes.Keys
      invariant forall n :: n in g.nodes ==> degree[n] == OutDegree(g.edges[..i], n)
    {
      assert g.edges[..i + 1][..i] == g.edges[..i];
      var from := g.edges[i].from;
      degree := degree[from := (if from in degree then degree[from] else 0) + 1];
    }
    assert g.edges[..|g.edges|] == g.edges;
  }

  method Roots(degree: map<PluginId, nat>) returns (queue: seq<PluginId>)
    ensures Distinct(queue) && forall n :: n in queue <==> n in degree && degree[n] == 0
  {
    queue := [];
    var left := degree.Keys;
    while left != {}
      invariant left <= degree.Keys
      invariant Distinct(queue) && forall n :: n in queue <==> n in degree && n !in left && degree[n] == 0
      decreases left
    {
      var n :| n in left;
      if degree[n] == 0 {
        queue := queue + [n];
      }
      left := left - {n};
    }
  }

  lemma StartsSorting(g: Graph, degree: map<PluginId, nat>, queue: seq<PluginId>)
    requires degree.Keys == g.nodes.Keys && forall n :: n in g.nodes ==> degree[n] == OutDegree(g.edges, n)
    requires Distinct(queue) && forall n :: n in queue <==> n in degree && degree[n] == 0
    ensures Sorting(g, degree, queue, [])
  {
    assert [] + queue == queue;
    forall n | n in g.nodes
      ensures Missing(g, n, Elements([])) == degree[n]
    {
      assert Targets(g.edges, n) * Elements([]) == {};
    }
  }

  lemma FrontIsNew(result: seq<PluginId>, queue: seq<PluginId>)
    requires queue != [] && Distinct(result + queue)
    ensures queue[0] !in result && queue[0] in result + queue && (result + [queue[0]]) + queue[1..] == result + queue
  {
    var ready := result + queue;
    assert ready[|result|] == queue[0];
    forall i | 0 <= i < |result|
      ensures result[i] != queue[0]
    {
      assert ready[i] != ready[|result|];
    }
  }

  /** The front of the queue can be appended to the result. */
  lemma FrontIsReady(g: Graph, degree: map<PluginId, nat>, queue: seq<PluginId>, result: seq<PluginId>)
    requires Sorting(g, degree, queue, result) && queue != []
    ensures Topological(Edges(g), result + [queue[0]])
    ensures |result| < |g.nodes|
  {
    var t := queue[0];
    FrontIsNew(result, queue);
    assert Need(g, Elements(result))[t] == 0;
    MissingMeans(g, t, Elements(result));
    TopologicalSnoc(Edges(g), result, t);
    assert |g.nodes| == |g.nodes.Keys|;
    DistinctFits(result + queue, g.nodes.Keys);
  }

  /** And then its dependents have still to be told. */
  lemma TakeFromQueue(g: Graph, degree: map<PluginId, nat>, queue: seq<PluginId>, result: seq<PluginId>,
                      dependents: set<PluginId>)
    requires Sorting(g, degree, queue, result) && queue != [] && dependents <= g.nodes.Keys
    requires forall n :: n in dependents <==> HasEdge(g, n, queue[0])
    ensures Counting(degree, (result + [queue[0]]) + queue[1..], Need(g, Elements(result + [queue[0]])), dependents)
  {
    var t := queue[0];
    FrontIsNew(result, queue);
    var done := Elements(result);
    assert Elements(result + [t]) == done + {t};
    NeedAfter(g, done, t, dependents);
  }

  lemma NeedAfter(g: Graph, done: set<PluginId>, t: PluginId, dependents: set<PluginId>)
    requires t !in done && forall n :: n in dependents <==> HasEdge(g, n, t)
    ensures var before, after := Need(g, done), Need(g, done + {t});
      forall n :: n in g.nodes ==> after[n] >= 0 && after[n] == before[n] - if n in dependents then 1 else 0
  {
    forall n | n in g.nodes
      ensures var m := Missing(g, n, done + {t}); m >= 0 && m == Missing(g, n, done) - if n in dependents then 1 else 0
    {
      OneMoreDone(g, n, done, t);
      MissingMeans(g, n, done + {t});
    }
  }

  /** One turn of the loop: take a plugin from the queue and release its dependents. */
  method SortNext(g: Graph, degree: map<PluginId, nat>, queue: seq<PluginId>, result: seq<PluginId>)
      returns (degree': map<PluginId, nat>, queue': seq<PluginId>, result': seq<PluginId>)
    requires Valid(g) && Sorting(g, degree, queue, result) && queue != []
    ensures Sorting(g, degree', queue', result') && result' == result + [queue[0]]
    ensures |result| < |g.nodes|
  {
    var t := queue[0];
    var left := if t in g.dependents then g.dependents[t] else {};
    FrontIsReady(g, degree, queue, result);
    assert forall n :: n in left <==> HasEdge(g, n, t);
    TakeFromQueue(g, degree, queue, result, left);
    result' := result + [t];
    degree', queue' := Release(degree, queue[1..], left, result', Need(g, Elements(result')));
  }

  /** Tell every dependent that one of its edges is done, and queue those that need nothing more. */
  method Release(degree: map<PluginId, nat>, queue: seq<PluginId>, dependents: set<PluginId>,
                 ghost result: seq<PluginId>, ghost need: map<PluginId, int>)
      returns (degree': map<PluginId, nat>, queue': seq<PluginId>)
    requires Counting(degree, result + queue, need, dependents)
    ensures Counting(degree', result + queue', need, {})
  {
    degree', queue' := degree, queue;
    var left := dependents;
    while left != {}
      invariant Counting(degree', result + queue', need, left)
      decreases left
    {
      var n :| n in left;
      if n in degree' {
        degree' := degree'[n := degree'[n] - 1];
        if degree'[n] == 0 {
          assert (result + queue') + [n] == result + (queue' + [n]);
          queue' := queue' + [n];
        }
      }
      left := left - {n};
    }
  }

  /** Once the queue is empty, the result holds exactly the plugins with nothing missing. */
  lemma DrainedAt(g: Graph, degree: map<PluginId, nat>, result: seq<PluginId>, n: PluginId)
    requires Sorting(g, degree, [], result) && n in g.nodes
    ensures n in result <==> Missing(g, n, Elements(result)) == 0
  {
    assert result + [] == result;
    assert Need(g, Elements(result))[n] == Missing(g, n, Elements(result));
  }

  lemma AllSortedMeansSortable(g: Graph, result: seq<PluginId>)
    requires Topological(Edges(g), result) && Distinct(result) && Elements(result) == g.nodes.Keys
    requires forall n :: n in g.nodes ==> Missing(g, n, Elements(result)) == 0
    requires forall e :: e in g.edges ==> e.from in g.nodes
    ensures Sortable(g)
  {
    forall a, b | HasEdge(g, a, b)
      ensures a in result && b in g.nodes
    {
      assert Edge(a, b).from in g.nodes;
      MissingMeans(g, a, Elements(result));
    }
    TopologicalMeansAcyclic(Edges(g), result);
    forall n
      ensures NoDuplicateFrom(g.edges, n)
    {
      if n in g.nodes {
        MissingMeans(g, n, Elements(result));
      }
    }
    forall e | e in g.edges
      ensures e.to in g.nodes
    {
      assert HasEdge(g, e.from, e.to);
    }
  }

  /** If nothing is absent or repeated, a plugin left over waits for another one left over. */
  lemma LeftOverWaits(g: Graph, done: set<PluginId>, a: PluginId) returns (b: PluginId)
    requires Complete(g) && Missing(g, a, done) != 0
    ensures HasEdge(g, a, b) && b in g.nodes && b !in done
  {
    assert NoDuplicateFrom(g.edges, a);
    MissingMeans(g, a, done);
    b :| HasEdge(g, a, b) && b !in done;
    assert Edge(a, b).to in g.nodes;
  }

  /** Following what each one waits for must return to a plugin already passed, since there are finitely many. */
  lemma {:induction false} WaitingIsCyclic(g: Graph, done: set<PluginId>, p: seq<PluginId>) returns (c: seq<PluginId>)
    requires Complete(g) && forall n :: n in g.nodes && n !in done ==> Missing(g, n, done) != 0
    requires p != [] && IsPath(Edges(g), p) && Distinct(p) && forall x :: x in p ==> x in g.nodes && x !in done
    ensures IsCycle(Edges(g), c)
    decreases |g.nodes| - |p|
  {
    var last := p[|p| - 1];
    assert last in p;
    var b := LeftOverWaits(g, done, last);
    if b in p {
      c := PathClosesCycle(Edges(g), p, b);
    } else {
      var q := LongerPath(g, p, b);
      c := WaitingIsCyclic(g, done, q);
    }
  }

  lemma LongerPath(g: Graph, p: seq<PluginId>, b: PluginId) returns (q: seq<PluginId>)
    requires p != [] && IsPath(Edges(g), p) && Distinct(p) && b !in p && Edges(g)(p[|p| - 1], b)
    requires b in g.nodes && forall x :: x in p ==> x in g.nodes
    ensures q == p + [b] && IsPath(Edges(g), q) && Distinct(q) && |q| <= |g.nodes|
  {
    q := p + [b];
    DistinctFits(q, g.nodes.Keys);
    assert |g.nodes| == |g.nodes.Keys|;
  }

  lemma SortableMeansAllSorted(g: Graph, done: set<PluginId>)
    requires Sortable(g) && forall n :: n in g.nodes && n !in done ==> Missing(g, n, done) != 0
    ensures g.nodes.Keys <= done
  {
    if n :| n in g.nodes && n !in done {
      var c := WaitingIsCyclic(g, done, [n]);
      assert false;
    }
  }

  /** When the queue runs dry, everything was sorted if and only if the graph is sortable. */
  lemma DrainedMeansSorted(g: Graph, degree: map<PluginId, nat>, result: seq<PluginId>)
    requires Valid(g) && Sorting(g, degree, [], result)
    ensures |result| == |g.nodes| <==> Sortable(g)
    ensures |result| == |g.nodes| ==> Distinct(result) && Elements(result) == g.nodes.Keys
  {
    var done := Elements(result);
    assert result + [] == result;
    forall n | n in g.nodes
      ensures n in done <==> Missing(g, n, done) == 0
    {
      DrainedAt(g, degree, result, n);
    }
    LengthMeansAll(g, result);
    if |result| == |g.nodes| {
      AllSortedMeansSortable(g, result);
    } else if Sortable(g) {
      SortableMeansAllSorted(g, done);
    }
  }

  lemma LengthMeansAll(g: Graph, result: seq<PluginId>)
    requires Distinct(result) && Elements(result) <= g.nodes.Keys
    ensures |result| == |g.nodes| <==> Elements(result) == g.nodes.Keys
  {
    var done := Elements(result);
    SizeOfDistinct(result);
    SubsetSizes(g.nodes.Keys, done);
    assert g.nodes.Keys * done == done && |g.nodes| == |g.nodes.Keys|;
  }

  lemma {:induction false} SizeOfDistinct(p: seq<PluginId>)
    requires Distinct(p)
    ensures |Elements(p)| == |p|
    decreases |p|
  {
    if p != [] {
      var front, last := p[..|p| - 1], p[|p| - 1];
      SizeOfDistinct(front);
      assert Elements(p) == Elements(front) + {last};
    }
  }

  /** Sorts exactly the sortable graphs, dependencies first.  A graph whose plugins' lists contain no cycle but
      that is not sortable is refused with an error that names no cycle. */
  method TopologicalSort(g: Graph) returns (r: Result<seq<PluginId>, GraphError>)
    requires Valid(g)
    ensures r.Ok? <==> Sortable(g)
    ensures r.Ok? ==> Distinct(r.value) && Elements(r.value) == g.nodes.Keys && Topological(Edges(g), r.value)
    ensures r.Err? ==> (r.error == UnknownCycle <==> Acyclic(Dependencies(g)))
    ensures r.Err? && r.error.CyclicDependency? ==>
              && r.error.cycles != [] && (forall c :: c in r.error.cycles ==> IsCycle(Dependencies(g), c))
              && (forall c :: IsCycle(Dependencies(g), c) ==> exists i :: ClosesAt(r.error.cycles, c, i))
  {
    var cycles := DetectCycles(g);
    if cycles != [] {
      ListCycleIsEdgeCycle(g, cycles[0]);
      return Err(CyclicDependency(cycles));
    }
    var degree := CountDegrees(g);
    var queue := Roots(degree);
    var result: seq<PluginId> := [];
    StartsSorting(g, degree, queue);
    while queue != []
      invariant Sorting(g, degree, queue, result)
      decreases |g.nodes| - |result|
    {
      degree, queue, result := SortNext(g, degree, queue, result);
    }
    DrainedMeansSorted(g, degree, result);
    if |result| != |g.nodes| {
      return Err(UnknownCycle);
    }
    return Ok(result);
  }

  lemma ListCycleIsEdgeCycle(g: Graph, c: seq<PluginId>)
    requires Valid(g) && IsCycle(Dependencies(g), c)
    ensures IsCycle(Edges(g), c)
  {
    assert forall a, b :: DependsOn(g, a, b) ==> HasEdge(g, a, b);
  }

  /** A single missing optional dependency is enough: no cycle anywhere, and still not sortable. */
  lemma MissingOptionalDependency(a: PluginId, b: PluginId, requirement: string) returns (g: Graph)
    requires a != b
    ensures g == Graph(map[a := [Dependency(b, requirement, true)]], [Edge(a, b)], map[b := {a}])
    ensures Valid(g) && Acyclic(Dependencies(g)) && Acyclic(Edges(g)) && !Sortable(g)
  {
    g := Graph(map[a := [Dependency(b, requirement, true)]], [Edge(a, b)], map[b := {a}]);
    assert Edge(a, b) in g.edges;
    assert [b, a][..1] == [b];
    TopologicalMeansAcyclic(Edges(g), [b, a]);
    TopologicalMeansAcyclic(Dependencies(g), [b, a]);
  }

  // ---------------------------------------------------------------- transitive dependencies

  /** A chain of one or more dependencies leads from `a` to `b`. */
  ghost predicate Reaches(g: Graph, a: PluginId, b: PluginId) {
    exists p :: IsChain(g, p, a, b)
  }

  ghost predicate IsChain(g: Graph, p: seq<PluginId>, a: PluginId, b: PluginId) {
    |p| >= 2 && p[0] == a && p[|p| - 1] == b && IsPath(Dependencies(g), p)
  }

  lemma ReachesFurther(g: Graph, a: PluginId, b: PluginId, c: PluginId)
    requires (a == b || Reaches(g, a, b)) && DependsOn(g, b, c)
    ensures Reaches(g, a, c)
  {
    if p :| IsChain(g, p, a, b) {
      assert IsChain(g, p + [c], a, c);
    } else {
      assert IsChain(g, [b, c], b, c);
    }
  }

  /** A set that holds the direct dependencies of `a` and of its own members holds everything `a` reaches. */
  lemma {:induction false} ClosedHoldsChain(g: Graph, s: set<PluginId>, p: seq<PluginId>, a: PluginId, b: PluginId)
    requires IsChain(g, p, a, b)
    requires forall x, y :: (x == a || x in s) && DependsOn(g, x, y) ==> y in s
    ensures b in s
    decreases |p|
  {
    var front := p[..|p| - 1];
    if |p| > 2 {
      ClosedHoldsChain(g, s, front, a, front[|front| - 1]);
    }
    assert DependsOn(g, p[|p| - 2], p[|p| - 1]);
  }

  method TransitiveDependencies(g: Graph, id: PluginId) returns (found: set<PluginId>)
    ensures forall x :: x in found <==> Reaches(g, id, x)
  {
    found := {};
    var toVisit := DirectDependencies(g, id, {});
    forall y | DependsOn(g, id, y)
      ensures Reaches(g, id, y)
    {
      ReachesFurther(g, id, id, y);
    }
    while toVisit != []
      invariant forall x :: x in found || x in toVisit ==> x in Names(g) && Reaches(g, id, x)
      invariant forall x, y :: (x == id || x in found) && DependsOn(g, x, y) ==> y in found || y in toVisit
      decreases Names(g) - found, |toVisit|
    {
      var next := toVisit[0];
      toVisit := toVisit[1..];
      if next !in found {
        found := found + {next};
        var more := DirectDependencies(g, next, found);
        forall y | DependsOn(g, next, y)
          ensures Reaches(g, id, y)
        {
          ReachesFurther(g, id, next, y);
        }
        toVisit := toVisit + more;
      }
    }
    forall x | Reaches(g, id, x)
      ensures x in found
    {
      var p :| IsChain(g, p, id, x);
      ClosedHoldsChain(g, found, p, id, x);
    }
  }

  method DirectDependencies(g: Graph, id: PluginId, known: set<PluginId>) returns (names: seq<PluginId>)
    ensures forall y :: y in names ==> DependsOn(g, id, y) && y in Names(g)
    ensures forall y :: DependsOn(g, id, y) ==> y in names || y in known
  {
    names := [];
    if id in g.nodes {
      var dependencies := g.nodes[id];
      for i := 0 to |dependencies|
        invariant forall y :: y in names ==> DependsOn(g, id, y) && y in Names(g)
        invariant forall j :: 0 <= j < i ==> dependencies[j].name in names || dependencies[j].name in known
      {
        assert dependencies[i] in g.nodes[id];
        if dependencies[i].name !in known {
          names := names + [dependencies[i].name];
        }
      }
    }
  }
}
