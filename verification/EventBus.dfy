/** The typed event bus: subscriptions by topic, a middleware chain, and publication. */
module EventBus {
  import opened Wrappers

  datatype Event = Event(topic: string, payload: string, metadata: Option<map<string, string>>)

  type Middleware = Event -> Option<Event>
  type Handler = nat

  datatype Subscriber = Subscriber(id: nat, handler: Handler)

  datatype Bus = Bus(subscribers: map<string, seq<Subscriber>>, middlewares: seq<Middleware>, counter: nat)

  /** The id counter is a 64-bit atomic that wraps around. */
  const WRAP: nat := 0x1_0000_0000_0000_0000

  const EMPTY := Bus(map[], [], 1)

  // ---------------------------------------------------------------- operations

  function Live(b: Bus, topic: string): seq<Subscriber> {
    if topic in b.subscribers then b.subscribers[topic] else []
  }

  function Without(list: seq<Subscriber>, id: nat): seq<Subscriber> {
    if list == [] then [] else
    var front, last := Without(list[..|list| - 1], id), list[|list| - 1];
    if last.id == id then front else front + [last]
  }

  function Subscribed(b: Bus, topic: string, handler: Handler): Bus {
    Bus(b.subscribers[topic := Live(b, topic) + [Subscriber(b.counter, handler)]], b.middlewares,
      (b.counter + 1) % WRAP)
  }

  function Unsubscribed(b: Bus, id: nat, topic: string): Bus {
    if topic in b.subscribers then b.(subscribers := b.subscribers[topic := Without(b.subscribers[topic], id)]) else b
  }

  /** The event after the middleware chain, unless one of them drops it. */
  function Through(middlewares: seq<Middleware>, e: Event): Option<Event> {
    if middlewares == [] then Some(e) else
    match middlewares[0](e)
    case None => None
    case Some(e') => Through(middlewares[1..], e')
  }

  function ToEach(list: seq<Subscriber>, e: Event): seq<(Handler, Event)> {
    seq(|list|, i requires 0 <= i < |list| => (list[i].handler, e))
  }

  /** Nothing if the event is dropped; otherwise the transformed event, to the subscribers of its final topic in
      order, then to the "*" subscribers in order. */
  function Deliveries(b: Bus, e: Event): seq<(Handler, Event)> {
    match Through(b.middlewares, e)
    case None => []
    case Some(e') => ToEach(Live(b, e'.topic), e') + ToEach(Live(b, "*"), e')
  }

  class TypedEventBus {
    var subscribers: map<string, seq<Subscriber>>
    var middlewares: seq<Middleware>
    var counter: nat

    ghost function View(): Bus
      reads this
    {
      Bus(subscribers, middlewares, counter)
    }

    constructor ()
      ensures View() == EMPTY
    {
      subscribers, middlewares, counter := map[], [], 1;
    }

    method Subscribe(topic: string, handler: Handler) returns (id: nat)
      modifies this
      ensures id == old(counter) && View() == Subscribed(old(View()), topic, handler)
    {
      id := counter;
      counter := (counter + 1) % WRAP;
      var list := if topic in subscribers then subscribers[topic] else [];
      subscribers := subscribers[topic := list + [Subscriber(id, handler)]];
    }

    method Unsubscribe(id: nat, topic: string) returns (removed: bool)
      modifies this
      ensures View() == Unsubscribed(old(View()), id, topic)
      ensures removed <==> exists s :: s in Live(old(View()), topic) && s.id == id
    {
      if topic in subscribers {
        var before := |subscribers[topic]|;
        WithoutMeans(subscribers[topic], id);
        var kept := Without(subscribers[topic], id);
        subscribers := subscribers[topic := kept];
        return |kept| != before;
      }
      return false;
    }

    method AddMiddleware(m: Middleware)
      modifies this
      ensures View() == old(View()).(middlewares := old(middlewares) + [m])
    {
      middlewares := middlewares + [m];
    }

    method Publish(event: Event) returns (delivered: seq<(Handler, Event)>)
      ensures delivered == Deliveries(View(), event)
    {
      delivered := [];
      var e := event;
      for i := 0 to |middlewares|
        invariant Through(middlewares, event) == Through(middlewares[i..], e)
      {
        assert middlewares[i..][0] == middlewares[i] && middlewares[i..][1..] == middlewares[i + 1..];
        match middlewares[i](e)
        case None => return [];
        case Some(e') => e := e';
      }
      var subs: seq<Subscriber> := [];
      if e.topic in subscribers {
        subs := subs + subscribers[e.topic];
      }
      if "*" in subscribers {
        subs := subs + subscribers["*"];
      }
      for i := 0 to |subs|
        invariant delivered == ToEach(subs[..i], e)
      {
        delivered := delivered + [(subs[i].handler, e)];
      }
      assert subs[..|subs|] == subs == Live(View(), e.topic) + Live(View(), "*");
    }
  }

  /** `Without` drops the subscribers with that id, keeps the others, and is shorter exactly if there was one. */
  lemma {:induction false} WithoutMeans(list: seq<Subscriber>, id: nat)
    ensures |Without(list, id)| <= |list|
    ensures |Without(list, id)| != |list| <==> exists s :: s in list && s.id == id
    ensures forall s :: s in Without(list, id) <==> s in list && s.id != id
    decreases |list|
  {
    if list != [] {
      var front, last := list[..|list| - 1], list[|list| - 1];
      assert list == front + [last];
      WithoutMeans(front, id);
    }
  }

  // ---------------------------------------------------------------- runs

  datatype Op = Sub(topic: string, handler: Handler) | Unsub(id: nat, topic: string) | Use(m: Middleware)

  function Step(b: Bus, op: Op): Bus {
    match op
    case Sub(topic, handler) => Subscribed(b, topic, handler)
    case Unsub(id, topic) => Unsubscribed(b, id, topic)
    case Use(m) => b.(middlewares := b.middlewares + [m])
  }

  /** The bus after a run; publishing does not change it. */
  function After(ops: seq<Op>): Bus {
    if ops == [] then EMPTY else Step(After(ops[..|ops| - 1]), ops[|ops| - 1])
  }

  function Subs(ops: seq<Op>): nat {
    if ops == [] then 0 else Subs(ops[..|ops| - 1]) + if ops[|ops| - 1].Sub? then 1 else 0
  }

  predicate Ascending(list: seq<Subscriber>, bound: nat) {
    && (forall i, j :: 0 <= i < j < |list| ==> list[i].id < list[j].id)
    && (forall i :: 0 <= i < |list| ==> 0 < list[i].id < bound)
  }

  lemma {:induction false} WithoutAscends(list: seq<Subscriber>, id: nat, bound: nat)
    requires Ascending(list, bound)
    ensures Ascending(Without(list, id), bound)
    decreases |list|
  {
    if list != [] {
      var front, last := list[..|list| - 1], list[|list| - 1];
      assert list == front + [last];
      WithoutAscends(front, id, last.id);
    }
  }

  lemma StepAscends(b: Bus, op: Op, topic: string)
    requires Ascending(Live(b, topic), b.counter) && 0 < b.counter < WRAP
    requires op.Sub? ==> b.counter < WRAP - 1
    ensures Ascending(Live(Step(b, op), topic), Step(b, op).counter)
    ensures Step(b, op).counter == b.counter + if op.Sub? then 1 else 0
  {
    var live, live' := Live(b, topic), Live(Step(b, op), topic);
    match op
    case Sub(t, handler) => assert live' == if t == topic then live + [Subscriber(b.counter, handler)] else live;
    case Unsub(id, t) =>
      WithoutAscends(live, id, b.counter);
      assert live' == if t == topic then Without(live, id) else live;
    case Use(_) => assert live' == live;
  }

  /** Ids are handed out in increasing order across all topics, so every list is in order of subscription. */
  lemma {:induction false} IdsAscend(ops: seq<Op>, topic: string)
    requires Subs(ops) < WRAP - 1
    ensures After(ops).counter == 1 + Subs(ops)
    ensures Ascending(Live(After(ops), topic), 1 + Subs(ops))
    decreases |ops|
  {
    if ops != [] {
      IdsAscend(ops[..|ops| - 1], topic);
      StepAscends(After(ops[..|ops| - 1]), ops[|ops| - 1], topic);
    }
  }

  /** The i-th operation is the subscription that was given this id. */
  predicate IsSubscription(ops: seq<Op>, i: nat, topic: string, s: Subscriber) {
    i < |ops| && ops[i] == Sub(topic, s.handler) && s.id == 1 + Subs(ops[..i])
  }

  predicate RemovedAfter(ops: seq<Op>, i: nat, topic: string, id: nat) {
    exists j :: i < j < |ops| && Removes(ops[j], topic, id)
  }

  predicate Removes(op: Op, topic: string, id: nat) {
    op.Unsub? && op.id == id && op.topic == topic
  }

  lemma HistoryStep(ops: seq<Op>, i: nat, topic: string, s: Subscriber)
    requires i < |ops| - 1
    ensures var front, last := ops[..|ops| - 1], ops[|ops| - 1];
      && IsSubscription(ops, i, topic, s) == IsSubscription(front, i, topic, s)
      && (RemovedAfter(ops, i, topic, s.id) <==> RemovedAfter(front, i, topic, s.id) || Removes(last, topic, s.id))
  {
    var front := ops[..|ops| - 1];
    assert ops[..i] == front[..i] && ops[i] == front[i];
    if j :| i < j < |front| && Removes(front[j], topic, s.id) {
      assert Removes(ops[j], topic, s.id);
    }
  }

  /** One operation removes the subscriber it names and adds the one it subscribes. */
  lemma LiveStep(b: Bus, op: Op, topic: string, s: Subscriber)
    ensures s in Live(Step(b, op), topic) <==>
            (s in Live(b, topic) && !Removes(op, topic, s.id)) || (op == Sub(topic, s.handler) && s.id == b.counter)
  {
    if op.Unsub? && op.topic == topic {
      WithoutMeans(Live(b, topic), op.id);
    } else if op.Sub? && op.topic == topic {
      assert Live(Step(b, op), topic) == Live(b, topic) + [Subscriber(b.counter, op.handler)];
    }
  }

  /** Who is live, from the history alone: exactly those whose subscription was not followed by their removal. */
  lemma {:induction false} LiveIff(ops: seq<Op>, topic: string, s: Subscriber)
    requires Subs(ops) < WRAP - 1
    ensures s in Live(After(ops), topic) <==>
            exists i :: IsSubscription(ops, i, topic, s) && !RemovedAfter(ops, i, topic, s.id)
    decreases |ops|
  {
    if ops != [] {
      var n := |ops| - 1;
      var front, last := ops[..n], ops[n];
      IdsAscend(front, topic);
      LiveIff(front, topic, s);
      forall i: nat | i < n
        ensures IsSubscription(ops, i, topic, s) == IsSubscription(front, i, topic, s)
        ensures RemovedAfter(ops, i, topic, s.id) <==> RemovedAfter(front, i, topic, s.id) || Removes(last, topic, s.id)
      {
        HistoryStep(ops, i, topic, s);
      }
      assert !RemovedAfter(ops, n, topic, s.id);
      LiveStep(After(front), last, topic, s);
    }
  }

  lemma {:induction false} ThroughConcat(a: seq<Middleware>, b: seq<Middleware>, e: Event)
    ensures Through(a + b, e) == match Through(a, e) case None => None case Some(e') => Through(b, e')
    decreases |a|
  {
    if a == [] {
      assert a + b == b;
    } else {
      assert (a + b)[0] == a[0] && (a + b)[1..] == a[1..] + b;
      match a[0](e)
      case None =>
      case Some(e') => ThroughConcat(a[1..], b, e');
    }
  }

  /** The `Sub` operations so far that gave `topic` a subscriber which is still live and runs `handler`. */
  ghost predicate Listening(ops: seq<Op>, topic: string, handler: Handler) {
    exists i: nat, id :: IsSubscription(ops, i, topic, Subscriber(id, handler)) && !RemovedAfter(ops, i, topic, id)
  }

  /** Who receives a published event, from the history alone: nobody if a middleware drops it; otherwise exactly the
      handlers subscribed, and not since removed, under its final topic or under "*". */
  lemma DeliveredIff(ops: seq<Op>, e: Event, handler: Handler, received: Event)
    requires Subs(ops) < WRAP - 1
    ensures (handler, received) in Deliveries(After(ops), e) <==>
      && Through(After(ops).middlewares, e) == Some(received)
      && (Listening(ops, received.topic, handler) || Listening(ops, "*", handler))
  {
    var b := After(ops);
    var final := Through(b.middlewares, e);
    if final.Some? {
      var topic := final.value.topic;
      SentTo(Live(b, topic), final.value, handler, received);
      SentTo(Live(b, "*"), final.value, handler, received);
      ListeningIffLive(ops, topic, handler);
      ListeningIffLive(ops, "*", handler);
    }
  }

  lemma SentTo(list: seq<Subscriber>, e: Event, handler: Handler, received: Event)
    ensures (handler, received) in ToEach(list, e) <==> received == e && exists s :: s in list && s.handler == handler
  {
    if s :| s in list && s.handler == handler {
      var i :| 0 <= i < |list| && list[i] == s;
      assert ToEach(list, e)[i] == (handler, e);
    }
  }

  lemma ListeningIffLive(ops: seq<Op>, topic: string, handler: Handler)
    requires Subs(ops) < WRAP - 1
    ensures Listening(ops, topic, handler) <==> exists s :: s in Live(After(ops), topic) && s.handler == handler
  {
    if Listening(ops, topic, handler) {
      var i: nat, id :| IsSubscription(ops, i, topic, Subscriber(id, handler)) && !RemovedAfter(ops, i, topic, id);
      LiveIff(ops, topic, Subscriber(id, handler));
    }
    if s :| s in Live(After(ops), topic) && s.handler == handler {
      LiveIff(ops, topic, s);
      assert s == Subscriber(s.id, handler);
    }
  }

  /** No id is ever live under two topics, or twice under one. */
  lemma IdsAreUnique(ops: seq<Op>, topic: string, s: Subscriber, topic': string, s': Subscriber)
    requires Subs(ops) < WRAP - 1
    requires s in Live(After(ops), topic) && s' in Live(After(ops), topic') && s.id == s'.id
    ensures topic == topic' && s == s'
  {
    LiveIff(ops, topic, s);
    LiveIff(ops, topic', s');
    var i: nat :| IsSubscription(ops, i, topic, s) && !RemovedAfter(ops, i, topic, s.id);
    var j: nat :| IsSubscription(ops, j, topic', s') && !RemovedAfter(ops, j, topic', s'.id);
    SubsGrow(ops, i, j);
    SubsGrow(ops, j, i);
  }

  lemma {:induction false} SubsGrow(ops: seq<Op>, i: nat, j: nat)
    requires i < j ==> j <= |ops| && ops[i].Sub?
    ensures i < j ==> Subs(ops[..i]) < Subs(ops[..j])
    decreases j
  {
    if i < j {
      assert ops[..j][..j - 1] == ops[..j - 1];
      if i < j - 1 {
        SubsGrow(ops, i, j - 1);
      }
    }
  }

  /** Unsubscribing succeeds at most once: after a removal, no later run brings the id back under its topic. */
  lemma RemovedForGood(ops: seq<Op>, id: nat, topic: string, more: seq<Op>, s: Subscriber)
    requires Subs(ops + [Unsub(id, topic)] + more) < WRAP - 1
    requires s in Live(After(ops), topic) && s.id == id
    ensures forall x :: x in Live(After(ops + [Unsub(id, topic)] + more), topic) ==> x.id != id
  {
    var all := ops + [Unsub(id, topic)] + more;
    SubsOfPrefix(ops, [Unsub(id, topic)] + more);
    assert all == ops + ([Unsub(id, topic)] + more);
    LiveIff(ops, topic, s);
    var k: nat :| IsSubscription(ops, k, topic, s) && !RemovedAfter(ops, k, topic, id);
    forall x | x in Live(After(all), topic)
      ensures x.id != id
    {
      LiveIff(all, topic, x);
      var i: nat :| IsSubscription(all, i, topic, x) && !RemovedAfter(all, i, topic, x.id);
      assert all[|ops|] == Unsub(id, topic);
      if i < |ops| {
        assert x.id == id ==> RemovedAfter(all, i, topic, x.id);
      } else {
        assert all[..k] == ops[..k] && all[k] == ops[k];
        SubsGrow(all, k, i);
      }
    }
  }

  lemma {:induction false} SubsOfPrefix(a: seq<Op>, b: seq<Op>)
    ensures Subs(a) <= Subs(a + b)
    decreases |b|
  {
    if b == [] {
      assert a + b == a;
    } else {
      assert (a + b)[..|a + b| - 1] == a + b[..|b| - 1];
      SubsOfPrefix(a, b[..|b| - 1]);
    }
  }

  // ---------------------------------------------------------------- order and number of deliveries

  /** The event on its way: each middleware turns it into the next. */
  ghost predicate IsTrace(middlewares: seq<Middleware>, trace: seq<Event>) {
    |trace| == |middlewares| + 1 &&
    forall i :: 0 <= i < |middlewares| ==> middlewares[i](trace[i]) == Some(trace[i + 1])
  }

  /** The chain applies every middleware, in the order they were added, each to the outcome of the one before. */
  lemma {:induction false} ThroughIff(middlewares: seq<Middleware>, e: Event, r: Event)
    ensures Through(middlewares, e) == Some(r) <==>
            exists trace :: IsTrace(middlewares, trace) && trace[0] == e && trace[|middlewares|] == r
    decreases |middlewares|
  {
    if middlewares == [] {
      if e == r {
        assert IsTrace(middlewares, [e]);
      }
    } else {
      var rest := middlewares[1..];
      if Through(middlewares, e) == Some(r) {
        var e' := middlewares[0](e).value;
        ThroughIff(rest, e', r);
        var trace :| IsTrace(rest, trace) && trace[0] == e' && trace[|rest|] == r;
        LongerTrace(middlewares, e, trace);
      }
      if trace :| IsTrace(middlewares, trace) && trace[0] == e && trace[|middlewares|] == r {
        assert middlewares[0](trace[0]) == Some(trace[1]);
        ShorterTrace(middlewares, trace);
        ThroughIff(rest, trace[1], r);
      }
    }
  }

  lemma LongerTrace(middlewares: seq<Middleware>, e: Event, trace: seq<Event>)
    requires middlewares != [] && IsTrace(middlewares[1..], trace) && middlewares[0](e) == Some(trace[0])
    ensures IsTrace(middlewares, [e] + trace)
  {
    forall i | 0 <= i < |middlewares|
      ensures middlewares[i](([e] + trace)[i]) == Some(([e] + trace)[i + 1])
    {
      if i > 0 {
        assert middlewares[1..][i - 1](trace[i - 1]) == Some(trace[i]);
      }
    }
  }

  lemma ShorterTrace(middlewares: seq<Middleware>, trace: seq<Event>)
    requires middlewares != [] && IsTrace(middlewares, trace)
    ensures IsTrace(middlewares[1..], trace[1..])
  {
    forall i | 0 <= i < |middlewares| - 1
      ensures middlewares[1..][i](trace[1..][i]) == Some(trace[1..][i + 1])
    {
      assert middlewares[i + 1](trace[i + 1]) == Some(trace[i + 2]);
    }
  }

  /** From the history alone: the subscribers of `topic` among the first `n` operations that are not removed by the end,
      in order of subscription. */
  ghost function Survivors(ops: seq<Op>, topic: string, n: nat): seq<Subscriber>
    requires n <= |ops|
  {
    if n == 0 then [] else
    var id := 1 + Subs(ops[..n - 1]);
    Survivors(ops, topic, n - 1) +
    if ops[n - 1].Sub? && ops[n - 1].topic == topic && !RemovedAfter(ops, n - 1, topic, id)
    then [Subscriber(id, ops[n - 1].handler)] else []
  }

  /** The i-th operation subscribed `s`, and nothing removed it since. */
  ghost predicate Survives(ops: seq<Op>, topic: string, s: Subscriber, i: nat) {
    IsSubscription(ops, i, topic, s) && !RemovedAfter(ops, i, topic, s.id)
  }

  lemma AscendingSnoc(list: seq<Subscriber>, s: Subscriber)
    requires Ascending(list, s.id) && s.id > 0
    ensures Ascending(list, s.id + 1) && Ascending(list + [s], s.id + 1)
  {
  }

  lemma {:induction false} SurvivorsAscend(ops: seq<Op>, topic: string, n: nat)
    requires n <= |ops|
    ensures Ascending(Survivors(ops, topic, n), 1 + Subs(ops[..n]))
  {
    if n > 0 {
      SurvivorsAscend(ops, topic, n - 1);
      assert ops[..n][..n - 1] == ops[..n - 1];
      if ops[n - 1].Sub? {
        AscendingSnoc(Survivors(ops, topic, n - 1), Subscriber(1 + Subs(ops[..n - 1]), ops[n - 1].handler));
      }
    }
  }

  lemma {:induction false} SurvivorsMean(ops: seq<Op>, topic: string, n: nat, s: Subscriber)
    requires n <= |ops|
    ensures s in Survivors(ops, topic, n) <==> exists i: nat :: i < n && Survives(ops, topic, s, i)
  {
    if n > 0 {
      SurvivorsMean(ops, topic, n - 1, s);
      var id, op := 1 + Subs(ops[..n - 1]), ops[n - 1];
      assert Survives(ops, topic, s, n - 1) <==>
             op.Sub? && op.topic == topic && !RemovedAfter(ops, n - 1, topic, id) && s == Subscriber(id, op.handler);
    }
  }

  ghost predicate SameElements(a: seq<Subscriber>, b: seq<Subscriber>) {
    forall s :: s in a <==> s in b
  }

  lemma EmptyTogether(a: seq<Subscriber>, b: seq<Subscriber>)
    requires SameElements(a, b)
    ensures a == [] <==> b == []
  {
    if a != [] {
      assert a[0] in a;
    }
    if b != [] {
      assert b[0] in b;
    }
  }

  /** Without its last element, which occurs only there. */
  lemma FrontMeans(a: seq<Subscriber>, s: Subscriber)
    requires a != [] && forall i, j :: 0 <= i < j < |a| ==> a[i].id < a[j].id
    ensures s in a[..|a| - 1] <==> s in a && s != a[|a| - 1]
  {
    if s in a[..|a| - 1] {
      var i :| 0 <= i < |a| - 1 && a[i] == s;
      assert a[i].id < a[|a| - 1].id;
    }
    if s in a && s != a[|a| - 1] {
      var i :| 0 <= i < |a| && a[i] == s;
      assert a[..|a| - 1][i] == s;
    }
  }

  lemma LastIsGreatest(a: seq<Subscriber>, bound: nat, s: Subscriber)
    requires Ascending(a, bound) && s in a
    ensures s.id <= a[|a| - 1].id && (s.id == a[|a| - 1].id ==> s == a[|a| - 1])
  {
    var i :| 0 <= i < |a| && a[i] == s;
    assert i < |a| - 1 ==> a[i].id < a[|a| - 1].id;
  }

  lemma SameFronts(a: seq<Subscriber>, b: seq<Subscriber>, bound: nat)
    requires Ascending(a, bound) && Ascending(b, bound) && SameElements(a, b) && a != [] && b != []
    ensures a[|a| - 1] == b[|b| - 1] && SameElements(a[..|a| - 1], b[..|b| - 1])
  {
    var x, y := a[|a| - 1], b[|b| - 1];
    assert x in a && y in b;
    LastIsGreatest(a, bound, y);
    LastIsGreatest(b, bound, x);
    var a', b' := a[..|a| - 1], b[..|b| - 1];
    forall s
      ensures s in a' <==> s in b'
    {
      FrontMeans(a, s);
      FrontMeans(b, s);
    }
  }

  lemma {:induction false} AscendingIsUnique(a: seq<Subscriber>, b: seq<Subscriber>, bound: nat)
    requires Ascending(a, bound) && Ascending(b, bound) && SameElements(a, b)
    ensures a == b
    decreases |a|
  {
    EmptyTogether(a, b);
    if a != [] {
      SameFronts(a, b, bound);
      AscendingIsUnique(a[..|a| - 1], b[..|b| - 1], bound);
      assert a == a[..|a| - 1] + [a[|a| - 1]] && b == b[..|b| - 1] + [b[|b| - 1]];
    }
  }

  lemma LiveAreSurvivors(ops: seq<Op>, topic: string)
    requires Subs(ops) < WRAP - 1
    ensures Live(After(ops), topic) == Survivors(ops, topic, |ops|)
  {
    var live, survivors := Live(After(ops), topic), Survivors(ops, topic, |ops|);
    assert ops[..|ops|] == ops;
    IdsAscend(ops, topic);
    SurvivorsAscend(ops, topic, |ops|);
    forall s
      ensures s in live <==> s in survivors
    {
      LiveIff(ops, topic, s);
      SurvivorsMean(ops, topic, |ops|, s);
      if i: nat :| IsSubscription(ops, i, topic, s) && !RemovedAfter(ops, i, topic, s.id) {
        assert Survives(ops, topic, s, i);
      }
    }
    AscendingIsUnique(live, survivors, 1 + Subs(ops));
  }

  /** The middlewares in the order they were added. */
  function Used(ops: seq<Op>): seq<Middleware> {
    if ops == [] then [] else
    Used(ops[..|ops| - 1]) + if ops[|ops| - 1].Use? then [ops[|ops| - 1].m] else []
  }

  lemma {:induction false} MiddlewaresAreUsed(ops: seq<Op>)
    ensures After(ops).middlewares == Used(ops)
    decreases |ops|
  {
    if ops != [] {
      MiddlewaresAreUsed(ops[..|ops| - 1]);
    }
  }

  /** `sent` is `e`, once to each of `own` in order and then once to each of `all` in order. */
  predicate GoesTo(sent: seq<(Handler, Event)>, own: seq<Subscriber>, all: seq<Subscriber>, e: Event) {
    && |sent| == |own| + |all|
    && (forall i :: 0 <= i < |own| ==> sent[i] == (own[i].handler, e))
    && (forall i :: 0 <= i < |all| ==> sent[|own| + i] == (all[i].handler, e))
  }

  lemma SentInOrder(own: seq<Subscriber>, all: seq<Subscriber>, e: Event)
    ensures GoesTo(ToEach(own, e) + ToEach(all, e), own, all, e)
  {
  }

  /** Exactly what publication delivers, in order and number, from the history alone: nothing if the event is dropped;
      otherwise the transformed event, once for each surviving subscription to its final topic, in order of
      subscription, and then once for each to "*"; so twice to each of those if "*" is the final topic. */
  lemma DeliveriesFromHistory(ops: seq<Op>, e: Event)
    requires Subs(ops) < WRAP - 1
    ensures var sent, final := Deliveries(After(ops), e), Through(Used(ops), e);
      && (final.None? ==> sent == [])
      && (final.Some? ==>
            GoesTo(sent, Survivors(ops, final.value.topic, |ops|), Survivors(ops, "*", |ops|), final.value))
  {
    MiddlewaresAreUsed(ops);
    var b, final := After(ops), Through(Used(ops), e);
    if final.Some? {
      LiveAreSurvivors(ops, final.value.topic);
      LiveAreSurvivors(ops, "*");
      SentInOrder(Live(b, final.value.topic), Live(b, "*"), final.value);
    }
  }
}
