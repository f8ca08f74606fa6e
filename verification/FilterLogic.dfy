/** Nested AND/OR filters, and the shortcuts their evaluation takes. */
module FilterLogic {
  import opened AuditModel

  datatype Logic =
    | And(filters: seq<Filter>)
    | Or(filters: seq<Filter>)
    | Complex(conditions: seq<Condition>)

  datatype Condition = Condition(logic: Logic, isAnd: bool)

  // ---------------------------------------------------------------- meaning

  ghost predicate Denotes(logic: Logic, e: AuditEvent)
    decreases logic, 1
  {
    match logic
    case And(filters) => forall f :: f in filters ==> Matches(f, e)
    case Or(filters) => exists f :: f in filters && Matches(f, e)
    case Complex(conditions) => conditions == [] || Fold(conditions, e)
  }

  /** From left to right, each condition joined to what precedes it by its own operator; the operator of the
      first condition joins nothing. */
  ghost predicate Fold(conditions: seq<Condition>, e: AuditEvent)
    requires conditions != []
    decreases conditions, 0
  {
    var last := conditions[|conditions| - 1];
    if |conditions| == 1 then Holds(last, e)
    else if last.isAnd then Fold(conditions[..|conditions| - 1], e) && Holds(last, e)
    else Fold(conditions[..|conditions| - 1], e) || Holds(last, e)
  }

  ghost predicate Holds(condition: Condition, e: AuditEvent)
    decreases condition, 0
  {
    Denotes(condition.logic, e)
  }

  // ---------------------------------------------------------------- evaluation

  /** The code's own evaluation: two shortcuts, a loop for the mixed case, recursion into the conditions. */
  method Evaluate(logic: Logic, e: AuditEvent) returns (matches: bool)
    ensures matches == Denotes(logic, e)
    decreases logic, 1
  {
    match logic
    case And(filters) => matches := forall f :: f in filters ==> Matches(f, e);
    case Or(filters) => matches := exists f :: f in filters && Matches(f, e);
    case Complex(conditions) =>
      var allAnd := forall i :: 0 <= i < |conditions| ==> conditions[i].isAnd;
      var allOr := forall i :: 0 <= i < |conditions| ==> !conditions[i].isAnd;
      if allAnd {
        matches := EvaluateAll(conditions, e);
        if conditions != [] {
          AllAndIsFold(conditions, e);
        }
      } else if allOr {
        matches := EvaluateAny(conditions, e);
        AllOrIsFold(conditions, e);
      } else {
        matches := EvaluateMixed(conditions, e);
      }
  }

  method EvaluateCondition(condition: Condition, e: AuditEvent) returns (matches: bool)
    ensures matches == Holds(condition, e)
    decreases condition, 0
  {
    matches := Evaluate(condition.logic, e);
  }

  method EvaluateAll(conditions: seq<Condition>, e: AuditEvent) returns (all: bool)
    ensures all == forall i :: 0 <= i < |conditions| ==> Holds(conditions[i], e)
    decreases conditions, 0
  {
    for i := 0 to |conditions|
      invariant forall j :: 0 <= j < i ==> Holds(conditions[j], e)
    {
      var m := EvaluateCondition(conditions[i], e);
      if !m {
        return false;
      }
    }
    return true;
  }

  method EvaluateAny(conditions: seq<Condition>, e: AuditEvent) returns (any: bool)
    ensures any == exists i :: 0 <= i < |conditions| && Holds(conditions[i], e)
    decreases conditions, 0
  {
    for i := 0 to |conditions|
      invariant forall j :: 0 <= j < i ==> !Holds(conditions[j], e)
    {
      var m := EvaluateCondition(conditions[i], e);
      if m {
        return true;
      }
    }
    return false;
  }

  method EvaluateMixed(conditions: seq<Condition>, e: AuditEvent) returns (result: bool)
    requires conditions != []
    ensures result == Fold(conditions, e)
    decreases conditions, 0
  {
    result := false;
    for i := 0 to |conditions|
      invariant i > 0 ==> result == Fold(conditions[..i], e)
    {
      var current := EvaluateCondition(conditions[i], e);
      assert conditions[..i + 1][..i] == conditions[..i];
      if i == 0 {
        result := current;
      } else if conditions[i].isAnd {
        result := result && current;
      } else {
        result := result || current;
      }
    }
    assert conditions[..|conditions|] == conditions;
  }

  // ---------------------------------------------------------------- the shortcuts are the fold

  lemma {:induction false} AllAndIsFold(conditions: seq<Condition>, e: AuditEvent)
    requires conditions != [] && forall i :: 0 <= i < |conditions| ==> conditions[i].isAnd
    ensures Fold(conditions, e) <==> forall i :: 0 <= i < |conditions| ==> Holds(conditions[i], e)
    decreases |conditions|
  {
    if |conditions| > 1 {
      AllAndIsFold(conditions[..|conditions| - 1], e);
    }
  }

  lemma {:induction false} AllOrIsFold(conditions: seq<Condition>, e: AuditEvent)
    requires conditions != [] && forall i :: 0 <= i < |conditions| ==> !conditions[i].isAnd
    ensures Fold(conditions, e) <==> exists i :: 0 <= i < |conditions| && Holds(conditions[i], e)
    decreases |conditions|
  {
    if |conditions| > 1 {
      var front := conditions[..|conditions| - 1];
      AllOrIsFold(front, e);
      assert forall i :: 0 <= i < |front| ==> front[i] == conditions[i];
    }
  }

  /** The first operator plays no part, although it decides which shortcut is taken. */
  lemma {:induction false} FirstOperatorIsIgnored(conditions: seq<Condition>, isAnd: bool, e: AuditEvent)
    requires conditions != []
    ensures Fold(conditions, e) == Fold(conditions[0 := conditions[0].(isAnd := isAnd)], e)
    decreases |conditions|
  {
    if |conditions| > 1 {
      var flipped := conditions[0 := conditions[0].(isAnd := isAnd)];
      var front := conditions[..|conditions| - 1];
      assert flipped[..|flipped| - 1] == front[0 := front[0].(isAnd := isAnd)];
      FirstOperatorIsIgnored(front, isAnd, e);
    }
  }

  /** Operators have no precedence: a condition that does not hold, joined by AND, wipes out everything before
      it, and what follows starts over from false. */
  lemma {:induction false} FailedAndWipesOut(before: seq<Condition>, failed: Logic, after: seq<Condition>,
                                             e: AuditEvent)
    requires before != [] && !Denotes(failed, e)
    ensures Fold(before + [Condition(failed, true)] + after, e) == Fold([Condition(failed, true)] + after, e)
    decreases |after|
  {
    var left, right := before + [Condition(failed, true)] + after, [Condition(failed, true)] + after;
    if after == [] {
      assert left == before + [Condition(failed, true)] && right == [Condition(failed, true)];
    } else {
      var shorter := after[..|after| - 1];
      assert left[..|left| - 1] == before + [Condition(failed, true)] + shorter;
      assert right[..|right| - 1] == [Condition(failed, true)] + shorter;
      FailedAndWipesOut(before, failed, shorter, e);
    }
  }

  // ---------------------------------------------------------------- AND and OR lists

  /** A list of one filter is that filter; the empty AND finds everything and the empty OR nothing; and lists join by
      their own operator. */
  lemma ListsOfFilters(f: Filter, a: seq<Filter>, b: seq<Filter>, e: AuditEvent)
    ensures Denotes(And([]), e) && !Denotes(Or([]), e)
    ensures Denotes(And([f]), e) == Denotes(Or([f]), e) == Matches(f, e)
    ensures Denotes(And(a + b), e) <==> Denotes(And(a), e) && Denotes(And(b), e)
    ensures Denotes(Or(a + b), e) <==> Denotes(Or(a), e) || Denotes(Or(b), e)
  {
    assert f in [f];
    assert forall g :: g in a + b <==> g in a || g in b;
  }

  /** A mixed list of single filters that are all joined by AND means the AND list, and by OR the OR list. */
  lemma ComplexOfOne(filters: seq<Filter>, isAnd: bool, e: AuditEvent)
    requires filters != []
    ensures var conditions := seq(|filters|, i requires 0 <= i < |filters| => Condition(And([filters[i]]), isAnd));
      Denotes(Complex(conditions), e) == Denotes(if isAnd then And(filters) else Or(filters), e)
  {
    var conditions := seq(|filters|, i requires 0 <= i < |filters| => Condition(And([filters[i]]), isAnd));
    forall i | 0 <= i < |filters|
      ensures Holds(conditions[i], e) == Matches(filters[i], e)
    {
      ListsOfFilters(filters[i], [], [], e);
    }
    if isAnd {
      AllAndIsFold(conditions, e);
    } else {
      AllOrIsFold(conditions, e);
      if f :| f in filters && Matches(f, e) {
        var i :| 0 <= i < |filters| && filters[i] == f;
        assert Holds(conditions[i], e);
      }
    }
  }
}
