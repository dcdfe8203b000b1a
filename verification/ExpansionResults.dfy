/**
 What an expansion pushes. The fields and failures it comes to are listed first, without regard to
 what was pushed before; then the outcome is read off that list: the first field of each response
 name decides, in the order of the list, and the first failure ends the expansion.
 */
module ExpansionResults {
  import opened Common
  import opened InputValues
  import opened ExecutableValidation
  import opened SelectionExecution

  // ---- What an expansion comes to ----

  datatype Event = Meets(field: Selection) | Throws(failure: Outcome)

  predicate AreFields(events: seq<Event>) {
    forall event | event in events :: event.Meets? ==> event.field.Field?
  }

  /** Spreads and inline fragments that are kept and apply are expanded where they stand. */
  function Events(e: Environment, fuel: nat, selections: seq<Selection>): (events: seq<Event>)
    ensures AreFields(events)
    decreases fuel, selections, 0
  {
    if selections == [] then []
    else EventsOf(e, fuel, selections[0]) + Events(e, fuel, selections[1..])
  }

  function EventsOf(e: Environment, fuel: nat, selection: Selection): (events: seq<Event>)
    ensures AreFields(events)
    decreases fuel, selection, 1
  {
    match selection
    case Field(_, _, _, _, _) => [Meets(selection)]
    case FragmentSpread(name, directives) =>
      if name !in e.fragments then [Throws(UnknownFragment(name))]
      else if e.fragments[name].typeCondition !in e.typeNames then []
      else if ShouldSkip(e.variables, directives).Fails? then [Throws(InvalidDirective)]
      else if ShouldSkip(e.variables, directives).Skip? then []
      else if fuel == 0 then [Throws(OutOfFuel)]
      else Events(e, fuel - 1, e.fragments[name].selections)
    case InlineFragment(typeCondition, inner, directives) =>
      if ShouldSkip(e.variables, directives).Fails? then [Throws(InvalidDirective)]
      else if ShouldSkip(e.variables, directives).Skip? then []
      else if typeCondition == "" || typeCondition in e.typeNames then Events(e, fuel, inner)
      else []
  }

  // ---- What is to come of it ----

  /** The event is the first field of its response name. */
  predicate IsFirst(events: seq<Event>, i: nat)
    requires i < |events| && AreFields(events)
  {
    events[i].Meets? &&
    forall k | 0 <= k < i && events[k].Meets? :: ResponseName(events[k].field) != ResponseName(events[i].field)
  }

  /** How the event ends the expansion, if it does. */
  function FailureAt(e: Environment, events: seq<Event>, i: nat): Option<Outcome>
    requires i < |events| && AreFields(events)
  {
    if events[i].Throws? then Some(events[i].failure)
    else if !IsFirst(events, i) || events[i].field.name !in e.resolvers then None
    else if ShouldSkip(e.variables, events[i].field.directives).Fails? then Some(InvalidDirective)
    else if ShouldSkip(e.variables, events[i].field.directives).Keep? &&
            !AreSupplied(e.variables, events[i].field.arguments) then Some(InvalidArgument)
    else None
  }

  /** A field with a resolver is resolved unless it is skipped; one without pushes an error. */
  function PushedFor(e: Environment, field: Selection): seq<Pushed>
    requires field.Field?
  {
    if field.name !in e.resolvers then [UnknownField(ResponseName(field), field.name)]
    else if ShouldSkip(e.variables, field.directives).Skip? then []
    else [Resolved(ResponseName(field), field.name)]
  }

  /** Each response name has what its first field pushes, in the order of the first fields. */
  function Responses(e: Environment, events: seq<Event>): seq<Pushed>
    requires AreFields(events)
  {
    if events == [] then []
    else
      var last := |events| - 1;
      assert AreFields(events[..last]);
      Responses(e, events[..last]) + (if IsFirst(events, last) then PushedFor(e, events[last].field) else [])
  }

  function NamesMet(events: seq<Event>): set<string>
    requires AreFields(events)
  {
    set i | 0 <= i < |events| && events[i].Meets? :: ResponseName(events[i].field)
  }

  predicate NoFailure(e: Environment, events: seq<Event>)
    requires AreFields(events)
  {
    forall i | 0 <= i < |events| :: FailureAt(e, events, i).None?
  }

  /** The first failure, at some event of the list. */
  predicate FailsWith(e: Environment, events: seq<Event>, outcome: Outcome)
    requires AreFields(events)
  {
    exists i :: 0 <= i < |events| && FailureAt(e, events, i) == Some(outcome) &&
      forall k | 0 <= k < i :: FailureAt(e, events, k).None?
  }

  // ---- The expansion does just that ----

  lemma PrefixAgrees(e: Environment, before: seq<Event>, more: seq<Event>)
    requires AreFields(before) && AreFields(more)
    ensures AreFields(before + more)
    ensures forall i | 0 <= i < |before| :: IsFirst(before + more, i) == IsFirst(before, i)
    ensures forall i | 0 <= i < |before| :: FailureAt(e, before + more, i) == FailureAt(e, before, i)
  {
    var all := before + more;
    forall i | 0 <= i < |before|
      ensures IsFirst(all, i) == IsFirst(before, i)
    {
      assert forall k | 0 <= k <= i :: all[k] == before[k];
    }
  }

  lemma OneMore(e: Environment, before: seq<Event>, event: Event)
    requires AreFields(before) && (event.Meets? ==> event.field.Field?)
    ensures AreFields(before + [event])
    ensures IsFirst(before + [event], |before|) <==>
            event.Meets? && ResponseName(event.field) !in NamesMet(before)
    ensures Responses(e, before + [event]) == Responses(e, before) +
            (if event.Meets? && ResponseName(event.field) !in NamesMet(before) then PushedFor(e, event.field) else [])
    ensures NamesMet(before + [event]) ==
            NamesMet(before) + (if event.Meets? then {ResponseName(event.field)} else {})
  {
    var all := before + [event];
    assert all[..|before|] == before;
    assert forall k | 0 <= k < |before| :: all[k] == before[k];
  }

  /** The outcome after more events, when those before brought no failure. */
  predicate Continues(e: Environment, before: seq<Event>, more: seq<Event>, outcome: Outcome)
    requires AreFields(before) && AreFields(more)
  {
    assert AreFields(before + more);
    var all := before + more;
    if NoFailure(e, all) then outcome == Finished(NamesMet(all), Responses(e, all))
    else !outcome.Finished? && FailsWith(e, all, outcome)
  }

  /** A failure decides, whatever would come after it. */
  lemma FailureDecides(e: Environment, events: seq<Event>, more: seq<Event>, outcome: Outcome)
    requires AreFields(events) && AreFields(more) && FailsWith(e, events, outcome)
    ensures AreFields(events + more) && FailsWith(e, events + more, outcome) && !NoFailure(e, events + more)
  {
    PrefixAgrees(e, events, more);
    var i :| 0 <= i < |events| && FailureAt(e, events, i) == Some(outcome) &&
      forall k | 0 <= k < i :: FailureAt(e, events, k).None?;
    assert FailureAt(e, events + more, i) == Some(outcome);
  }

  lemma {:induction false} SelectionsContinue(
    e: Environment, fuel: nat, before: seq<Event>, selections: seq<Selection>)
    requires AreFields(before) && NoFailure(e, before)
    ensures Continues(
      e, before, Events(e, fuel, selections),
      Execute(e, fuel, NamesMet(before), Responses(e, before), selections))
    decreases fuel, selections, 0
  {
    if selections == [] {
      assert before + [] == before;
    } else {
      var one, rest := EventsOf(e, fuel, selections[0]), Events(e, fuel, selections[1..]);
      var first := ExecuteOne(e, fuel, NamesMet(before), Responses(e, before), selections[0]);
      OneContinues(e, fuel, before, selections[0]);
      assert before + (one + rest) == before + one + rest;
      if first.Finished? {
        SelectionsContinue(e, fuel, before + one, selections[1..]);
      } else {
        FailureDecides(e, before + one, rest, first);
      }
    }
  }

  lemma ThrowContinues(e: Environment, before: seq<Event>, failure: Outcome)
    requires AreFields(before) && NoFailure(e, before) && !failure.Finished?
    ensures Continues(e, before, [Throws(failure)], failure)
  {
    var all := before + [Throws(failure)];
    PrefixAgrees(e, before, [Throws(failure)]);
    assert all[|before|] == Throws(failure);
    assert FailureAt(e, all, |before|) == Some(failure);
  }

  lemma FieldContinues(e: Environment, fuel: nat, before: seq<Event>, field: Selection)
    requires field.Field? && AreFields(before) && NoFailure(e, before)
    ensures Continues(
      e, before, [Meets(field)], ExecuteOne(e, fuel, NamesMet(before), Responses(e, before), field))
  {
    var event := Meets(field);
    var all := before + [event];
    PrefixAgrees(e, before, [event]);
    OneMore(e, before, event);
    assert all[|before|] == event;
    var outcome := ExecuteOne(e, fuel, NamesMet(before), Responses(e, before), field);
    assert FailureAt(e, all, |before|) == (if outcome.Finished? then None else Some(outcome));
    if outcome.Finished? {
      assert NamesMet(all) == NamesMet(before) + {ResponseName(field)};
    }
  }

  lemma NothingContinues(e: Environment, before: seq<Event>)
    requires AreFields(before) && NoFailure(e, before)
    ensures Continues(e, before, [], Finished(NamesMet(before), Responses(e, before)))
  {
    assert before + [] == before;
  }

  lemma {:induction false} OneContinues(e: Environment, fuel: nat, before: seq<Event>, selection: Selection)
    requires AreFields(before) && NoFailure(e, before)
    ensures Continues(
      e, before, EventsOf(e, fuel, selection),
      ExecuteOne(e, fuel, NamesMet(before), Responses(e, before), selection))
    decreases fuel, selection, 1
  {
    match selection
    case Field(_, _, _, _, _) => FieldContinues(e, fuel, before, selection);
    case FragmentSpread(name, directives) =>
      NothingContinues(e, before);
      ThrowContinues(e, before, UnknownFragment(name));
      ThrowContinues(e, before, InvalidDirective);
      ThrowContinues(e, before, OutOfFuel);
      if name in e.fragments && fuel > 0 {
        SelectionsContinue(e, fuel - 1, before, e.fragments[name].selections);
      }
    case InlineFragment(_, inner, _) =>
      NothingContinues(e, before);
      ThrowContinues(e, before, InvalidDirective);
      SelectionsContinue(e, fuel, before, inner);
  }

  /** The outcome of an expansion, read off the events it comes to. */
  lemma ExpansionIsReadOff(e: Environment, fuel: nat, selections: seq<Selection>)
    ensures var events, outcome := Events(e, fuel, selections), Execute(e, fuel, {}, [], selections);
            (outcome.Finished? <==> NoFailure(e, events)) &&
            (outcome.Finished? ==> outcome == Finished(NamesMet(events), Responses(e, events))) &&
            (!outcome.Finished? ==> FailsWith(e, events, outcome))
  {
    var events := Events(e, fuel, selections);
    SelectionsContinue(e, fuel, [], selections);
    assert NamesMet([]) == {} && Responses(e, []) == [];
    assert [] + events == events;
    assert Continues(e, [], events, Execute(e, fuel, {}, [], selections));
  }

  // ---- The pushed values one by one ----

  /** What the first fields push is pushed, and nothing else. */
  lemma {:induction false} PushedAre(e: Environment, events: seq<Event>, pushed: Pushed)
    requires AreFields(events)
    ensures pushed in Responses(e, events) <==>
            exists i :: 0 <= i < |events| && IsFirst(events, i) && PushedFor(e, events[i].field) == [pushed]
  {
    if events != [] {
      var last := |events| - 1;
      var before := events[..last];
      assert AreFields(before);
      assert before + [events[last]] == events;
      PushedAre(e, before, pushed);
      PrefixAgrees(e, before, [events[last]]);
      assert forall i | 0 <= i < last :: events[i] == before[i];
      if i :| 0 <= i < |events| && IsFirst(events, i) && PushedFor(e, events[i].field) == [pushed] {
        assert i < last ==> IsFirst(before, i) && PushedFor(e, before[i].field) == [pushed];
      }
    }
  }
}
