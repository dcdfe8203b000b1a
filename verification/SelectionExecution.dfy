/**
 The executor's SelectionVisitor: it expands spreads and inline fragments into one flat list of
 resolved fields and follows every spread without looking for cycles.
 Fuel counts nested spreads; running out of it for every amount of fuel means not terminating.
 */
module SelectionExecution {
  import opened Common
  import opened InputValues
  import opened ExecutableValidation
  import opened FragmentCycles

  // ---- @skip and @include ----

  datatype Decision = Skip | Keep | Fails

  /** Every variable of the literal has a value. */
  predicate IsSupplied(variables: map<string, Literal>, v: Literal) {
    match v
    case Variable(name) => name in variables
    case ListValue(items) => forall item | item in items :: IsSupplied(variables, item)
    case ObjectValue(fields) => forall field | field in fields :: IsSupplied(variables, field.value)
    case _ => true
  }

  /** ValueVisitor throws on a variable without a value. */
  predicate AreSupplied(variables: map<string, Literal>, arguments: seq<Entry<Literal>>) {
    forall argument | argument in arguments :: IsSupplied(variables, argument.value)
  }

  /** DirectiveVisitor::visit evaluates every argument. */
  predicate CanRead(variables: map<string, Literal>, directives: seq<Directive>) {
    forall directive | directive in directives && directive.name != "" :: AreSupplied(variables, directive.arguments)
  }

  /** The variables anywhere in the literal. */
  function VariablesIn(v: Literal): set<string> {
    match v
    case Variable(name) => {name}
    case ListValue(items) => set item, name | item in items && name in VariablesIn(item) :: name
    case ObjectValue(fields) => set field, name | field in fields && name in VariablesIn(field.value) :: name
    case _ => {}
  }

  lemma {:induction false} SuppliedMeansEveryVariable(variables: map<string, Literal>, v: Literal)
    ensures IsSupplied(variables, v) <==> VariablesIn(v) <= variables.Keys
  {
    match v
    case ListValue(items) =>
      forall item | item in items
        ensures IsSupplied(variables, item) <==> VariablesIn(item) <= variables.Keys
      {
        SuppliedMeansEveryVariable(variables, item);
      }
      assert forall item | item in items :: VariablesIn(item) <= VariablesIn(v);
    case ObjectValue(fields) =>
      forall field | field in fields
        ensures IsSupplied(variables, field.value) <==> VariablesIn(field.value) <= variables.Keys
      {
        SuppliedMeansEveryVariable(variables, field.value);
      }
      assert forall field | field in fields :: VariablesIn(field.value) <= VariablesIn(v);
    case _ =>
  }

  /** The first directive of the name. */
  function FindDirective(directives: seq<Directive>, name: string): (found: Option<Directive>)
    ensures found.None? <==> forall directive | directive in directives :: directive.name != name
    ensures found.Some? ==>
              exists i :: 0 <= i < |directives| && directives[i] == found.value && found.value.name == name &&
                forall k | 0 <= k < i :: directives[k].name != name
  {
    if directives == [] then None
    else if directives[0].name == name then Some(directives[0])
    else
      var found := FindDirective(directives[1..], name);
      assert directives == [directives[0]] + directives[1..];
      assert forall k | 0 < k < |directives| :: directives[k] == directives[1..][k - 1];
      found
  }

  /** A directive's condition, if it has the one Boolean argument "if"; a repeated argument is dropped. */
  function Condition(variables: map<string, Literal>, arguments: seq<Entry<Literal>>): Option<bool> {
    if arguments == [] || exists argument :: argument in arguments && argument.name != "if" then None
    else
      var value := Substitute(variables, arguments[0].value);
      if value.BooleanValue? then Some(value.flag) else None
  }

  /** Exactly when "if" stands alone, though repeatedly, with a Boolean or a variable that has one. */
  lemma ConditionMeans(variables: map<string, Literal>, arguments: seq<Entry<Literal>>, condition: bool)
    ensures Condition(variables, arguments) == Some(condition) <==>
            |arguments| > 0 && (forall i | 0 <= i < |arguments| :: arguments[i].name == "if") &&
            (arguments[0].value == BooleanValue(condition) ||
             (arguments[0].value.Variable? && arguments[0].value.name in variables &&
              variables[arguments[0].value.name] == BooleanValue(condition)))
  {
    assert forall i | 0 <= i < |arguments| :: arguments[i] in arguments;
    assert forall argument | argument in arguments :: exists i :: 0 <= i < |arguments| && arguments[i] == argument;
  }

  /** shouldSkip: the first of @skip and @include that is present decides alone. */
  function ShouldSkip(variables: map<string, Literal>, directives: seq<Directive>): Decision {
    if !CanRead(variables, directives) then Fails
    else
      var skips := FindDirective(directives, "skip");
      var includes := FindDirective(directives, "include");
      if skips.Some? then Decide(Condition(variables, skips.value.arguments), true)
      else if includes.Some? then Decide(Condition(variables, includes.value.arguments), false)
      else Keep
  }

  function Decide(condition: Option<bool>, skipWhen: bool): Decision {
    if condition.None? then Fails else if condition.value == skipWhen then Skip else Keep
  }

  /** The condition of a directive that is present and well formed. */
  predicate Holds(variables: map<string, Literal>, directives: seq<Directive>, name: string, condition: bool) {
    var directive := FindDirective(directives, name);
    directive.Some? && Condition(variables, directive.value.arguments) == Some(condition)
  }

  predicate IsWellFormed(variables: map<string, Literal>, directives: seq<Directive>) {
    && CanRead(variables, directives)
    && (forall name | name in {"skip", "include"} ::
          FindDirective(directives, name).Some? ==>
            Condition(variables, FindDirective(directives, name).value.arguments).Some?)
  }

  /**
   Section 3.13 of GraphQL (October 2021): neither directive has precedence, and the selection is
   queried only if @skip is not true and @include is not false.
   */
  predicate SpecificationSkips(variables: map<string, Literal>, directives: seq<Directive>) {
    Holds(variables, directives, "skip", true) || Holds(variables, directives, "include", false)
  }

  /** The code follows the rule unless both directives are present and both conditions are false. */
  lemma SkipMeetsSpecificationUnlessBothFalse(variables: map<string, Literal>, directives: seq<Directive>)
    requires IsWellFormed(variables, directives)
    ensures ShouldSkip(variables, directives) == (if SpecificationSkips(variables, directives) then Skip else Keep)
            <==>
            !(Holds(variables, directives, "skip", false) && Holds(variables, directives, "include", false))
  {
    assert "skip" in {"skip", "include"} && "include" in {"skip", "include"};
  }

  /** The two do part: with both conditions false the selection is kept, and the specification skips it. */
  lemma BothFalseIsKept(variables: map<string, Literal>)
    ensures var directives := [
              Directive("skip", [Entry("if", BooleanValue(false))]),
              Directive("include", [Entry("if", BooleanValue(false))])];
            IsWellFormed(variables, directives) &&
            ShouldSkip(variables, directives) == Keep && SpecificationSkips(variables, directives)
  {
    var no := [Entry("if", BooleanValue(false))];
    var directives := [Directive("skip", no), Directive("include", no)];
    assert forall argument | argument in no :: argument == no[0];
    assert Condition(variables, no) == Some(false);
    assert directives[1..] == [directives[1]];
    assert FindDirective(directives[1..], "include") == Some(directives[1]);
    assert FindDirective(directives, "include") == Some(directives[1]);
    assert FindDirective(directives, "skip") == Some(directives[0]);
  }

  // ---- The expansion ----

  /** variables holds the values supplied for the operation's variables, resolvers the names of the fields. */
  datatype Environment = Environment(
    fragments: Fragments, typeNames: set<string>, resolvers: set<string>, variables: map<string, Literal>)

  /** What is pushed for a field: a resolver's result, or an error for a name without resolver. */
  datatype Pushed = Resolved(alias: string, name: string) | UnknownField(alias: string, name: string)

  datatype Outcome =
    | Finished(names: set<string>, values: seq<Pushed>)
    | UnknownFragment(name: string)
    | InvalidDirective
    | InvalidArgument
    | OutOfFuel

  function Execute(e: Environment, fuel: nat, names: set<string>, values: seq<Pushed>, selections: seq<Selection>)
    : Outcome
    decreases fuel, selections, 0
  {
    if selections == [] then Finished(names, values)
    else
      match ExecuteOne(e, fuel, names, values, selections[0])
      case Finished(names', values') => Execute(e, fuel, names', values', selections[1..])
      case failure => failure
  }

  function ExecuteOne(e: Environment, fuel: nat, names: set<string>, values: seq<Pushed>, selection: Selection)
    : Outcome
    decreases fuel, selection, 1
  {
    match selection
    case Field(_, name, arguments, _, directives) =>
      var alias := ResponseName(selection);
      if alias in names then Finished(names, values)
      else if name !in e.resolvers then Finished(names + {alias}, values + [UnknownField(alias, name)])
      else
        (match ShouldSkip(e.variables, directives)
         case Fails => InvalidDirective
         case Skip => Finished(names + {alias}, values)
         case Keep =>
           if AreSupplied(e.variables, arguments) then Finished(names + {alias}, values + [Resolved(alias, name)])
           else InvalidArgument)
    case FragmentSpread(name, directives) =>
      if name !in e.fragments then UnknownFragment(name)
      else if e.fragments[name].typeCondition !in e.typeNames then Finished(names, values)
      else
        (match ShouldSkip(e.variables, directives)
         case Fails => InvalidDirective
         case Skip => Finished(names, values)
         case Keep =>
           if fuel == 0 then OutOfFuel
           else Execute(e, fuel - 1, names, values, e.fragments[name].selections))
    case InlineFragment(typeCondition, inner, directives) =>
      (match ShouldSkip(e.variables, directives)
       case Fails => InvalidDirective
       case Skip => Finished(names, values)
       case Keep =>
         if typeCondition == "" || typeCondition in e.typeNames then Execute(e, fuel, names, values, inner)
         else Finished(names, values))
  }

  // ---- Every response name is resolved once ----

  /** The fields pushed so far have different response names, all of them taken. */
  predicate OncePerName(names: set<string>, values: seq<Pushed>) {
    && (forall i | 0 <= i < |values| :: values[i].alias in names)
    && (forall i, j | 0 <= i < j < |values| :: values[i].alias != values[j].alias)
  }

  /** Only more is taken and pushed, never a response name twice, in however many fragments it occurs. */
  predicate Extends(outcome: Outcome, names: set<string>, values: seq<Pushed>) {
    outcome.Finished? ==>
      names <= outcome.names && values <= outcome.values && OncePerName(outcome.names, outcome.values)
  }

  lemma {:induction false} ExpansionResolvesOnce(
    e: Environment, fuel: nat, names: set<string>, values: seq<Pushed>, selections: seq<Selection>)
    requires OncePerName(names, values)
    ensures Extends(Execute(e, fuel, names, values, selections), names, values)
    decreases fuel, selections, 0
  {
    if selections != [] {
      OneSelectionResolvesOnce(e, fuel, names, values, selections[0]);
      var first := ExecuteOne(e, fuel, names, values, selections[0]);
      if first.Finished? {
        ExpansionResolvesOnce(e, fuel, first.names, first.values, selections[1..]);
      }
    }
  }

  lemma {:induction false} OneSelectionResolvesOnce(
    e: Environment, fuel: nat, names: set<string>, values: seq<Pushed>, selection: Selection)
    requires OncePerName(names, values)
    ensures Extends(ExecuteOne(e, fuel, names, values, selection), names, values)
    decreases fuel, selection, 1
  {
    match selection
    case Field(_, _, _, _, _) =>
    case FragmentSpread(name, _) =>
      if name in e.fragments && fuel > 0 {
        ExpansionResolvesOnce(e, fuel - 1, names, values, e.fragments[name].selections);
      }
    case InlineFragment(_, inner, _) => ExpansionResolvesOnce(e, fuel, names, values, inner);
  }

  // ---- Acyclic fragments: the expansion ends ----

  lemma {:induction false} SpreadsOfMember(
    fragments: Fragments, stack: set<string>, selections: seq<Selection>, i: nat)
    requires i < |selections| && CycleFree(fragments, stack, selections)
    ensures CycleFree(fragments, stack, [selections[i]])
    ensures selections[i].InlineFragment? ==> CycleFree(fragments, stack, selections[i].selections)
  {
    assert SpreadsIn(false, [selections[i]]) == SpreadsOf(false, selections[i]);
    SpreadsOfMemberAreSpreads(selections, i);
  }

  lemma {:induction false} SpreadsOfMemberAreSpreads(selections: seq<Selection>, i: nat)
    requires i < |selections|
    ensures SpreadsOf(false, selections[i]) <= SpreadsIn(false, selections)
  {
    if i > 0 {
      SpreadsOfMemberAreSpreads(selections[1..], i - 1);
    }
  }

  lemma {:induction false} CycleFreeIsEnoughFuel(
    e: Environment, stack: set<string>, fuel: nat, names: set<string>, values: seq<Pushed>, selections: seq<Selection>)
    requires CycleFree(e.fragments, stack, selections)
    requires fuel >= |e.fragments.Keys - stack|
    ensures Execute(e, fuel, names, values, selections) != OutOfFuel
    decreases fuel, selections, 0
  {
    if selections != [] {
      SpreadsOfMember(e.fragments, stack, selections, 0);
      CycleFreeIsEnoughFuelForOne(e, stack, fuel, names, values, selections[0]);
      var first := ExecuteOne(e, fuel, names, values, selections[0]);
      if first.Finished? {
        assert CycleFree(e.fragments, stack, selections[1..]);
        CycleFreeIsEnoughFuel(e, stack, fuel, first.names, first.values, selections[1..]);
      }
    }
  }

  lemma StackGrows(fragments: Fragments, stack: set<string>, spread: Selection)
    requires spread.FragmentSpread? && spread.name in fragments && CycleFree(fragments, stack, [spread])
    ensures CycleFree(fragments, stack + {spread.name}, fragments[spread.name].selections)
    ensures |fragments.Keys - (stack + {spread.name})| == |fragments.Keys - stack| - 1
    ensures fragments.Keys - (stack + {spread.name}) < fragments.Keys - stack
  {
    var name := spread.name;
    assert name in SpreadsIn(false, [spread]);
    assert name in fragments.Keys - stack;
    assert fragments.Keys - (stack + {name}) == (fragments.Keys - stack) - {name};
  }

  lemma {:induction false} CycleFreeIsEnoughFuelForOne(
    e: Environment, stack: set<string>, fuel: nat, names: set<string>, values: seq<Pushed>,
    selection: Selection)
    requires CycleFree(e.fragments, stack, [selection])
    requires selection.InlineFragment? ==> CycleFree(e.fragments, stack, selection.selections)
    requires fuel >= |e.fragments.Keys - stack|
    ensures ExecuteOne(e, fuel, names, values, selection) != OutOfFuel
    decreases fuel, selection, 1
  {
    match selection
    case Field(_, _, _, _, _) =>
    case FragmentSpread(_, _) => CycleFreeIsEnoughFuelForSpread(e, stack, fuel, names, values, selection);
    case InlineFragment(_, inner, _) => CycleFreeIsEnoughFuel(e, stack, fuel, names, values, inner);
  }

  lemma {:induction false} CycleFreeIsEnoughFuelForSpread(
    e: Environment, stack: set<string>, fuel: nat, names: set<string>, values: seq<Pushed>, spread: Selection)
    requires spread.FragmentSpread? && CycleFree(e.fragments, stack, [spread])
    requires fuel >= |e.fragments.Keys - stack|
    ensures ExecuteOne(e, fuel, names, values, spread) != OutOfFuel
    decreases fuel, spread, 0
  {
    if spread.name in e.fragments {
      StackGrows(e.fragments, stack, spread);
      CycleFreeIsEnoughFuel(
        e, stack + {spread.name}, fuel - 1, names, values, e.fragments[spread.name].selections);
    }
  }

  lemma AcyclicIsCycleFreeAnywhere(fragments: Fragments, selections: seq<Selection>)
    requires Acyclic(fragments)
    ensures CycleFree(fragments, {}, selections)
  {
    AcyclicIsCycleFree(fragments);
    forall name | name in SpreadsIn(false, selections) && name in fragments
      ensures CycleFree(fragments, {} + {name}, fragments[name].selections)
    {
      assert {} + {name} == {name};
    }
  }

  /** One nested spread per fragment is enough for any selection set, whatever is skipped. */
  lemma AcyclicExpansionEnds(e: Environment, names: set<string>, values: seq<Pushed>, selections: seq<Selection>)
    requires Acyclic(e.fragments)
    ensures Execute(e, |e.fragments|, names, values, selections) != OutOfFuel
  {
    AcyclicIsCycleFreeAnywhere(e.fragments, selections);
    assert e.fragments.Keys - {} == e.fragments.Keys;
    CycleFreeIsEnoughFuel(e, {}, |e.fragments|, names, values, selections);
  }

  /** More fuel does not change the answer of an expansion that ended. */
  lemma {:induction false} MoreFuelSameOutcome(
    e: Environment, fuel: nat, more: nat, names: set<string>, values: seq<Pushed>, selections: seq<Selection>)
    requires fuel <= more && Execute(e, fuel, names, values, selections) != OutOfFuel
    ensures Execute(e, more, names, values, selections) == Execute(e, fuel, names, values, selections)
    decreases fuel, selections, 0
  {
    if selections != [] {
      MoreFuelSameOutcomeForOne(e, fuel, more, names, values, selections[0]);
      var first := ExecuteOne(e, fuel, names, values, selections[0]);
      if first.Finished? {
        MoreFuelSameOutcome(e, fuel, more, first.names, first.values, selections[1..]);
      }
    }
  }

  lemma {:induction false} MoreFuelSameOutcomeForOne(
    e: Environment, fuel: nat, more: nat, names: set<string>, values: seq<Pushed>, selection: Selection)
    requires fuel <= more && ExecuteOne(e, fuel, names, values, selection) != OutOfFuel
    ensures ExecuteOne(e, more, names, values, selection) == ExecuteOne(e, fuel, names, values, selection)
    decreases fuel, selection, 1
  {
    match selection
    case Field(_, _, _, _, _) =>
    case FragmentSpread(name, _) =>
      if name in e.fragments && e.fragments[name].typeCondition in e.typeNames &&
         ShouldSkip(e.variables, selection.directives).Keep? {
        MoreFuelSameOutcome(e, fuel - 1, more - 1, names, values, e.fragments[name].selections);
      }
    case InlineFragment(typeCondition, inner, _) =>
      if ShouldSkip(e.variables, selection.directives).Keep? && (typeCondition == "" || typeCondition in e.typeNames) {
        MoreFuelSameOutcome(e, fuel, more, names, values, inner);
      }
  }

  // ---- Cyclic fragments: the expansion does not end ----

  /** No spread is skipped, undefined or of another type, and no field throws. */
  ghost predicate ExpandsAll(e: Environment) {
    forall name | name in e.fragments ::
      Applies(e, e.fragments[name].selections) && e.fragments[name].typeCondition in e.typeNames
  }

  /** A field may be skipped; if it is resolved, its arguments have values. */
  predicate Applies(e: Environment, selections: seq<Selection>) {
    forall selection | selection in selections ::
      var decision := ShouldSkip(e.variables, selection.directives);
      match selection
      case Field(_, name, arguments, _, _) =>
        name in e.resolvers ==> decision.Skip? || (decision.Keep? && AreSupplied(e.variables, arguments))
      case FragmentSpread(name, _) => decision.Keep? && name in e.fragments
      case InlineFragment(typeCondition, inner, _) =>
        decision.Keep? && (typeCondition == "" || typeCondition in e.typeNames) && Applies(e, inner)
  }

  /** A set of fragments each of which spreads another one of the set. */
  ghost predicate Trap(fragments: Fragments, trap: set<string>) {
    forall name | name in trap ::
      name in fragments && SpreadsIn(false, fragments[name].selections) * trap != {}
  }

  predicate Failed(outcome: Outcome) {
    outcome.UnknownFragment? || outcome.InvalidDirective? || outcome.InvalidArgument?
  }

  lemma {:induction false} TrapExhaustsFuel(
    e: Environment, trap: set<string>, fuel: nat, names: set<string>, values: seq<Pushed>, selections: seq<Selection>)
    requires ExpandsAll(e) && Applies(e, selections) && Trap(e.fragments, trap)
    ensures !Failed(Execute(e, fuel, names, values, selections))
    ensures SpreadsIn(false, selections) * trap != {} ==> Execute(e, fuel, names, values, selections) == OutOfFuel
    decreases fuel, selections, 0
  {
    if selections != [] {
      assert selections[0] in selections;
      TrapExhaustsFuelForOne(e, trap, fuel, names, values, selections[0]);
      var first := ExecuteOne(e, fuel, names, values, selections[0]);
      if first.Finished? {
        assert forall selection | selection in selections[1..] :: selection in selections;
        TrapExhaustsFuel(e, trap, fuel, first.names, first.values, selections[1..]);
        assert SpreadsIn(false, selections) * trap ==
               SpreadsOf(false, selections[0]) * trap + SpreadsIn(false, selections[1..]) * trap;
      }
    }
  }

  lemma {:induction false} TrapExhaustsFuelForOne(
    e: Environment, trap: set<string>, fuel: nat, names: set<string>, values: seq<Pushed>, selection: Selection)
    requires ExpandsAll(e) && Applies(e, [selection]) && Trap(e.fragments, trap)
    ensures !Failed(ExecuteOne(e, fuel, names, values, selection))
    ensures SpreadsOf(false, selection) * trap != {} ==> ExecuteOne(e, fuel, names, values, selection) == OutOfFuel
    decreases fuel, selection, 1
  {
    assert selection in [selection];
    match selection
    case Field(_, _, _, _, _) =>
    case FragmentSpread(name, _) =>
      if fuel > 0 {
        TrapExhaustsFuel(e, trap, fuel - 1, names, values, e.fragments[name].selections);
      }
    case InlineFragment(typeCondition, inner, _) =>
      TrapExhaustsFuel(e, trap, fuel, names, values, inner);
  }

  /** A fragment on a cycle is never fully expanded, with any amount of fuel. */
  lemma CyclicExpansionNeverEnds(e: Environment, name: string, fuel: nat, names: set<string>, values: seq<Pushed>)
    requires ExpandsAll(e) && Reaches(e.fragments, false, name, name)
    ensures name in e.fragments
    ensures Execute(e, fuel, names, values, e.fragments[name].selections) == OutOfFuel
  {
    var path :| |path| >= 2 && path[0] == name && path[|path| - 1] == name && IsPath(e.fragments, false, path);
    var trap := set i | 0 <= i < |path| :: path[i];
    assert path[0] in e.fragments && path[1] in trap;
    forall member | member in trap
      ensures member in e.fragments && SpreadsIn(false, e.fragments[member].selections) * trap != {}
    {
      var i :| 0 <= i < |path| && path[i] == member;
      var k := if i == |path| - 1 then 0 else i;
      assert path[k] == member && path[k + 1] in trap;
      assert path[k + 1] in SpreadsIn(false, e.fragments[member].selections) * trap;
    }
    assert name in trap;
    TrapExhaustsFuel(e, trap, fuel, names, values, e.fragments[name].selections);
  }

  /** Some amount of fuel is enough to expand the fragment. */
  ghost predicate Ends(e: Environment, name: string)
    requires name in e.fragments
  {
    exists fuel: nat :: Execute(e, fuel, {}, [], e.fragments[name].selections) != OutOfFuel
  }

  /** The executor needs the validator's guarantee, and no more than that guarantee. */
  lemma ExpansionEndsExactlyWhenAcyclic(e: Environment)
    requires ExpandsAll(e)
    ensures Acyclic(e.fragments) <==> forall name | name in e.fragments :: Ends(e, name)
  {
    if Acyclic(e.fragments) {
      forall name | name in e.fragments
        ensures Ends(e, name)
      {
        AcyclicExpansionEnds(e, {}, [], e.fragments[name].selections);
      }
    } else {
      var name :| Reaches(e.fragments, false, name, name);
      CyclicExpansionNeverEnds(e, name, 0, {}, []);
      forall fuel: nat
        ensures Execute(e, fuel, {}, [], e.fragments[name].selections) == OutOfFuel
      {
        CyclicExpansionNeverEnds(e, name, fuel, {}, []);
      }
      assert !Ends(e, name);
    }
  }

  /** Every selection set can be executed against the fragments of a document the validator accepts. */
  lemma AcceptedDocumentExpands(
    schema: Schema, st: State, document: seq<Definition>, e: Environment, selections: seq<Selection>)
    requires Ready(st) && Validate(schema, st, document).errors == []
    requires e.fragments == FragmentsOf(document)
    ensures Execute(e, |e.fragments|, {}, [], selections) != OutOfFuel
  {
    AcceptedDocumentIsAcyclic(schema, st, document);
    AcyclicExpansionEnds(e, {}, [], selections);
  }

  // ---- The executor's visitor ----

  datatype Failure = MissingFragment(name: string) | BadDirective | BadArgument

  /** It terminates although it never checks for cycles: the stack below exists only in the proof. */
  class SelectionVisitor {
    const environment: Environment
    var names: set<string>
    var values: seq<Pushed>

    constructor (environment: Environment)
      ensures this.environment == environment && names == {} && values == []
    {
      this.environment := environment;
      names, values := {}, [];
    }

    /** What the visit throws or leaves behind, as an outcome. */
    function Now(thrown: Option<Failure>): Outcome
      reads this
    {
      match thrown
      case None => Finished(names, values)
      case Some(MissingFragment(name)) => UnknownFragment(name)
      case Some(BadDirective) => InvalidDirective
      case Some(BadArgument) => InvalidArgument
    }

    method DecideSkip(directives: seq<Directive>) returns (decision: Decision)
      ensures decision == ShouldSkip(environment.variables, directives)
    {
      if !CanRead(environment.variables, directives) {
        return Fails;
      }
      var skipped := [(true, "skip"), (false, "include")];
      for i := 0 to |skipped|
        invariant i > 0 ==> FindDirective(directives, "skip").None?
        invariant i > 1 ==> FindDirective(directives, "include").None?
      {
        var (skip, directiveName) := skipped[i];
        var directive := FindDirective(directives, directiveName);
        if directive.Some? {
          var argumentTrue, argumentFalse := ReadCondition(directive.value.arguments);
          if argumentTrue == argumentFalse {
            return Fails;
          }
          return if argumentTrue == skip then Skip else Keep;
        }
      }
      decision := Keep;
    }

    /** Both flags false stand for an exception: no argument, or one that is not a Boolean "if". */
    method ReadCondition(arguments: seq<Entry<Literal>>) returns (argumentTrue: bool, argumentFalse: bool)
      ensures Condition(environment.variables, arguments) ==
              if argumentTrue == argumentFalse then None else Some(argumentTrue)
    {
      argumentTrue, argumentFalse := false, false;
      var read: set<string> := {};
      for i := 0 to |arguments|
        invariant read == (if i == 0 then {} else {"if"})
        invariant forall k | 0 <= k < i :: arguments[k].name == "if"
        invariant i > 0 ==> Substitute(environment.variables, arguments[0].value) == BooleanValue(argumentTrue)
        invariant argumentFalse == (i > 0 && !argumentTrue) && (i == 0 ==> !argumentTrue)
      {
        var argument := arguments[i];
        if argument.name !in read {
          var value := Substitute(environment.variables, argument.value);
          if argumentTrue || argumentFalse || !value.BooleanValue? || argument.name != "if" {
            assert argument in arguments;
            return false, false;
          }
          read := read + {argument.name};
          argumentTrue, argumentFalse := value.flag, !value.flag;
        }
      }
    }

    method VisitAll(selections: seq<Selection>, ghost stack: set<string>) returns (thrown: Option<Failure>)
      requires CycleFree(environment.fragments, stack, selections)
      modifies this
      ensures Now(thrown) ==
        Execute(environment, |environment.fragments.Keys - stack|, old(names), old(values), selections)
      decreases environment.fragments.Keys - stack, selections, 0
    {
      ghost var fuel := |environment.fragments.Keys - stack|;
      thrown := None;
      for i := 0 to |selections|
        invariant thrown == None
        invariant Execute(environment, fuel, old(names), old(values), selections) ==
                  Execute(environment, fuel, names, values, selections[i..])
      {
        var selection := selections[i];
        ghost var rest := selections[i..];
        assert rest[0] == selection && rest[1..] == selections[i + 1..];
        SpreadsOfMember(environment.fragments, stack, selections, i);
        thrown := Visit(selection, stack);
        if thrown.Some? {
          return;
        }
      }
    }

    method Visit(selection: Selection, ghost stack: set<string>) returns (thrown: Option<Failure>)
      requires CycleFree(environment.fragments, stack, [selection])
      requires selection.InlineFragment? ==> CycleFree(environment.fragments, stack, selection.selections)
      modifies this
      ensures Now(thrown) ==
        ExecuteOne(environment, |environment.fragments.Keys - stack|, old(names), old(values), selection)
      decreases environment.fragments.Keys - stack, selection, 1
    {
      match selection {
        case Field(_, _, _, _, _) => thrown := VisitField(selection);
        case FragmentSpread(_, _) => thrown := VisitFragmentSpread(selection, stack);
        case InlineFragment(_, _, _) => thrown := VisitInlineFragment(selection, stack);
      }
    }

    method VisitField(field: Selection) returns (thrown: Option<Failure>)
      requires field.Field?
      modifies this
      ensures forall fuel: nat :: ExecuteOne(environment, fuel, old(names), old(values), field) == Now(thrown)
    {
      thrown := None;
      var alias := ResponseName(field);
      if alias in names {
        return;
      }
      names := names + {alias};
      if field.name !in environment.resolvers {
        values := values + [UnknownField(alias, field.name)];
        return;
      }
      var decision := DecideSkip(field.directives);
      if decision.Fails? {
        return Some(BadDirective);
      }
      if decision.Skip? {
        return;
      }
      if !AreSupplied(environment.variables, field.arguments) {
        return Some(BadArgument);
      }
      values := values + [Resolved(alias, field.name)];
    }

    method VisitFragmentSpread(spread: Selection, ghost stack: set<string>) returns (thrown: Option<Failure>)
      requires spread.FragmentSpread? && CycleFree(environment.fragments, stack, [spread])
      modifies this
      ensures Now(thrown) ==
        ExecuteOne(environment, |environment.fragments.Keys - stack|, old(names), old(values), spread)
      decreases environment.fragments.Keys - stack, spread, 0
    {
      if spread.name !in environment.fragments {
        return Some(MissingFragment(spread.name));
      }
      var fragment := environment.fragments[spread.name];
      if fragment.typeCondition !in environment.typeNames {
        return None;
      }
      var decision := DecideSkip(spread.directives);
      if decision.Fails? {
        return Some(BadDirective);
      }
      if decision.Skip? {
        return None;
      }
      StackGrows(environment.fragments, stack, spread);
      thrown := VisitAll(fragment.selections, stack + {spread.name});
    }

    method VisitInlineFragment(inline: Selection, ghost stack: set<string>) returns (thrown: Option<Failure>)
      requires inline.InlineFragment? && CycleFree(environment.fragments, stack, inline.selections)
      modifies this
      ensures Now(thrown) ==
        ExecuteOne(environment, |environment.fragments.Keys - stack|, old(names), old(values), inline)
      decreases environment.fragments.Keys - stack, inline, 0
    {
      thrown := None;
      var decision := DecideSkip(inline.directives);
      if decision.Fails? {
        return Some(BadDirective);
      }
      if decision.Skip? {
        return;
      }
      if inline.typeCondition == "" || inline.typeCondition in environment.typeNames {
        thrown := VisitAll(inline.selections, stack);
      }
    }
  }
}
