/**
 One visitor validates every request of a service. An operation whose type the schema does not
 support makes it return before it forgets the operation's variables; this module proves when the
 requests before a document can, and when they cannot, change its verdict.
 */
module RequestHistory {
  import opened Common
  import opened GraphQLTypes
  import opened VariableUsage
  import opened InputValues
  import opened SortedContainers
  import opened TypeModifiers
  import opened ExecutableValidation
  import opened FragmentCycles

  // ---- Without variables nothing is marked ----

  lemma {:induction false} NothingMarked(s: InputSchema, v: Literal, t: Option<Type>)
    ensures Marked(s, None, v, t) == {}
    decreases v, t, 1
  {
    if t.Some? && !v.Variable? && !v.Null? {
      match t.value
      case NonNull(of) => NothingMarked(s, v, of);
      case List(of) =>
        if v.ListValue? && of.Some? {
          NothingMarkedInItems(s, v.items, of);
        }
      case Named(kind, name) =>
        if v.ObjectValue? && name in s.inputObjects {
          NothingMarkedInFields(s, name, v.fields);
        }
    }
  }

  lemma {:induction false} NothingMarkedInItems(s: InputSchema, items: seq<Literal>, t: Option<Type>)
    ensures MarkedInItems(s, None, items, t) == {}
    decreases items, t, 0
  {
    if items != [] {
      NothingMarked(s, items[0], t);
      NothingMarkedInItems(s, items[1..], t);
    }
  }

  lemma {:induction false} NothingMarkedInFields(s: InputSchema, typeName: string, fields: seq<Entry<Literal>>)
    requires typeName in s.inputObjects
    ensures MarkedInFields(s, None, typeName, fields) == {}
    decreases fields
  {
    if fields != [] {
      var field := Lookup(s.inputObjects[typeName], fields[0].name);
      if field.Some? {
        NothingMarked(s, fields[0].value, field.value.ofType);
      }
      NothingMarkedInFields(s, typeName, fields[1..]);
    }
  }

  lemma {:induction false} ArgumentsMarkNothing(
    inputs: InputSchema, owner: Owner, declared: Arguments, given: map<string, Literal>)
    ensures AllArgumentFindings(inputs, None, owner, declared, given).marked == {}
    decreases declared
  {
    if declared != [] {
      if declared[0].name in given {
        NothingMarked(inputs, given[declared[0].name], declared[0].value.ofType);
      }
      ArgumentsMarkNothing(inputs, owner, declared[1..], given);
    }
  }

  lemma {:induction false} DirectivesMarkNothing(
    schema: Schema, location: Location, directives: seq<Directive>, seen: set<string>)
    ensures AllDirectiveFindings(schema, None, location, directives, seen).marked == {}
    decreases directives
  {
    if directives != [] {
      var owner := OfDirective(directives[0].name);
      if directives[0].name in schema.directives {
        ArgumentsMarkNothing(
          schema.inputs, owner, schema.directives[directives[0].name].arguments,
          CollectArguments(owner, directives[0].arguments, map[]).given);
      }
      DirectivesMarkNothing(schema, location, directives[1..], seen + {directives[0].name});
    }
  }

  /** A visit without variables leaves the referenced ones alone. */
  predicate SameReferenced(before: State, after: State) {
    after.referencedVariables == before.referencedVariables
  }

  lemma WithDirectivesMarksNothing(schema: Schema, st: State, location: Location, directives: seq<Directive>)
    requires st.operationVariables.None?
    ensures SameReferenced(st, WithDirectives(schema, st, location, directives))
  {
    DirectivesMarkNothing(schema, location, directives, {});
  }

  lemma EnteringMarksNothing(schema: Schema, st: State, field: Selection)
    requires field.Field? && st.scopedType.Some? && st.operationVariables.None?
    ensures SameReferenced(st, EnterField(schema, st, field).state)
  {
    WithDirectivesMarksNothing(schema, st, FieldLocation, field.directives);
    var scope := st.scopedType.value;
    if scope.name in schema.typeFields && field.name in schema.typeFields[scope.name] {
      ArgumentsMarkNothing(
        schema.inputs, OfField(field.name), schema.typeFields[scope.name][field.name].arguments,
        CollectArguments(OfField(field.name), field.arguments, map[]).given);
    }
  }

  lemma {:induction false} SelectionMarksNothing(
    schema: Schema, fragments: Fragments, st: State, selections: seq<Selection>)
    requires st.scopedType.Some? && st.operationVariables.None?
    ensures SameReferenced(st, VisitSelection(schema, fragments, st, selections))
    decreases fragments.Keys - st.fragmentStack, selections, 0
  {
    if selections != [] {
      VisitMarksNothing(schema, fragments, st, selections[0]);
      SelectionMarksNothing(schema, fragments, Visit(schema, fragments, st, selections[0]), selections[1..]);
    }
  }

  lemma {:induction false} VisitMarksNothing(schema: Schema, fragments: Fragments, st: State, selection: Selection)
    requires st.scopedType.Some? && st.operationVariables.None?
    ensures SameReferenced(st, Visit(schema, fragments, st, selection))
    decreases fragments.Keys - st.fragmentStack, selection, 1
  {
    match selection
    case Field(_, _, _, selectionSet, _) =>
      EnteringMarksNothing(schema, st, selection);
      EnteringKeeps(schema, st, selection);
      var step := EnterField(schema, st, selection);
      if step.Entered? {
        if selectionSet.Selections? {
          SelectionMarksNothing(schema, fragments, Descend(step.state, step.inner), selectionSet.selections);
        }
        assert SameReferenced(
          step.state, VisitSubSelection(schema, fragments, step.state, step.inner, selection));
      }
    case FragmentSpread(name, directives) =>
      WithDirectivesMarksNothing(schema, st, FragmentSpreadLocation, directives);
      var inside := WithDirectives(schema, st, FragmentSpreadLocation, directives);
      if name in fragments && name !in st.fragmentStack && fragments[name].typeCondition in schema.types {
        assert name in fragments.Keys - st.fragmentStack;
        SelectionMarksNothing(
          schema, fragments, EnterFragment(schema, inside, fragments[name], name), fragments[name].selections);
      }
    case InlineFragment(typeCondition, inner, directives) =>
      WithDirectivesMarksNothing(schema, st, InlineFragmentLocation, directives);
      var inside := WithDirectives(schema, st, InlineFragmentLocation, directives);
      if typeCondition == "" || typeCondition in schema.types {
        SelectionMarksNothing(
          schema, fragments, inside.(scopedType := Some(InlineScope(schema, inside, typeCondition))), inner);
      }
  }

  // ---- What a document leaves behind ----

  function LastOperation(document: seq<Definition>): Option<Operation> {
    if document == [] then None
    else
      var last := document[|document| - 1];
      if last.OperationDefinition? then Some(last.operation) else LastOperation(document[..|document| - 1])
  }

  /** The last operation has a type the schema does not support. */
  predicate EndsUnsupported(schema: Schema, document: seq<Definition>) {
    LastOperation(document).Some? && LastOperation(document).value.kind !in schema.operationTypes
  }

  /** Variables are left over as a whole or not at all. */
  predicate AllOrNone(st: State) {
    st.operationVariables.None? ==> WithoutVariables(st)
  }

  lemma FragmentLeaves(schema: Schema, fragments: Fragments, st: State, fragment: Fragment)
    requires Idle(st) && AllOrNone(st)
    ensures var after := VisitFragmentDefinition(schema, fragments, st, fragment);
            after.operationVariables == st.operationVariables && AllOrNone(after)
  {
    var inside := WithDirectives(schema, st, FragmentDefinitionLocation, fragment.directives);
    if st.operationVariables.None? {
      WithDirectivesMarksNothing(schema, st, FragmentDefinitionLocation, fragment.directives);
      if fragment.typeCondition in schema.types {
        SelectionMarksNothing(
          schema, fragments, EnterFragment(schema, inside, fragment, fragment.name), fragment.selections);
      }
    }
  }

  lemma {:induction false} DefinitionsLeave(
    schema: Schema, fragments: Fragments, st: State, document: seq<Definition>)
    requires Idle(st) && AllOrNone(st)
    ensures var after := VisitDefinitions(schema, fragments, st, document);
            var last := LastOperation(document);
            Idle(after) && AllOrNone(after) &&
            (last.None? ==> after.operationVariables == st.operationVariables) &&
            (last.Some? ==> (after.operationVariables.None? <==> last.value.kind in schema.operationTypes))
    decreases |document|
  {
    if document != [] {
      var front, last := document[..|document| - 1], document[|document| - 1];
      DefinitionsLeave(schema, fragments, st, front);
      assert document == front + [last];
      DefinitionsInTwoParts(schema, fragments, st, front, [last]);
      var before := VisitDefinitions(schema, fragments, st, front);
      assert [last][1..] == [];
      assert VisitDefinitions(schema, fragments, before, [last]) == VisitDefinition(schema, fragments, before, last);
      DefinitionKeeps(schema, fragments, before, last);
      if last.FragmentDefinition? {
        FragmentLeaves(schema, fragments, before, last.fragment);
      }
    }
  }

  lemma {:induction false} DefinitionsInTwoParts(
    schema: Schema, fragments: Fragments, st: State, left: seq<Definition>, right: seq<Definition>)
    ensures VisitDefinitions(schema, fragments, st, left + right) ==
            VisitDefinitions(schema, fragments, VisitDefinitions(schema, fragments, st, left), right)
    decreases left
  {
    if left == [] {
      assert left + right == right;
    } else {
      assert (left + right)[1..] == left[1..] + right;
      DefinitionsInTwoParts(schema, fragments, VisitDefinition(schema, fragments, st, left[0]), left[1..], right);
    }
  }

  // ---- The counters do not matter ----

  /** Equal but for the counters of fields, which are set before they are read. */
  predicate Alike(a: State, b: State) {
    a == b.(fieldCount := a.fieldCount, introspectionFieldCount := a.introspectionFieldCount)
  }

  lemma EnteringAlike(schema: Schema, a: State, b: State, field: Selection)
    requires Alike(a, b) && field.Field? && a.scopedType.Some?
    ensures EnterField(schema, a, field).Done? <==> EnterField(schema, b, field).Done?
    ensures Alike(EnterField(schema, a, field).state, EnterField(schema, b, field).state)
    ensures EnterField(schema, a, field).Entered? ==>
            EnterField(schema, a, field).inner == EnterField(schema, b, field).inner
  {
  }

  lemma {:induction false} SelectionAlike(
    schema: Schema, fragments: Fragments, a: State, b: State, selections: seq<Selection>)
    requires Alike(a, b) && a.scopedType.Some?
    ensures Alike(VisitSelection(schema, fragments, a, selections), VisitSelection(schema, fragments, b, selections))
    decreases fragments.Keys - a.fragmentStack, selections, 0
  {
    if selections != [] {
      VisitAlike(schema, fragments, a, b, selections[0]);
      SelectionAlike(
        schema, fragments, Visit(schema, fragments, a, selections[0]), Visit(schema, fragments, b, selections[0]),
        selections[1..]);
    }
  }

  lemma {:induction false} VisitAlike(
    schema: Schema, fragments: Fragments, a: State, b: State, selection: Selection)
    requires Alike(a, b) && a.scopedType.Some?
    ensures Alike(Visit(schema, fragments, a, selection), Visit(schema, fragments, b, selection))
    decreases fragments.Keys - a.fragmentStack, selection, 1
  {
    match selection
    case Field(_, _, _, _, _) => FieldAlike(schema, fragments, a, b, selection);
    case FragmentSpread(name, directives) =>
      var x := WithDirectives(schema, a, FragmentSpreadLocation, directives);
      var y := WithDirectives(schema, b, FragmentSpreadLocation, directives);
      if name in fragments && name !in a.fragmentStack && fragments[name].typeCondition in schema.types {
        assert name in fragments.Keys - a.fragmentStack;
        SelectionAlike(
          schema, fragments, EnterFragment(schema, x, fragments[name], name),
          EnterFragment(schema, y, fragments[name], name), fragments[name].selections);
      }
    case InlineFragment(typeCondition, inner, directives) =>
      var x := WithDirectives(schema, a, InlineFragmentLocation, directives);
      var y := WithDirectives(schema, b, InlineFragmentLocation, directives);
      if typeCondition == "" || typeCondition in schema.types {
        var scope := Some(InlineScope(schema, x, typeCondition));
        SelectionAlike(schema, fragments, x.(scopedType := scope), y.(scopedType := scope), inner);
      }
  }

  /** Below a field both visits start counting at zero and are the same. */
  lemma SubSelectionAlike(
    schema: Schema, fragments: Fragments, a: State, b: State, inner: NamedType, field: Selection)
    requires Alike(a, b) && a.scopedType.Some? && field.Field?
    ensures Alike(
      VisitSubSelection(schema, fragments, a, inner, field), VisitSubSelection(schema, fragments, b, inner, field))
  {
    assert Descend(a, inner) == Descend(b, inner);
  }

  lemma FieldAlike(schema: Schema, fragments: Fragments, a: State, b: State, field: Selection)
    requires Alike(a, b) && a.scopedType.Some? && field.Field?
    ensures Alike(VisitField(schema, fragments, a, field), VisitField(schema, fragments, b, field))
  {
    EnteringAlike(schema, a, b, field);
    EnteringKeeps(schema, a, field);
    EnteringKeeps(schema, b, field);
    var x, y := EnterField(schema, a, field), EnterField(schema, b, field);
    if x.Entered? {
      SubSelectionAlike(schema, fragments, x.state, y.state, x.inner, field);
    }
  }

  lemma {:induction false} DefiningAlike(
    schema: Schema, a: State, b: State, operation: string, variables: seq<VariableDefinition>)
    requires Alike(a, b) && a.operationVariables.Some?
    ensures Alike(DefineVariables(schema, a, operation, variables), DefineVariables(schema, b, operation, variables))
    decreases variables
  {
    if variables != [] {
      DefiningAlike(
        schema, DefineVariable(schema, a, operation, variables[0]), DefineVariable(schema, b, operation, variables[0]),
        operation, variables[1..]);
    }
  }

  lemma DefinitionAlike(schema: Schema, fragments: Fragments, a: State, b: State, definition: Definition)
    requires Alike(a, b)
    ensures Alike(VisitDefinition(schema, fragments, a, definition), VisitDefinition(schema, fragments, b, definition))
  {
    match definition
    case TypeDefinition =>
    case FragmentDefinition(fragment) =>
      var x := WithDirectives(schema, a, FragmentDefinitionLocation, fragment.directives);
      var y := WithDirectives(schema, b, FragmentDefinitionLocation, fragment.directives);
      if fragment.typeCondition in schema.types {
        SelectionAlike(
          schema, fragments, EnterFragment(schema, x, fragment, fragment.name),
          EnterFragment(schema, y, fragment, fragment.name), fragment.selections);
      }
    case OperationDefinition(operation) =>
      DefiningAlike(
        schema, a.(operationVariables := Some(map[])), b.(operationVariables := Some(map[])),
        operation.name, operation.variables);
      var x, y := BeginOperation(schema, a, operation), BeginOperation(schema, b, operation);
      assert Alike(x, y);
      if operation.kind in schema.operationTypes {
        assert EnterRoot(schema, x, operation) == EnterRoot(schema, y, operation);
      }
  }

  lemma {:induction false} DefinitionsAlike(
    schema: Schema, fragments: Fragments, a: State, b: State, document: seq<Definition>)
    requires Alike(a, b)
    ensures Alike(
      VisitDefinitions(schema, fragments, a, document), VisitDefinitions(schema, fragments, b, document))
    decreases document
  {
    if document != [] {
      DefinitionAlike(schema, fragments, a, b, document[0]);
      DefinitionsAlike(
        schema, fragments, VisitDefinition(schema, fragments, a, document[0]),
        VisitDefinition(schema, fragments, b, document[0]), document[1..]);
    }
  }

  /** The verdict on a document depends on nothing of an earlier request but what it left of its variables. */
  lemma VerdictDependsOnVariables(schema: Schema, a: State, b: State, document: seq<Definition>)
    requires Ready(a) && Ready(b)
    requires a.operationVariables == b.operationVariables
    requires a.variableDefinitions == b.variableDefinitions && a.referencedVariables == b.referencedVariables
    ensures Validate(schema, a, document).errors == Validate(schema, b, document).errors
  {
    DefinitionsAlike(
      schema, FragmentsOf(document), a.(errors := a.errors + DefinitionErrors(document)),
      b.(errors := b.errors + DefinitionErrors(document)), document);
  }

  // ---- Requests one after the other ----

  /** The visitor after it has validated and reported the documents in turn. */
  function AfterRequests(schema: Schema, st: State, history: seq<seq<Definition>>): State
    decreases |history|
  {
    if history == [] then st
    else
      var last := |history| - 1;
      AfterReport(Validate(schema, AfterRequests(schema, st, history[..last]), history[last]))
  }

  /** The last operation of all documents so far has a type the schema does not support. */
  predicate LeavesVariables(schema: Schema, history: seq<seq<Definition>>)
    decreases |history|
  {
    history != [] &&
    var last := |history| - 1;
    if LastOperation(history[last]).Some? then EndsUnsupported(schema, history[last])
    else LeavesVariables(schema, history[..last])
  }

  lemma {:induction false} RequestsLeave(schema: Schema, st: State, history: seq<seq<Definition>>)
    requires Ready(st) && WithoutVariables(st)
    ensures var after := AfterRequests(schema, st, history);
            Ready(after) && AllOrNone(after) &&
            (after.operationVariables.Some? <==> LeavesVariables(schema, history))
    decreases |history|
  {
    if history != [] {
      var last := |history| - 1;
      RequestsLeave(schema, st, history[..last]);
      var before := AfterRequests(schema, st, history[..last]);
      DefinitionsLeave(
        schema, FragmentsOf(history[last]), before.(errors := before.errors + DefinitionErrors(history[last])),
        history[last]);
    }
  }

  /** After requests that leave no variables, every document gets the verdict of a new visitor. */
  lemma VerdictIsFresh(
    schema: Schema, st: State, history: seq<seq<Definition>>, document: seq<Definition>)
    requires Ready(st) && WithoutVariables(st) && !LeavesVariables(schema, history)
    ensures Validate(schema, AfterRequests(schema, st, history), document).errors ==
            Validate(schema, st, document).errors
  {
    RequestsLeave(schema, st, history);
    VerdictDependsOnVariables(schema, AfterRequests(schema, st, history), st, document);
  }

  // ---- A document that tells ----

  /** An object type of the schema has a field with an argument. */
  predicate CanProbe(schema: Schema, typeName: string, field: string, argument: string) {
    && typeName in schema.types && schema.types[typeName] == Object
    && typeName in schema.typeFields && field in schema.typeFields[typeName]
    && Innermost(Some(schema.typeFields[typeName][field].returnType)).Some?
    && Lookup(schema.typeFields[typeName][field].arguments, argument).Some?
    && Lookup(schema.typeFields[typeName][field].arguments, argument).value.ofType.Some?
  }

  function ProbeField(field: string, argument: string, variable: string): Selection {
    Field("", field, [Entry(argument, Variable(variable))], NoSelections, [])
  }

  function ProbeFragment(typeName: string, selection: Selection): Fragment {
    Fragment("Probe", typeName, [selection], [])
  }

  /** fragment Probe on T { field(argument: $variable) } */
  function Probe(typeName: string, field: string, argument: string, variable: string): seq<Definition> {
    [FragmentDefinition(ProbeFragment(typeName, ProbeField(field, argument, variable)))]
  }

  lemma {:induction false} LongerThanAll(names: set<string>) returns (length: nat)
    ensures forall name | name in names :: |name| < length
  {
    if names == {} {
      length := 0;
    } else {
      var some :| some in names;
      var rest := LongerThanAll(names - {some});
      length := if |some| < rest then rest else |some| + 1;
      assert forall name | name in names :: name == some || name in names - {some};
    }
  }

  lemma UnusedName(names: set<string>) returns (name: string)
    ensures name !in names
  {
    var length := LongerThanAll(names);
    name := seq(length, _ => 'v');
  }

  /** Where a variable is given, the argument is undefined exactly when variables are known and it is not one. */
  lemma {:induction false} ProbedArguments(
    inputs: InputSchema, variables: Option<Variables>, owner: Owner, declared: Arguments, argument: string,
    variable: string)
    requires variables.Some? ==> variable !in variables.value
    ensures var undefined := InvalidValue(UndefinedVariable(variable));
            undefined in
              AllArgumentFindings(inputs, variables, owner, declared, map[argument := Variable(variable)]).errors
            <==> variables.Some? &&
                 exists i :: 0 <= i < |declared| && declared[i].name == argument && declared[i].value.ofType.Some?
    decreases declared
  {
    if declared != [] {
      ProbedArguments(inputs, variables, owner, declared[1..], argument, variable);
      assert declared == [declared[0]] + declared[1..];
    }
  }

  /** What the field of the probe adds, whatever else it may report. */
  lemma ProbedField(
    schema: Schema, fragments: Fragments, st: State, typeName: string, field: string, argument: string,
    variable: string)
    requires CanProbe(schema, typeName, field, argument)
    requires st.scopedType == Some(NamedType(Object, typeName)) && st.selectionFields == map[]
    requires st.operationVariables.Some? ==> variable !in st.operationVariables.value
    ensures var undefined := InvalidValue(UndefinedVariable(variable));
            var after := VisitField(schema, fragments, st, ProbeField(field, argument, variable));
            undefined in after.errors <==> undefined in st.errors || st.operationVariables.Some?
  {
    var selection := ProbeField(field, argument, variable);
    var owner, declared := OfField(field), schema.typeFields[typeName][field].arguments;
    NothingAdded(st);
    assert selection.arguments[1..] == [];
    var collected := CollectArguments(owner, selection.arguments, map[]);
    assert Read(Variable(variable)) == Reading(Variable(variable), []) && RepeatedFields([]) == [];
    assert map[][argument := Variable(variable)] == map[argument := Variable(variable)];
    assert CollectArguments(owner, [], map[argument := Variable(variable)]) ==
           Collected(map[argument := Variable(variable)], [], []);
    assert collected == Collected(map[argument := Variable(variable)], [argument], []);
    var found := Lookup(declared, argument).value;
    var i :| 0 <= i < |declared| && declared[i] == Entry(argument, found);
    assert HasName(declared, argument);
    assert [argument][1..] == [];
    assert UndefinedArguments(owner, collected.names, declared) == [];
    ProbedArguments(schema.inputs, st.operationVariables, owner, declared, argument, variable);
    var step := EnterField(schema, st, selection);
    assert step.state.errors == st.errors + [] + FieldArgumentFindings(
      schema, st.operationVariables, field, declared, collected).errors;
    var after := VisitSubSelection(schema, fragments, step.state, step.inner, selection);
    assert after == LeaveField(step.state, field, step.inner, 0);
  }

  lemma ProbeTells(
    schema: Schema, st: State, typeName: string, field: string, argument: string, variable: string)
    requires Ready(st) && CanProbe(schema, typeName, field, argument)
    requires st.operationVariables.Some? ==> variable !in st.operationVariables.value
    ensures var verdict := Validate(schema, st, Probe(typeName, field, argument, variable)).errors;
            InvalidValue(UndefinedVariable(variable)) in verdict <==> st.operationVariables.Some?
  {
    var document := Probe(typeName, field, argument, variable);
    var fragment := document[0].fragment;
    var fragments := map["Probe" := fragment];
    var undefined := InvalidValue(UndefinedVariable(variable));
    assert document[1..] == [];
    assert CollectFragments(document, map[]) == (fragments, []);
    assert CollectOperations(document, {}) == ({}, []);
    assert DefinitionErrors(document) == [];
    assert st.(errors := st.errors + []) == st;
    NothingAdded(st);
    var inside := EnterFragment(schema, st, fragment, "Probe");
    ProbedField(schema, fragments, inside, typeName, field, argument, variable);
    var selection := ProbeField(field, argument, variable);
    var visited := VisitField(schema, fragments, inside, selection);
    assert fragment.selections[1..] == [];
    assert Visit(schema, fragments, inside, selection) == visited;
    assert VisitSelection(schema, fragments, visited, []) == visited;
    assert VisitSelection(schema, fragments, inside, fragment.selections) == visited;
    var after := VisitFragmentDefinition(schema, fragments, st, fragment);
    assert after.errors == visited.errors;
    assert VisitDefinitions(schema, fragments, st, document) == after by {
      assert VisitDefinitions(schema, fragments, after, []) == after;
    }
    OnlyUnusedFragments(FragmentNames(document), after.referencedFragments, undefined);
  }

  lemma {:induction false} OnlyUnusedFragments(names: seq<string>, used: set<string>, error: Error)
    requires !error.UnusedFragment?
    ensures error !in UnusedFragments(names, used)
  {
    if names != [] {
      OnlyUnusedFragments(names[1..], used, error);
    }
  }

  /**
   Earlier requests leave the verdicts on all documents alone exactly when the last operation among
   them, if there is one, has a type the schema supports.
   */
  lemma VerdictsAreFreshExactlyWhen(
    schema: Schema, st: State, history: seq<seq<Definition>>, typeName: string, field: string, argument: string)
    requires Ready(st) && WithoutVariables(st) && CanProbe(schema, typeName, field, argument)
    ensures !LeavesVariables(schema, history) <==>
            forall document ::
              Validate(schema, AfterRequests(schema, st, history), document).errors ==
              Validate(schema, st, document).errors
  {
    if !LeavesVariables(schema, history) {
      forall document
        ensures Validate(schema, AfterRequests(schema, st, history), document).errors ==
                Validate(schema, st, document).errors
      {
        VerdictIsFresh(schema, st, history, document);
      }
    } else {
      RequestsLeave(schema, st, history);
      var after := AfterRequests(schema, st, history);
      var variable := UnusedName(after.operationVariables.value.Keys);
      ProbeTells(schema, after, typeName, field, argument, variable);
      ProbeTells(schema, st, typeName, field, argument, variable);
    }
  }

  // ---- A valid document and the request that spoils it ----

  const INT: Type := Named(Scalar, "Int")

  /** One object type T, with a field "x" that takes an Int argument "a"; there are only queries. */
  const REQUEST_SCHEMA: Schema := Schema(
    map["T" := Object, "Int" := Scalar],
    map["query" := NamedType(Object, "T")],
    map["T" := map["x" := FieldType(INT, [Entry("a", Argument(false, false, Some(INT)))])]],
    map[],
    map[],
    InputSchema(map[], map[], {"Int"}))

  function ValidOperation(): Operation {
    Operation(
      "query", "", [VariableDefinition("v", NamedTree("Int"), None)], [], [FragmentSpread("Probe", [])])
  }

  /** fragment Probe on T { x(a: $v) } query ($v: Int) { ...Probe } */
  function ValidDocument(): seq<Definition> {
    Probe("T", "x", "a", "v") + [OperationDefinition(ValidOperation())]
  }

  /** mutation { x } */
  function UnsupportedRequest(): seq<Definition> {
    [OperationDefinition(Operation("mutation", "", [], [], [Field("", "x", [], NoSelections, [])]))]
  }

  /** The variable is unknown, or known and of the argument's type. */
  predicate TakesVariable(variables: Option<Variables>) {
    variables.Some? ==> variables.value == map["v" := Argument(false, false, Some(INT))]
  }

  lemma BodyTakesVariable(fragments: Fragments, st: State)
    requires st.scopedType == Some(NamedType(Object, "T")) && st.selectionFields == map[]
    requires TakesVariable(st.operationVariables)
    ensures var after := VisitSelection(REQUEST_SCHEMA, fragments, st, [ProbeField("x", "a", "v")]);
            after.errors == st.errors &&
            (st.operationVariables.Some? ==> "v" in after.referencedVariables)
  {
    var selection, owner := ProbeField("x", "a", "v"), OfField("x");
    var declared := [Entry("a", Argument(false, false, Some(INT)))];
    var given := map["a" := Variable("v")];
    NothingAdded(st);
    assert Read(Variable("v")) == Reading(Variable("v"), []) && RepeatedFields([]) == [];
    assert map[]["a" := Variable("v")] == given && selection.arguments[1..] == [];
    assert CollectArguments(owner, [], given) == Collected(given, [], []);
    var collected := CollectArguments(owner, selection.arguments, map[]);
    assert collected == Collected(given, ["a"], []);
    assert declared[0].name == "a" && HasName(declared, "a") && ["a"][1..] == [] && declared[1..] == [];
    assert UndefinedArguments(owner, ["a"], declared) == [];
    assert CheckVariableType(false, Some(INT), Some(INT)) == None;
    assert Check(REQUEST_SCHEMA.inputs, st.operationVariables, false, Variable("v"), Some(INT)) == None;
    assert ArgumentFindings(REQUEST_SCHEMA.inputs, st.operationVariables, owner, declared[0], given).errors == [];
    assert AllArgumentFindings(REQUEST_SCHEMA.inputs, st.operationVariables, owner, [], given) == NOTHING;
    var findings := AllArgumentFindings(REQUEST_SCHEMA.inputs, st.operationVariables, owner, declared, given);
    assert findings.errors == [] && (st.operationVariables.Some? ==> "v" in findings.marked);
    var step := EnterField(REQUEST_SCHEMA, st, selection);
    assert step.Entered? && step.inner == NamedType(Scalar, "Int") && step.state.errors == st.errors + [] + [];
    assert VisitSubSelection(REQUEST_SCHEMA, fragments, step.state, step.inner, selection) ==
           LeaveField(step.state, "x", step.inner, 0);
    var after := VisitField(REQUEST_SCHEMA, fragments, st, selection);
    assert Visit(REQUEST_SCHEMA, fragments, st, selection) == after;
    assert [selection][1..] == [];
    assert VisitSelection(REQUEST_SCHEMA, fragments, after, []) == after;
  }

  lemma ValidFragmentIsQuiet(fragments: Fragments, st: State)
    requires Idle(st) && st.operationVariables.None?
    ensures VisitFragmentDefinition(
      REQUEST_SCHEMA, fragments, st, ProbeFragment("T", ProbeField("x", "a", "v"))).errors == st.errors
  {
    var fragment := ProbeFragment("T", ProbeField("x", "a", "v"));
    NothingAdded(st);
    BodyTakesVariable(fragments, EnterFragment(REQUEST_SCHEMA, st, fragment, "Probe"));
  }

  lemma ValidSpreadIsQuiet(fragments: Fragments, st: State)
    requires fragments == map["Probe" := ProbeFragment("T", ProbeField("x", "a", "v"))]
    requires st.scopedType == Some(NamedType(Object, "T")) && st.selectionFields == map[] && st.fragmentStack == {}
    requires TakesVariable(st.operationVariables) && st.operationVariables.Some?
    ensures var after := VisitSelection(REQUEST_SCHEMA, fragments, st, [FragmentSpread("Probe", [])]);
            after.errors == st.errors && "v" in after.referencedVariables && "Probe" in after.referencedFragments
  {
    var spread := FragmentSpread("Probe", []);
    NothingAdded(st);
    BodyTakesVariable(fragments, EnterFragment(REQUEST_SCHEMA, st, fragments["Probe"], "Probe"));
    var after := VisitFragmentSpread(REQUEST_SCHEMA, fragments, st, spread);
    assert after.errors == st.errors && "v" in after.referencedVariables;
    assert Visit(REQUEST_SCHEMA, fragments, st, spread) == after;
    assert [spread][1..] == [];
    assert VisitSelection(REQUEST_SCHEMA, fragments, after, []) == after;
  }

  lemma ValidOperationIsQuiet(fragments: Fragments, st: State)
    requires fragments == map["Probe" := ProbeFragment("T", ProbeField("x", "a", "v"))]
    requires Idle(st) && st.variableDefinitions == []
    ensures var after := VisitOperationDefinition(REQUEST_SCHEMA, fragments, st, ValidOperation());
            after.errors == st.errors && "Probe" in after.referencedFragments
  {
    var operation := ValidOperation();
    var started := st.(operationVariables := Some(map[]));
    var defined := DefineVariable(REQUEST_SCHEMA, started, "", operation.variables[0]);
    assert SetEmplace(ShorterOrLess, [], "v") == ["v"];
    assert defined == started.(
      operationVariables := Some(map[]["v" := Argument(false, false, Some(INT))]), variableDefinitions := ["v"]);
    assert operation.variables[1..] == [];
    assert DefineVariables(REQUEST_SCHEMA, defined, "", []) == defined;
    assert DefineVariables(REQUEST_SCHEMA, started, "", operation.variables) == defined;
    NothingAdded(defined);
    assert BeginOperation(REQUEST_SCHEMA, st, operation) == defined;
    ValidSpreadIsQuiet(fragments, EnterRoot(REQUEST_SCHEMA, defined, operation));
    var root := VisitOperationRoot(REQUEST_SCHEMA, fragments, defined, operation);
    assert root.variableDefinitions == ["v"] && "v" in root.referencedVariables;
    assert ["v"][1..] == [] && UnusedVariables([], root.referencedVariables) == [];
    assert UnusedVariables(["v"], root.referencedVariables) == [];
    assert root.errors + [] == root.errors;
  }

  lemma ValidDocumentCollects()
    ensures CollectFragments(ValidDocument(), map[]) ==
            (map["Probe" := ProbeFragment("T", ProbeField("x", "a", "v"))], [])
    ensures DefinitionErrors(ValidDocument()) == [] && FragmentNames(ValidDocument()) == ["Probe"]
  {
    var document := ValidDocument();
    var none: seq<Error> := [];
    assert none + none == none;
    assert document[1..][1..] == [] && document[1..][0] == document[1];
    assert SetEmplace(ShorterOrLess, [], "Probe") == ["Probe"];
    assert CollectNames(document[1..], ["Probe"]) == ["Probe"] by {
      assert CollectNames(document[1..][1..], ["Probe"]) == ["Probe"];
    }
    assert CollectFragments(document[1..], map["Probe" := document[0].fragment]) ==
           (map["Probe" := document[0].fragment], []) by {
      assert CollectFragments(document[1..][1..], map["Probe" := document[0].fragment]) ==
             (map["Probe" := document[0].fragment], []);
    }
    assert CollectOperations(document[1..], {}) == ({} + {""}, []) by {
      assert CollectOperations(document[1..][1..], {} + {""}) == ({} + {""}, []);
    }
    assert CollectOperations(document, {}) == ({} + {""}, []);
  }

  /** A new visitor accepts the document. */
  lemma ValidDocumentIsAccepted(st: State)
    requires Ready(st) && WithoutVariables(st)
    ensures Validate(REQUEST_SCHEMA, st, ValidDocument()).errors == []
  {
    var document := ValidDocument();
    var fragments := map["Probe" := document[0].fragment];
    ValidDocumentCollects();
    assert st.(errors := st.errors + []) == st;
    ValidFragmentIsQuiet(fragments, st);
    DefinitionKeeps(REQUEST_SCHEMA, fragments, st, document[0]);
    FragmentLeaves(REQUEST_SCHEMA, fragments, st, document[0].fragment);
    var st1 := VisitDefinition(REQUEST_SCHEMA, fragments, st, document[0]);
    ValidOperationIsQuiet(fragments, st1);
    var st2 := VisitDefinition(REQUEST_SCHEMA, fragments, st1, document[1]);
    assert document[1..][0] == document[1] && document[1..][1..] == [];
    assert VisitDefinitions(REQUEST_SCHEMA, fragments, st2, []) == st2;
    assert VisitDefinitions(REQUEST_SCHEMA, fragments, st1, document[1..]) == st2;
    assert ["Probe"][1..] == [] && UnusedFragments([], st2.referencedFragments) == [];
    assert UnusedFragments(["Probe"], st2.referencedFragments) == [];
  }

  /** After one unsupported request the same visitor rejects it. */
  lemma ValidDocumentMayBeRejected(st: State)
    requires Ready(st) && WithoutVariables(st)
    ensures LeavesVariables(REQUEST_SCHEMA, [UnsupportedRequest()])
    ensures Validate(REQUEST_SCHEMA, AfterRequests(REQUEST_SCHEMA, st, [UnsupportedRequest()]), ValidDocument()).errors
            != []
  {
    var history, document := [UnsupportedRequest()], ValidDocument();
    assert history[..0] == [];
    RequestsLeave(REQUEST_SCHEMA, st, history);
    var after := AfterRequests(REQUEST_SCHEMA, st, history);
    assert after.operationVariables == Some(map[]) by {
      UnsupportedRequestLeaves(st);
    }
    var fragment := document[0].fragment;
    var fragments := map["Probe" := fragment];
    ValidDocumentCollects();
    assert after.(errors := after.errors + []) == after;
    NothingAdded(after);
    var inside := EnterFragment(REQUEST_SCHEMA, after, fragment, "Probe");
    ProbedField(REQUEST_SCHEMA, fragments, inside, "T", "x", "a", "v");
    var visited := VisitField(REQUEST_SCHEMA, fragments, inside, fragment.selections[0]);
    assert fragment.selections[1..] == [];
    assert Visit(REQUEST_SCHEMA, fragments, inside, fragment.selections[0]) == visited;
    assert VisitSelection(REQUEST_SCHEMA, fragments, visited, []) == visited;
    assert VisitSelection(REQUEST_SCHEMA, fragments, inside, fragment.selections) == visited;
    var st1 := VisitDefinition(REQUEST_SCHEMA, fragments, after, document[0]);
    assert st1.errors == visited.errors && st1.errors != [];
    DefinitionKeeps(REQUEST_SCHEMA, fragments, after, document[0]);
    DefinitionsKeep(REQUEST_SCHEMA, fragments, st1, document[1..]);
  }

  lemma UnsupportedRequestLeaves(st: State)
    requires Ready(st) && WithoutVariables(st)
    ensures AfterRequests(REQUEST_SCHEMA, st, [UnsupportedRequest()]).operationVariables == Some(map[])
  {
    var history, document := [UnsupportedRequest()], UnsupportedRequest();
    assert history[..0] == [] && AfterRequests(REQUEST_SCHEMA, st, []) == st;
    assert document[1..] == [];
    var fragments := FragmentsOf(document);
    var st1 := st.(errors := st.errors + DefinitionErrors(document));
    var begun := st1.(operationVariables := Some(map[]));
    NothingAdded(begun);
    assert BeginOperation(REQUEST_SCHEMA, st1, document[0].operation) == begun;
    var after := VisitDefinition(REQUEST_SCHEMA, fragments, st1, document[0]);
    assert after.operationVariables == Some(map[]);
    assert VisitDefinitions(REQUEST_SCHEMA, fragments, after, []) == after;
    assert VisitDefinitions(REQUEST_SCHEMA, fragments, st1, document) == after;
  }
}
