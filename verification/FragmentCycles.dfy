/**
 The executor expands fragment spreads with no cycle check of its own. This module proves that
 it may: a document the validator accepts has no cycle of spreads inside selection sets, and
 without such a cycle every expansion ends.
 */
module FragmentCycles {
  import opened Common
  import opened GraphQLTypes
  import opened InputValues
  import opened ExecutableValidation

  // ---- The graph of fragment spreads ----

  /** Fragments spread by a selection set, looking through inline fragments and, on demand, fields. */
  function SpreadsIn(throughFields: bool, selections: seq<Selection>): set<string> {
    if selections == [] then {} else SpreadsOf(throughFields, selections[0]) + SpreadsIn(throughFields, selections[1..])
  }

  function SpreadsOf(throughFields: bool, selection: Selection): set<string> {
    match selection
    case Field(_, _, _, selectionSet, _) =>
      if throughFields && selectionSet.Selections? then SpreadsIn(throughFields, selectionSet.selections) else {}
    case FragmentSpread(name, _) => {name}
    case InlineFragment(_, selections, _) => SpreadsIn(throughFields, selections)
  }

  /** Consecutive names: each but the last is a fragment that spreads the next. */
  predicate IsPath(fragments: Fragments, throughFields: bool, path: seq<string>) {
    forall i | 0 <= i < |path| - 1 ::
      path[i] in fragments && path[i + 1] in SpreadsIn(throughFields, fragments[path[i]].selections)
  }

  ghost predicate Reaches(fragments: Fragments, throughFields: bool, source: string, target: string) {
    exists path :: |path| >= 2 && path[0] == source && path[|path| - 1] == target &&
                   IsPath(fragments, throughFields, path)
  }

  /** No fragment spreads itself, directly or not, without crossing a field. */
  ghost predicate Acyclic(fragments: Fragments) {
    forall name :: !Reaches(fragments, false, name, name)
  }

  // ---- Acyclicity as the visitor sees it: no spread leads back to the stack ----

  predicate CycleFree(fragments: Fragments, stack: set<string>, selections: seq<Selection>)
    decreases fragments.Keys - stack
  {
    forall name | name in SpreadsIn(false, selections) && name in fragments ::
      name !in stack &&
      (assert name in fragments.Keys - stack;
       CycleFree(fragments, stack + {name}, fragments[name].selections))
  }

  lemma {:induction false} CycleFreePathLeavesStack(fragments: Fragments, stack: set<string>, path: seq<string>)
    requires |path| > 0 && path[0] in fragments && IsPath(fragments, false, path)
    requires CycleFree(fragments, stack, fragments[path[0]].selections)
    ensures forall i | 1 <= i < |path| :: path[i] !in stack || path[i] !in fragments
    decreases |path|
  {
    if |path| > 1 && path[1] in fragments {
      var rest := path[1..];
      assert IsPath(fragments, false, rest) by {
        forall i | 0 <= i < |rest| - 1
          ensures rest[i] in fragments && rest[i + 1] in SpreadsIn(false, fragments[rest[i]].selections)
        {
          assert rest[i] == path[i + 1] && rest[i + 1] == path[i + 2];
        }
      }
      CycleFreePathLeavesStack(fragments, stack + {path[1]}, rest);
      forall i | 1 <= i < |path|
        ensures path[i] !in stack || path[i] !in fragments
      {
        if i > 1 {
          assert path[i] == rest[i - 1];
        }
      }
    }
  }

  lemma PathReachesItsEnd(fragments: Fragments, path: seq<string>, i: nat)
    requires i < |path| - 1 && IsPath(fragments, false, path)
    ensures Reaches(fragments, false, path[i], path[|path| - 1])
  {
    var part := path[i..];
    assert part[0] == path[i] && part[|part| - 1] == path[|path| - 1] && IsPath(fragments, false, part);
  }

  /** Without cycles, a path never meets itself again. */
  lemma {:induction false} AcyclicPathIsCycleFree(fragments: Fragments, path: seq<string>)
    requires Acyclic(fragments)
    requires |path| > 0 && IsPath(fragments, false, path) && path[|path| - 1] in fragments
    ensures CycleFree(fragments, set i | 0 <= i < |path| :: path[i], fragments[path[|path| - 1]].selections)
    decreases fragments.Keys - (set i | 0 <= i < |path| :: path[i])
  {
    var stack := set i | 0 <= i < |path| :: path[i];
    forall name | name in SpreadsIn(false, fragments[path[|path| - 1]].selections) && name in fragments
      ensures name !in stack && CycleFree(fragments, stack + {name}, fragments[name].selections)
    {
      var longer := path + [name];
      assert IsPath(fragments, false, longer);
      assert name !in stack by {
        forall i | 0 <= i < |path|
          ensures path[i] != name
        {
          PathReachesItsEnd(fragments, longer, i);
        }
      }
      assert name in fragments.Keys - stack;
      assert (set i | 0 <= i < |longer| :: longer[i]) == stack + {name} by {
        assert longer[|path|] == name;
        assert forall i | 0 <= i < |path| :: longer[i] == path[i];
      }
      AcyclicPathIsCycleFree(fragments, longer);
    }
  }

  /** The two views agree on all fragments together. */
  lemma AcyclicIsCycleFree(fragments: Fragments)
    ensures Acyclic(fragments) <==>
            forall name | name in fragments :: CycleFree(fragments, {name}, fragments[name].selections)
  {
    if Acyclic(fragments) {
      forall name | name in fragments
        ensures CycleFree(fragments, {name}, fragments[name].selections)
      {
        AcyclicPathIsCycleFree(fragments, [name]);
        assert (set i | 0 <= i < |[name]| :: [name][i]) == {name};
      }
    }
    if forall name | name in fragments :: CycleFree(fragments, {name}, fragments[name].selections) {
      forall name
        ensures !Reaches(fragments, false, name, name)
      {
        if Reaches(fragments, false, name, name) {
          var path :| |path| >= 2 && path[0] == name && path[|path| - 1] == name && IsPath(fragments, false, path);
          assert path[0] in fragments;
          CycleFreePathLeavesStack(fragments, {name}, path);
        }
      }
    }
  }

  // ---- A visit that reports nothing ----

  lemma {:induction false} QuietSelectionIsCycleFree(
    schema: Schema, fragments: Fragments, st: State, selections: seq<Selection>)
    requires st.scopedType.Some? && st.fragmentCycles == {}
    requires VisitSelection(schema, fragments, st, selections).errors == st.errors
    ensures CycleFree(fragments, st.fragmentStack, selections)
    ensures SpreadsIn(false, selections) <= fragments.Keys
    decreases fragments.Keys - st.fragmentStack, selections, 0
  {
    if selections != [] {
      var first := Visit(schema, fragments, st, selections[0]);
      assert first.errors == st.errors;
      QuietVisitIsCycleFree(schema, fragments, st, selections[0]);
      QuietSelectionIsCycleFree(schema, fragments, first, selections[1..]);
    }
  }

  lemma {:induction false} QuietVisitIsCycleFree(schema: Schema, fragments: Fragments, st: State, selection: Selection)
    requires st.scopedType.Some? && st.fragmentCycles == {}
    requires Visit(schema, fragments, st, selection).errors == st.errors
    ensures CycleFree(fragments, st.fragmentStack, [selection])
    ensures SpreadsOf(false, selection) <= fragments.Keys
    decreases fragments.Keys - st.fragmentStack, selection, 1
  {
    assert SpreadsIn(false, [selection]) == SpreadsOf(false, selection);
    match selection
    case Field(_, _, _, _, _) =>
    case FragmentSpread(name, directives) =>
      var inside := WithDirectives(schema, st, FragmentSpreadLocation, directives);
      assert st.errors <= inside.errors <= Visit(schema, fragments, st, selection).errors;
      assert name in fragments && name !in st.fragmentStack;
      assert name in fragments.Keys - st.fragmentStack;
      QuietSelectionIsCycleFree(
        schema, fragments, EnterFragment(schema, inside, fragments[name], name), fragments[name].selections);
    case InlineFragment(typeCondition, inner, directives) =>
      var inside := WithDirectives(schema, st, InlineFragmentLocation, directives);
      assert st.errors <= inside.errors <= Visit(schema, fragments, st, selection).errors;
      var scope := InlineScope(schema, inside, typeCondition);
      QuietSelectionIsCycleFree(schema, fragments, inside.(scopedType := Some(scope)), inner);
  }

  // ---- Whole documents ----

  /** Between definitions, only the variables and what is reported change. */
  predicate OnlyReports(before: State, after: State) {
    && after.fragmentCycles == before.fragmentCycles
    && after.referencedFragments == before.referencedFragments
    && after.fragmentStack == before.fragmentStack
    && after.scopedType == before.scopedType
    && after.selectionFields == before.selectionFields
    && before.errors <= after.errors
  }

  lemma {:induction false} DefiningVariablesOnlyReports(
    schema: Schema, st: State, operation: string, variables: seq<VariableDefinition>)
    requires st.operationVariables.Some?
    ensures OnlyReports(st, DefineVariables(schema, st, operation, variables))
    decreases variables
  {
    if variables != [] {
      var next := DefineVariable(schema, st, operation, variables[0]);
      assert OnlyReports(st, next);
      DefiningVariablesOnlyReports(schema, next, operation, variables[1..]);
    }
  }

  lemma BeginningOnlyReports(schema: Schema, st: State, operation: Operation)
    ensures OnlyReports(st, BeginOperation(schema, st, operation))
  {
    var started := st.(operationVariables := Some(map[]));
    DefiningVariablesOnlyReports(schema, started, operation.name, operation.variables);
  }

  lemma DefinitionKeeps(schema: Schema, fragments: Fragments, st: State, definition: Definition)
    requires Idle(st)
    ensures Idle(VisitDefinition(schema, fragments, st, definition))
    ensures st.errors <= VisitDefinition(schema, fragments, st, definition).errors
    ensures VisitDefinition(schema, fragments, st, definition).errors == st.errors ==>
            VisitDefinition(schema, fragments, st, definition).fragmentCycles == st.fragmentCycles
  {
    match definition
    case FragmentDefinition(fragment) => FragmentKeeps(schema, fragments, st, fragment);
    case OperationDefinition(operation) => OperationKeeps(schema, fragments, st, operation);
    case TypeDefinition =>
  }

  lemma FragmentKeeps(schema: Schema, fragments: Fragments, st: State, fragment: Fragment)
    requires Idle(st)
    ensures Idle(VisitFragmentDefinition(schema, fragments, st, fragment))
    ensures st.errors <= VisitFragmentDefinition(schema, fragments, st, fragment).errors
    ensures VisitFragmentDefinition(schema, fragments, st, fragment).errors == st.errors ==>
            VisitFragmentDefinition(schema, fragments, st, fragment).fragmentCycles == st.fragmentCycles
  {
    var inside := WithDirectives(schema, st, FragmentDefinitionLocation, fragment.directives);
    assert st.errors <= inside.errors <= VisitFragmentDefinition(schema, fragments, st, fragment).errors;
  }

  lemma OperationKeeps(schema: Schema, fragments: Fragments, st: State, operation: Operation)
    requires Idle(st)
    ensures Idle(VisitOperationDefinition(schema, fragments, st, operation))
    ensures st.errors <= VisitOperationDefinition(schema, fragments, st, operation).errors
    ensures VisitOperationDefinition(schema, fragments, st, operation).errors == st.errors ==>
            VisitOperationDefinition(schema, fragments, st, operation).fragmentCycles == st.fragmentCycles
  {
    BeginningOnlyReports(schema, st, operation);
    var begun := BeginOperation(schema, st, operation);
    if operation.kind in schema.operationTypes {
      var inside := EnterRoot(schema, begun, operation);
      var sub := VisitSelection(schema, fragments, inside, operation.selections);
      var root := VisitOperationRoot(schema, fragments, begun, operation);
      assert inside.errors <= sub.errors <= root.errors <=
             VisitOperationDefinition(schema, fragments, st, operation).errors;
    }
  }

  lemma {:induction false} DefinitionsKeep(schema: Schema, fragments: Fragments, st: State, document: seq<Definition>)
    requires Idle(st)
    ensures Idle(VisitDefinitions(schema, fragments, st, document))
    ensures st.errors <= VisitDefinitions(schema, fragments, st, document).errors
    decreases document
  {
    if document != [] {
      DefinitionKeeps(schema, fragments, st, document[0]);
      DefinitionsKeep(schema, fragments, VisitDefinition(schema, fragments, st, document[0]), document[1..]);
    }
  }

  lemma BadTargetIsReported(schema: Schema, fragments: Fragments, st: State, fragment: Fragment)
    ensures fragment.typeCondition !in schema.types || IsLeafKind(schema.types[fragment.typeCondition]) ==>
            |VisitFragmentDefinition(schema, fragments, st, fragment).errors| > |st.errors|
  {
  }

  /** A fragment definition that is visited silently has a composite target, and a silent body. */
  lemma QuietFragmentIsEntered(schema: Schema, fragments: Fragments, st: State, fragment: Fragment)
    returns (inside: State)
    requires Idle(st) && VisitFragmentDefinition(schema, fragments, st, fragment).errors == st.errors
    ensures fragment.typeCondition in schema.types && !IsLeafKind(schema.types[fragment.typeCondition])
    ensures inside == EnterFragment(
      schema, WithDirectives(schema, st, FragmentDefinitionLocation, fragment.directives), fragment, fragment.name)
    ensures inside.fragmentStack == {fragment.name} && inside.errors == st.errors
    ensures VisitSelection(schema, fragments, inside, fragment.selections).errors == st.errors
  {
    BadTargetIsReported(schema, fragments, st, fragment);
    var st1 := WithDirectives(schema, st, FragmentDefinitionLocation, fragment.directives);
    inside := EnterFragment(schema, st1, fragment, fragment.name);
    assert st.errors <= inside.errors <= VisitSelection(schema, fragments, inside, fragment.selections).errors;
  }

  lemma QuietFragmentIsCycleFree(schema: Schema, fragments: Fragments, st: State, fragment: Fragment)
    requires Idle(st) && st.fragmentCycles == {}
    requires VisitFragmentDefinition(schema, fragments, st, fragment).errors == st.errors
    ensures CycleFree(fragments, {fragment.name}, fragment.selections)
    ensures SpreadsIn(false, fragment.selections) <= fragments.Keys
  {
    var inside := QuietFragmentIsEntered(schema, fragments, st, fragment);
    QuietSelectionIsCycleFree(schema, fragments, inside, fragment.selections);
  }

  lemma {:induction false} QuietDefinitionsAreCycleFree(
    schema: Schema, fragments: Fragments, st: State, document: seq<Definition>)
    requires Idle(st) && st.fragmentCycles == {}
    requires VisitDefinitions(schema, fragments, st, document).errors == st.errors
    ensures forall i | 0 <= i < |document| && document[i].FragmentDefinition? ::
              CycleFree(fragments, {document[i].fragment.name}, document[i].fragment.selections) &&
              SpreadsIn(false, document[i].fragment.selections) <= fragments.Keys
    decreases document
  {
    if document != [] {
      var first := VisitDefinition(schema, fragments, st, document[0]);
      DefinitionKeeps(schema, fragments, st, document[0]);
      DefinitionsKeep(schema, fragments, first, document[1..]);
      assert first.errors == st.errors;
      if document[0].FragmentDefinition? {
        QuietFragmentIsCycleFree(schema, fragments, st, document[0].fragment);
      }
      QuietDefinitionsAreCycleFree(schema, fragments, first, document[1..]);
      forall i | 0 <= i < |document| && document[i].FragmentDefinition?
        ensures CycleFree(fragments, {document[i].fragment.name}, document[i].fragment.selections)
        ensures SpreadsIn(false, document[i].fragment.selections) <= fragments.Keys
      {
        if i > 0 {
          assert document[i] == document[1..][i - 1];
        }
      }
    }
  }

  lemma {:induction false} FragmentsAreDefinitions(document: seq<Definition>, found: Fragments)
    ensures forall name | name in CollectFragments(document, found).0 ::
              (name in found && CollectFragments(document, found).0[name] == found[name]) ||
              exists i :: 0 <= i < |document| && document[i].FragmentDefinition? &&
                document[i].fragment.name == name && document[i].fragment == CollectFragments(document, found).0[name]
    ensures found.Keys <= CollectFragments(document, found).0.Keys
    ensures forall i | 0 <= i < |document| && document[i].FragmentDefinition? ::
              document[i].fragment.name in CollectFragments(document, found).0
    decreases document
  {
    if document != [] {
      var rest := document[1..];
      assert forall i | 0 <= i < |rest| :: rest[i] == document[i + 1];
      var next := if document[0].FragmentDefinition? && document[0].fragment.name !in found
                  then found[document[0].fragment.name := document[0].fragment] else found;
      FragmentsAreDefinitions(rest, next);
      var all := CollectFragments(document, found).0;
      assert all == CollectFragments(rest, next).0;
      forall name | name in all && !(name in found && all[name] == found[name])
        ensures exists i :: 0 <= i < |document| && document[i].FragmentDefinition? &&
                  document[i].fragment.name == name && document[i].fragment == all[name]
      {
        if name in next && all[name] == next[name] {
          assert document[0].fragment.name == name;
        } else {
          var i :| 0 <= i < |rest| && rest[i].FragmentDefinition? &&
            rest[i].fragment.name == name && rest[i].fragment == all[name];
          assert document[i + 1].fragment == all[name];
        }
      }
      forall i | 0 <= i < |document| && document[i].FragmentDefinition?
        ensures document[i].fragment.name in all
      {
        if i > 0 {
          assert document[i] == rest[i - 1];
        }
      }
    }
  }

  /** A document without errors has no cycle of spreads inside selection sets, and no dangling spread there. */
  lemma AcceptedDocumentIsAcyclic(schema: Schema, st: State, document: seq<Definition>)
    requires Ready(st)
    requires Validate(schema, st, document).errors == []
    ensures Acyclic(FragmentsOf(document))
    ensures forall name | name in FragmentsOf(document) ::
              SpreadsIn(false, FragmentsOf(document)[name].selections) <= FragmentsOf(document).Keys
  {
    var fragments := FragmentsOf(document);
    var st1 := st.(errors := st.errors + DefinitionErrors(document));
    DefinitionsKeep(schema, fragments, st1, document);
    assert st1.errors == [];
    QuietDefinitionsAreCycleFree(schema, fragments, st1, document);
    FragmentsAreDefinitions(document, map[]);
    AcyclicIsCycleFree(fragments);
  }

  // ---- Reported cycles are real ----

  predicate ReportsCycle(st: State, name: string) {
    CyclicFragment(name) in st.errors
  }

  lemma {:induction false} CollectedArgumentsReportNoCycle(
    owner: Owner, arguments: seq<Entry<Literal>>, found: map<string, Literal>, name: string)
    ensures CyclicFragment(name) !in CollectArguments(owner, arguments, found).errors
    decreases arguments
  {
    if arguments != [] {
      CollectedArgumentsReportNoCycle(owner, arguments[1..], found, name);
      CollectedArgumentsReportNoCycle(
        owner, arguments[1..], found[arguments[0].name := Read(arguments[0].value).value], name);
    }
  }

  lemma {:induction false} UndefinedArgumentsReportNoCycle(
    owner: Owner, names: seq<string>, declared: Arguments, name: string)
    ensures CyclicFragment(name) !in UndefinedArguments(owner, names, declared)
  {
    if names != [] {
      UndefinedArgumentsReportNoCycle(owner, names[1..], declared, name);
    }
  }

  lemma {:induction false} ArgumentErrorsReportNoCycle(
    inputs: InputSchema, variables: Option<Variables>, owner: Owner, declared: Arguments,
    given: map<string, Literal>, name: string)
    ensures CyclicFragment(name) !in AllArgumentFindings(inputs, variables, owner, declared, given).errors
    decreases declared
  {
    if declared != [] {
      ArgumentErrorsReportNoCycle(inputs, variables, owner, declared[1..], given, name);
    }
  }

  lemma DirectiveReportsNoCycle(
    schema: Schema, variables: Option<Variables>, location: Location, directive: Directive, repeated: bool,
    name: string)
    ensures CyclicFragment(name) !in DirectiveFindings(schema, variables, location, directive, repeated).errors
  {
    if directive.name in schema.directives {
      var owner, declared := OfDirective(directive.name), schema.directives[directive.name].arguments;
      var collected := CollectArguments(owner, directive.arguments, map[]);
      CollectedArgumentsReportNoCycle(owner, directive.arguments, map[], name);
      UndefinedArgumentsReportNoCycle(owner, collected.names, declared, name);
      ArgumentErrorsReportNoCycle(schema.inputs, variables, owner, declared, collected.given, name);
    }
  }

  lemma {:induction false} DirectivesReportNoCycle(
    schema: Schema, variables: Option<Variables>, location: Location, directives: seq<Directive>, seen: set<string>,
    name: string)
    ensures CyclicFragment(name) !in AllDirectiveFindings(schema, variables, location, directives, seen).errors
    decreases directives
  {
    if directives != [] {
      var repeated := IsUnique(schema, directives[0].name) && directives[0].name in seen;
      DirectiveReportsNoCycle(schema, variables, location, directives[0], repeated, name);
      DirectivesReportNoCycle(schema, variables, location, directives[1..], seen + {directives[0].name}, name);
    }
  }

  lemma WithDirectivesReportsNoCycle(
    schema: Schema, st: State, location: Location, directives: seq<Directive>, name: string)
    ensures ReportsCycle(WithDirectives(schema, st, location, directives), name) ==> ReportsCycle(st, name)
  {
    DirectivesReportNoCycle(schema, st.operationVariables, location, directives, {}, name);
  }

  lemma SelectingReportsNoCycle(
    schema: Schema, st: State, field: Selection, wrapped: Type, inner: NamedType, name: string)
    requires field.Field? && st.scopedType.Some? && st.scopedType.value.name in schema.typeFields
    ensures ReportsCycle(SelectField(schema, st, field, wrapped, inner).state, name) ==> ReportsCycle(st, name)
  {
    var fields, owner := schema.typeFields[st.scopedType.value.name], OfField(field.name);
    var collected := CollectArguments(owner, field.arguments, map[]);
    CollectedArgumentsReportNoCycle(owner, field.arguments, map[], name);
    if field.name in fields {
      var declared := fields[field.name].arguments;
      UndefinedArgumentsReportNoCycle(owner, collected.names, declared, name);
      ArgumentErrorsReportNoCycle(schema.inputs, st.operationVariables, owner, declared, collected.given, name);
    }
  }

  lemma EnteringReportsNoCycle(schema: Schema, st: State, field: Selection, name: string)
    requires field.Field? && st.scopedType.Some?
    ensures ReportsCycle(EnterField(schema, st, field).state, name) ==> ReportsCycle(st, name)
  {
    var inScope := WithDirectives(schema, st, FieldLocation, field.directives);
    WithDirectivesReportsNoCycle(schema, st, FieldLocation, field.directives, name);
    forall wrapped, inner | st.scopedType.value.name in schema.typeFields
      ensures ReportsCycle(SelectField(schema, inScope, field, wrapped, inner).state, name) ==>
              ReportsCycle(inScope, name)
    {
      SelectingReportsNoCycle(schema, inScope, field, wrapped, inner, name);
    }
  }

  /** Everything on the stack leads to every spread still to be visited. */
  ghost predicate StackReaches(fragments: Fragments, stack: set<string>, spreads: set<string>) {
    forall above, name | above in stack && name in spreads :: Reaches(fragments, true, above, name)
  }

  lemma ReachesFurther(fragments: Fragments, source: string, middle: string, target: string)
    requires Reaches(fragments, true, source, middle)
    requires middle in fragments && target in SpreadsIn(true, fragments[middle].selections)
    ensures Reaches(fragments, true, source, target)
  {
    var path :| |path| >= 2 && path[0] == source && path[|path| - 1] == middle && IsPath(fragments, true, path);
    var longer := path + [target];
    assert longer[0] == source && longer[|longer| - 1] == target && IsPath(fragments, true, longer);
  }

  lemma StackReachesInside(fragments: Fragments, stack: set<string>, name: string)
    requires name in fragments && StackReaches(fragments, stack, {name})
    ensures StackReaches(fragments, stack + {name}, SpreadsIn(true, fragments[name].selections))
  {
    forall above, target | above in stack + {name} && target in SpreadsIn(true, fragments[name].selections)
      ensures Reaches(fragments, true, above, target)
    {
      if above in stack {
        assert Reaches(fragments, true, above, name);
        ReachesFurther(fragments, above, name, target);
      } else {
        var path := [name, target];
        assert path[0] == above && path[|path| - 1] == target && IsPath(fragments, true, path);
      }
    }
  }

  lemma {:induction false} SelectionReportsRealCycles(
    schema: Schema, fragments: Fragments, st: State, selections: seq<Selection>, name: string)
    requires st.scopedType.Some? && StackReaches(fragments, st.fragmentStack, SpreadsIn(true, selections))
    ensures ReportsCycle(VisitSelection(schema, fragments, st, selections), name) ==>
            ReportsCycle(st, name) || Reaches(fragments, true, name, name)
    decreases fragments.Keys - st.fragmentStack, selections, 0
  {
    if selections != [] {
      VisitReportsRealCycles(schema, fragments, st, selections[0], name);
      SelectionReportsRealCycles(
        schema, fragments, Visit(schema, fragments, st, selections[0]), selections[1..], name);
    }
  }

  lemma {:induction false} VisitReportsRealCycles(
    schema: Schema, fragments: Fragments, st: State, selection: Selection, name: string)
    requires st.scopedType.Some? && StackReaches(fragments, st.fragmentStack, SpreadsOf(true, selection))
    ensures ReportsCycle(Visit(schema, fragments, st, selection), name) ==>
            ReportsCycle(st, name) || Reaches(fragments, true, name, name)
    decreases fragments.Keys - st.fragmentStack, selection, 2
  {
    match selection
    case Field(_, _, _, _, _) =>
      FieldReportsRealCycles(schema, fragments, st, selection, name);
    case FragmentSpread(_, _) => SpreadReportsRealCycles(schema, fragments, st, selection, name);
    case InlineFragment(_, _, _) => InlineReportsRealCycles(schema, fragments, st, selection, name);
  }

  lemma {:induction false} InlineReportsRealCycles(
    schema: Schema, fragments: Fragments, st: State, inline: Selection, name: string)
    requires inline.InlineFragment?
    requires st.scopedType.Some? && StackReaches(fragments, st.fragmentStack, SpreadsOf(true, inline))
    ensures ReportsCycle(VisitInlineFragment(schema, fragments, st, inline), name) ==>
            ReportsCycle(st, name) || Reaches(fragments, true, name, name)
    decreases fragments.Keys - st.fragmentStack, inline, 0
  {
    var inside := WithDirectives(schema, st, InlineFragmentLocation, inline.directives);
    WithDirectivesReportsNoCycle(schema, st, InlineFragmentLocation, inline.directives, name);
    if inline.typeCondition == "" || inline.typeCondition in schema.types {
      var scope := InlineScope(schema, inside, inline.typeCondition);
      SelectionReportsRealCycles(schema, fragments, inside.(scopedType := Some(scope)), inline.selections, name);
    }
  }

  lemma {:induction false} SpreadReportsRealCycles(
    schema: Schema, fragments: Fragments, st: State, spread: Selection, name: string)
    requires spread.FragmentSpread?
    requires st.scopedType.Some? && StackReaches(fragments, st.fragmentStack, {spread.name})
    ensures ReportsCycle(VisitFragmentSpread(schema, fragments, st, spread), name) ==>
            ReportsCycle(st, name) || Reaches(fragments, true, name, name)
    decreases fragments.Keys - st.fragmentStack, spread, 0
  {
    var inside := WithDirectives(schema, st, FragmentSpreadLocation, spread.directives);
    WithDirectivesReportsNoCycle(schema, st, FragmentSpreadLocation, spread.directives, name);
    var target := spread.name;
    if target !in fragments {
    } else if target in st.fragmentStack {
      assert Reaches(fragments, true, target, target);
    } else if fragments[target].typeCondition in schema.types {
      StackReachesInside(fragments, st.fragmentStack, target);
      assert target in fragments.Keys - st.fragmentStack;
      SelectionReportsRealCycles(
        schema, fragments, EnterFragment(schema, inside, fragments[target], target), fragments[target].selections,
        name);
    }
  }

  lemma {:induction false} FieldReportsRealCycles(
    schema: Schema, fragments: Fragments, st: State, field: Selection, name: string)
    requires field.Field?
    requires st.scopedType.Some? && StackReaches(fragments, st.fragmentStack, SpreadsOf(true, field))
    ensures ReportsCycle(VisitField(schema, fragments, st, field), name) ==>
            ReportsCycle(st, name) || Reaches(fragments, true, name, name)
    decreases fragments.Keys - st.fragmentStack, field, 1
  {
    EnteringKeeps(schema, st, field);
    EnteringReportsNoCycle(schema, st, field, name);
    match EnterField(schema, st, field)
    case Done(after) =>
    case Entered(inside, inner) => SubSelectionReportsRealCycles(schema, fragments, inside, inner, field, name);
  }

  lemma {:induction false} SubSelectionReportsRealCycles(
    schema: Schema, fragments: Fragments, st: State, inner: NamedType, field: Selection, name: string)
    requires field.Field?
    requires st.scopedType.Some? && StackReaches(fragments, st.fragmentStack, SpreadsOf(true, field))
    ensures ReportsCycle(VisitSubSelection(schema, fragments, st, inner, field), name) ==>
            ReportsCycle(st, name) || Reaches(fragments, true, name, name)
    decreases fragments.Keys - st.fragmentStack, field, 0
  {
    if field.selectionSet.Selections? {
      SelectionReportsRealCycles(
        schema, fragments, Descend(st, inner), field.selectionSet.selections, name);
    }
  }

  lemma {:induction false} DefinitionsReportRealCycles(
    schema: Schema, fragments: Fragments, st: State, document: seq<Definition>, name: string)
    requires Idle(st)
    requires forall i | 0 <= i < |document| && document[i].FragmentDefinition? ::
               document[i].fragment.name in fragments && fragments[document[i].fragment.name] == document[i].fragment
    requires ReportsCycle(VisitDefinitions(schema, fragments, st, document), name)
    ensures ReportsCycle(st, name) || Reaches(fragments, true, name, name)
    decreases document
  {
    if document != [] {
      var first := VisitDefinition(schema, fragments, st, document[0]);
      DefinitionKeeps(schema, fragments, st, document[0]);
      assert forall i | 0 <= i < |document[1..]| :: document[1..][i] == document[i + 1];
      DefinitionsReportRealCycles(schema, fragments, first, document[1..], name);
      if ReportsCycle(first, name) {
        match document[0]
        case TypeDefinition =>
        case FragmentDefinition(fragment) => FragmentReportsRealCycles(schema, fragments, st, fragment, name);
        case OperationDefinition(operation) => OperationReportsRealCycles(schema, fragments, st, operation, name);
      }
    }
  }

  lemma FragmentReportsRealCycles(
    schema: Schema, fragments: Fragments, st: State, fragment: Fragment, name: string)
    requires Idle(st) && fragment.name in fragments && fragments[fragment.name] == fragment
    requires ReportsCycle(VisitFragmentDefinition(schema, fragments, st, fragment), name)
    ensures ReportsCycle(st, name) || Reaches(fragments, true, name, name)
  {
    var inside := WithDirectives(schema, st, FragmentDefinitionLocation, fragment.directives);
    WithDirectivesReportsNoCycle(schema, st, FragmentDefinitionLocation, fragment.directives, name);
    if fragment.typeCondition in schema.types {
      StackReachesInside(fragments, st.fragmentStack, fragment.name);
      SelectionReportsRealCycles(
        schema, fragments, EnterFragment(schema, inside, fragment, fragment.name), fragment.selections, name);
    }
  }

  lemma {:induction false} DefiningReportsNoCycle(
    schema: Schema, st: State, operation: string, variables: seq<VariableDefinition>, name: string)
    requires st.operationVariables.Some?
    ensures ReportsCycle(DefineVariables(schema, st, operation, variables), name) ==> ReportsCycle(st, name)
    decreases variables
  {
    if variables != [] {
      DefiningReportsNoCycle(
        schema, DefineVariable(schema, st, operation, variables[0]), operation, variables[1..], name);
    }
  }

  lemma {:induction false} UnusedVariablesReportNoCycle(defined: seq<string>, referenced: set<string>, name: string)
    ensures CyclicFragment(name) !in UnusedVariables(defined, referenced)
  {
    if defined != [] {
      UnusedVariablesReportNoCycle(defined[1..], referenced, name);
    }
  }

  lemma BeginningReportsNoCycle(schema: Schema, st: State, operation: Operation, name: string)
    ensures ReportsCycle(BeginOperation(schema, st, operation), name) ==> ReportsCycle(st, name)
  {
    var started := st.(operationVariables := Some(map[]));
    var defined := DefineVariables(schema, started, operation.name, operation.variables);
    DefiningReportsNoCycle(schema, started, operation.name, operation.variables, name);
    WithDirectivesReportsNoCycle(schema, defined, OperationLocation(operation.kind), operation.directives, name);
  }

  lemma OperationReportsRealCycles(
    schema: Schema, fragments: Fragments, st: State, operation: Operation, name: string)
    requires Idle(st) && ReportsCycle(VisitOperationDefinition(schema, fragments, st, operation), name)
    ensures ReportsCycle(st, name) || Reaches(fragments, true, name, name)
  {
    var begun := BeginOperation(schema, st, operation);
    BeginningOnlyReports(schema, st, operation);
    BeginningReportsNoCycle(schema, st, operation, name);
    if operation.kind in schema.operationTypes {
      var root := VisitOperationRoot(schema, fragments, begun, operation);
      UnusedVariablesReportNoCycle(root.variableDefinitions, root.referencedVariables, name);
      SelectionReportsRealCycles(
        schema, fragments, EnterRoot(schema, begun, operation), operation.selections, name);
    }
  }

  lemma {:induction false} CollectingReportsNoCycle(
    document: seq<Definition>, found: Fragments, names: set<string>, name: string)
    ensures CyclicFragment(name) !in CollectFragments(document, found).1
    ensures CyclicFragment(name) !in CollectOperations(document, names).1
    decreases document
  {
    if document != [] {
      CollectingReportsNoCycle(document[1..], found, names, name);
      if document[0].FragmentDefinition? {
        var fragment := document[0].fragment;
        CollectingReportsNoCycle(document[1..], found[fragment.name := fragment], names, name);
      }
      if document[0].OperationDefinition? {
        CollectingReportsNoCycle(document[1..], found, names + {document[0].operation.name}, name);
      }
    }
  }

  lemma {:induction false} UnusedFragmentsReportNoCycle(names: seq<string>, used: set<string>, name: string)
    ensures CyclicFragment(name) !in UnusedFragments(names, used)
  {
    if names != [] {
      UnusedFragmentsReportNoCycle(names[1..], used, name);
    }
  }

  /** With unique fragment names, a cycle is reported only for a fragment that does spread itself. */
  lemma ReportedCycleIsReal(schema: Schema, st: State, document: seq<Definition>, name: string)
    requires Ready(st)
    requires forall i | 0 <= i < |document| && document[i].FragmentDefinition? ::
               document[i].fragment.name in FragmentsOf(document) &&
               FragmentsOf(document)[document[i].fragment.name] == document[i].fragment
    requires CyclicFragment(name) in Validate(schema, st, document).errors
    ensures Reaches(FragmentsOf(document), true, name, name)
  {
    var fragments := FragmentsOf(document);
    var st1 := st.(errors := st.errors + DefinitionErrors(document));
    var st2 := VisitDefinitions(schema, fragments, st1, document);
    CollectingReportsNoCycle(document, map[], {}, name);
    UnusedFragmentsReportNoCycle(FragmentNames(document), st2.referencedFragments, name);
    DefinitionsReportRealCycles(schema, fragments, st1, document, name);
  }
}
