/**
 When a new visitor accepts a document, said without its state: the names of fragments and of
 operations differ, every definition is accepted by itself, and nothing defined is left unused.
 */
module DocumentAcceptance {
  import opened Common
  import opened GraphQLTypes
  import opened InputValues
  import opened SortedContainers
  import opened TypeModifiers
  import opened ExecutableValidation
  import opened FieldRules
  import opened FragmentCycles
  import opened HiddenCycles
  import opened PassedOverFields
  import opened SelectionAcceptance
  import opened RequestHistory
  import opened DocumentUses

  // ---- The variables of an operation ----

  function ArgumentOf(schema: Schema, v: VariableDefinition): Argument {
    Argument(
      v.defaultValue.Some?, v.defaultValue.Some? && !v.defaultValue.value.Null?, VariableType(schema, v.tree))
  }

  /** The variables after their definitions. */
  function DefinedBy(schema: Schema, definitions: seq<VariableDefinition>): Variables {
    if definitions == [] then map[]
    else
      var last := definitions[|definitions| - 1];
      DefinedBy(schema, definitions[..|definitions| - 1])[last.name := ArgumentOf(schema, last)]
  }

  /** A new name, an input type, and a default that fits it, in which earlier variables may stand. */
  predicate VariableAccepted(schema: Schema, earlier: Variables, v: VariableDefinition) {
    && v.name !in earlier && VariableType(schema, v.tree).Some?
    && (v.defaultValue.Some? ==>
          HasDistinctFields(v.defaultValue.value) &&
          Inhabits(schema.inputs, Some(earlier), false, v.defaultValue.value, VariableType(schema, v.tree)))
  }

  predicate VariablesAccepted(schema: Schema, definitions: seq<VariableDefinition>) {
    forall i | 0 <= i < |definitions| :: VariableAccepted(schema, DefinedBy(schema, definitions[..i]), definitions[i])
  }

  function UsedByDefault(schema: Schema, v: VariableDefinition): set<string> {
    if v.defaultValue.None? then {}
    else CheckedVariables(schema.inputs, Read(v.defaultValue.value).value, VariableType(schema, v.tree))
  }

  function UsedByDefaults(schema: Schema, definitions: seq<VariableDefinition>): set<string> {
    set i, name | 0 <= i < |definitions| && name in UsedByDefault(schema, definitions[i]) :: name
  }

  lemma OneMoreDefinition(schema: Schema, front: seq<VariableDefinition>, last: VariableDefinition)
    ensures DefinedBy(schema, front + [last]) == DefinedBy(schema, front)[last.name := ArgumentOf(schema, last)]
    ensures UsedByDefaults(schema, front + [last]) ==
            UsedByDefaults(schema, front) + UsedByDefault(schema, last)
  {
    var all := front + [last];
    assert all[..|front|] == front && all[|front|] == last;
    forall i | 0 <= i < |front|
      ensures all[i] == front[i] && all[..i] == front[..i]
    {
    }
  }

  /** What the definitions so far have made of the state. */
  ghost predicate HasDefined(schema: Schema, before: State, st: State, definitions: seq<VariableDefinition>) {
    && st.operationVariables == Some(DefinedBy(schema, definitions))
    && Sorted(ShorterOrLess, st.variableDefinitions)
    && Members(st.variableDefinitions) == DefinedBy(schema, definitions).Keys
    && st.referencedVariables == before.referencedVariables + UsedByDefaults(schema, definitions)
  }

  lemma DefiningIsQuietExactlyWhen(
    schema: Schema, before: State, st: State, operation: string, front: seq<VariableDefinition>,
    v: VariableDefinition)
    requires HasDefined(schema, before, st, front)
    ensures var after := DefineVariable(schema, st, operation, v);
            (after.errors == st.errors <==> VariableAccepted(schema, DefinedBy(schema, front), v)) &&
            (after.errors == st.errors ==> HasDefined(schema, before, after, front + [v]))
  {
    var ofType, variables := VariableType(schema, v.tree), DefinedBy(schema, front);
    OneMoreDefinition(schema, front, v);
    ShorterOrLessIsStrictTotal();
    SetEmplaceAdds(ShorterOrLess, st.variableDefinitions, v.name);
    if v.name !in variables && ofType.Some? && v.defaultValue.Some? {
      DefaultIsQuietExactlyWhen(schema, st, operation, v);
    }
  }

  lemma DefaultIsQuietExactlyWhen(schema: Schema, st: State, operation: string, v: VariableDefinition)
    requires st.operationVariables.Some? && v.name !in st.operationVariables.value
    requires VariableType(schema, v.tree).Some? && v.defaultValue.Some?
    ensures var after := DefineVariable(schema, st, operation, v);
            (after.errors == st.errors <==>
             HasDistinctFields(v.defaultValue.value) &&
             Inhabits(
               schema.inputs, st.operationVariables, false, v.defaultValue.value, VariableType(schema, v.tree))) &&
            (after.errors == st.errors ==>
               after == AddVariable(
                 st.(referencedVariables := st.referencedVariables + UsedByDefault(schema, v)), v.name,
                 ArgumentOf(schema, v)))
  {
    var ofType, written := VariableType(schema, v.tree), v.defaultValue.value;
    var reading := Read(written);
    var value := ValueFindings(schema.inputs, st.operationVariables, false, reading.value, ofType);
    RepeatedFieldsMean(written);
    if HasDistinctFields(written) {
      ReadingKeepsMeaning(schema.inputs, st.operationVariables, false, written, ofType);
    }
    CheckIsInhabits(schema.inputs, st.operationVariables, false, reading.value, ofType);
    AcceptedMarksAllChecked(schema.inputs, st.operationVariables, false, reading.value, ofType);
    var findings := Findings(RepeatedFields(reading.repeated), {}).Then(value);
    NothingAppended(st.errors, findings.errors, []);
    assert findings.errors == [] <==> reading.repeated == [] && value.errors == [];
    var st1 := st.Add(findings);
    assert |st1.errors + [IncompatibleVariableDefault(operation, v.name)]| > |st.errors|;
    assert findings.marked == value.marked;
  }

  /** The rest of the definitions, after those in front. */
  predicate RestAccepted(schema: Schema, front: seq<VariableDefinition>, rest: seq<VariableDefinition>)
    decreases rest
  {
    rest != [] ==>
      VariableAccepted(schema, DefinedBy(schema, front), rest[0]) &&
      RestAccepted(schema, front + [rest[0]], rest[1..])
  }

  predicate AcceptedAfter(
    schema: Schema, front: seq<VariableDefinition>, rest: seq<VariableDefinition>, i: nat)
    requires i < |rest|
  {
    VariableAccepted(schema, DefinedBy(schema, front + rest[..i]), rest[i])
  }

  lemma {:induction false} RestIsAccepted(
    schema: Schema, front: seq<VariableDefinition>, rest: seq<VariableDefinition>)
    ensures RestAccepted(schema, front, rest) <==> forall i | 0 <= i < |rest| :: AcceptedAfter(schema, front, rest, i)
    decreases rest
  {
    if rest != [] {
      RestIsAccepted(schema, front + [rest[0]], rest[1..]);
      assert front + rest[..0] == front;
      forall i | 0 <= i < |rest| - 1
        ensures AcceptedAfter(schema, front, rest, i + 1) <==>
                AcceptedAfter(schema, front + [rest[0]], rest[1..], i)
      {
        assert front + rest[..i + 1] == front + [rest[0]] + rest[1..][..i];
      }
      if RestAccepted(schema, front, rest) {
        forall i | 0 <= i < |rest|
          ensures AcceptedAfter(schema, front, rest, i)
        {
          assert i > 0 ==> AcceptedAfter(schema, front + [rest[0]], rest[1..], i - 1);
        }
      }
      if forall i | 0 <= i < |rest| :: AcceptedAfter(schema, front, rest, i) {
        assert AcceptedAfter(schema, front, rest, 0);
        forall i | 0 <= i < |rest| - 1
          ensures AcceptedAfter(schema, front + [rest[0]], rest[1..], i)
        {
          assert AcceptedAfter(schema, front, rest, i + 1);
        }
      }
    }
  }

  lemma AllAcceptedFromStart(schema: Schema, definitions: seq<VariableDefinition>)
    ensures RestAccepted(schema, [], definitions) <==> VariablesAccepted(schema, definitions)
  {
    RestIsAccepted(schema, [], definitions);
    forall i | 0 <= i < |definitions|
      ensures AcceptedAfter(schema, [], definitions, i) <==>
              VariableAccepted(schema, DefinedBy(schema, definitions[..i]), definitions[i])
    {
      assert [] + definitions[..i] == definitions[..i];
    }
  }

  lemma {:induction false} DefinitionsAreQuietExactlyWhen(
    schema: Schema, before: State, st: State, operation: string, front: seq<VariableDefinition>,
    rest: seq<VariableDefinition>)
    requires HasDefined(schema, before, st, front)
    ensures var after := DefineVariables(schema, st, operation, rest);
            (after.errors == st.errors <==> RestAccepted(schema, front, rest)) &&
            (after.errors == st.errors ==> HasDefined(schema, before, after, front + rest))
    decreases rest
  {
    if rest == [] {
      assert front + rest == front;
    } else {
      var next := DefineVariable(schema, st, operation, rest[0]);
      DefiningIsQuietExactlyWhen(schema, before, st, operation, front, rest[0]);
      DefiningOnlyAdds(schema, st, operation, rest);
      assert front + rest == front + [rest[0]] + rest[1..];
      if next.errors == st.errors {
        DefinitionsAreQuietExactlyWhen(schema, before, next, operation, front + [rest[0]], rest[1..]);
      }
    }
  }

  lemma DefiningOnlyAdds(schema: Schema, st: State, operation: string, rest: seq<VariableDefinition>)
    requires st.operationVariables.Some? && rest != []
    ensures var next := DefineVariable(schema, st, operation, rest[0]);
            DefineVariables(schema, st, operation, rest) == DefineVariables(schema, next, operation, rest[1..]) &&
            st.errors <= next.errors <= DefineVariables(schema, st, operation, rest).errors
  {
    var next := DefineVariable(schema, st, operation, rest[0]);
    assert OnlyReports(st, next);
    DefiningVariablesOnlyReports(schema, next, operation, rest[1..]);
  }

  // ---- One definition ----

  /** On a composite type, with an accepted selection set; it has no variables of its own. */
  ghost predicate FragmentAccepted(schema: Schema, fragments: Fragments, fragment: Fragment) {
    && DirectivesAccepted(schema, None, FragmentDefinitionLocation, fragment.directives, {})
    && fragment.typeCondition in schema.types && !IsLeafKind(schema.types[fragment.typeCondition])
    && SetAccepted(
         schema, fragments, None, {fragment.name}, TypeNamed(schema, fragment.typeCondition), fragment.selections)
  }

  /** The response names of a selection set are one name at most, and its field is not of introspection. */
  predicate HasSingleRoot(met: seq<Met>) {
    && (forall i, j | 0 <= i < j < |met| :: ResponseName(met[i].field) == ResponseName(met[j].field))
    && (met != [] ==> !IsIntrospectionName(met[0].field.name))
  }

  /** Where the directives of an operation stand. */
  const OPERATION_LOCATIONS: map<string, Location> :=
    map["query" := QueryLocation, "mutation" := MutationLocation, "subscription" := SubscriptionLocation]

  function LocationOf(kind: string): Location {
    if kind in OPERATION_LOCATIONS then OPERATION_LOCATIONS[kind] else QueryLocation
  }

  lemma LocationIsOfKind(kind: string)
    ensures OperationLocation(kind) == LocationOf(kind)
  {
  }

  /** What an operation uses of its variables and of the fragments. */
  function UsedByOperation(schema: Schema, fragments: Fragments, operation: Operation): Uses
    requires operation.kind in schema.operationTypes
  {
    Uses(UsedByDefaults(schema, operation.variables), {})
      .Plus(Uses(UsedByDirectives(schema, operation.directives), {}))
      .Plus(UsedIn(schema, fragments, {}, schema.operationTypes[operation.kind], {}, operation.selections))
  }

  /** Of a supported kind, everything in it accepted, every variable used, a subscription with one root field. */
  ghost predicate OperationAccepted(schema: Schema, fragments: Fragments, operation: Operation) {
    && operation.kind in schema.operationTypes
    && VariablesAccepted(schema, operation.variables)
    && var variables := DefinedBy(schema, operation.variables);
       var root := schema.operationTypes[operation.kind];
    && DirectivesAccepted(schema, Some(variables), LocationOf(operation.kind), operation.directives, {})
    && SetAccepted(schema, fragments, Some(variables), {}, root, operation.selections)
    && (operation.kind == "subscription" ==>
          HasSingleRoot(FieldsMet(schema, fragments, {}, root, operation.selections)))
    && variables.Keys <= UsedByOperation(schema, fragments, operation).variables
  }

  /** A state between two definitions of a document that is accepted so far. */
  predicate IsFresh(st: State) {
    Idle(st) && st.fragmentCycles == {} && WithoutVariables(st)
  }

  lemma FragmentIsQuietExactlyWhen(schema: Schema, fragments: Fragments, st: State, fragment: Fragment)
    requires IsFresh(st)
    ensures var after := VisitFragmentDefinition(schema, fragments, st, fragment);
            (after.errors == st.errors <==> FragmentAccepted(schema, fragments, fragment)) &&
            (after.errors == st.errors ==>
               IsFresh(after) &&
               after.referencedFragments == st.referencedFragments +
                 UsedIn(
                   schema, fragments, {fragment.name}, TypeNamed(schema, fragment.typeCondition), {},
                   fragment.selections).spreads)
  {
    var st1 := WithDirectives(schema, st, FragmentDefinitionLocation, fragment.directives);
    WithDirectivesIsQuiet(schema, st, FragmentDefinitionLocation, fragment.directives);
    WithDirectivesMarksNothing(schema, st, FragmentDefinitionLocation, fragment.directives);
    BadTargetIsReported(schema, fragments, st, fragment);
    if fragment.typeCondition in schema.types && !IsLeafKind(schema.types[fragment.typeCondition]) {
      var inside := EnterFragment(schema, st1, fragment, fragment.name);
      BodyIsQuietExactlyWhen(schema, fragments, inside, fragment.selections);
      assert inside.fragmentStack == {fragment.name};
      assert st.errors <= inside.errors <= VisitSelection(schema, fragments, inside, fragment.selections).errors;
    }
  }

  /** A body visited from its own start, whatever the counters stood at. */
  lemma BodyIsQuietExactlyWhen(schema: Schema, fragments: Fragments, st: State, selections: seq<Selection>)
    requires st.scopedType.Some? && st.fragmentCycles == {} && st.selectionFields == map[]
    ensures var after := VisitSelection(schema, fragments, st, selections);
            (after.errors == st.errors <==>
             SetAccepted(
               schema, fragments, st.operationVariables, st.fragmentStack, st.scopedType.value, selections)) &&
            (after.errors == st.errors ==>
               Marks(
                 st, after,
                 UsedIn(schema, fragments, st.fragmentStack, st.scopedType.value, {}, selections)))
  {
    var met := FieldsMet(schema, fragments, st.fragmentStack, st.scopedType.value, selections);
    assert [] + met == met && st.selectionFields.Keys == {};
    assert AccountsFor(schema, st.selectionFields, st.operationVariables, []);
    QuietExactlyWhenAccepted(schema, fragments, st, selections, []);
    if VisitSelection(schema, fragments, st, selections).errors == st.errors {
      SilentSelectionMarksUsed(schema, fragments, st, selections);
    }
  }

  /** After a silent visit the counters tell whether there is a single root. */
  lemma SingleRootIsCounted(schema: Schema, fragments: Fragments, st: State, selections: seq<Selection>)
    requires st.scopedType.Some? && st.fragmentCycles == {}
    requires st.selectionFields == map[] && st.fieldCount == st.introspectionFieldCount == 0
    requires VisitSelection(schema, fragments, st, selections).errors == st.errors
    ensures var after := VisitSelection(schema, fragments, st, selections);
            after.fieldCount <= 1 && after.introspectionFieldCount == 0 <==>
            HasSingleRoot(FieldsMet(schema, fragments, st.fragmentStack, st.scopedType.value, selections))
  {
    CountedExactlyWhenMet(schema, fragments, st, selections);
    var selected := VisitSelection(schema, fragments, st, selections).selectionFields;
    var met := FieldsMet(schema, fragments, st.fragmentStack, st.scopedType.value, selections);
    FewNamesExactlyWhenEqual(schema, selected, met);
    if |selected| <= 1 && met != [] {
      var name := ResponseName(met[0].field);
      assert IsKeptFrom(schema, selected, met, name);
      assert FirstMet(met, name) == 0;
      OnlyOneSelected(selected, name);
      assert Introspective(selected) == (if IsIntrospectionName(met[0].field.name) then {name} else {});
    } else if met == [] {
      assert Introspective(selected) <= selected.Keys;
      assert |selected.Keys| == 0;
    }
  }

  lemma OnlyOneSelected(selected: map<string, ValidatedField>, name: string)
    requires |selected| <= 1 && name in selected
    ensures selected.Keys == {name}
  {
    assert {name} <= selected.Keys && |selected.Keys| <= 1;
    if other :| other in selected && other != name {
      assert |{name, other}| == 2 && {name, other} <= selected.Keys;
      SubsetIsNoLarger({name, other}, selected.Keys);
    }
  }

  lemma {:induction false} SubsetIsNoLarger(small: set<string>, large: set<string>)
    requires small <= large
    ensures |small| <= |large|
  {
    assert large == small + (large - small);
  }

  lemma FewNamesExactlyWhenEqual(schema: Schema, selected: map<string, ValidatedField>, met: seq<Met>)
    requires Follows(schema, selected, met)
    ensures |selected| <= 1 <==>
            forall i, j | 0 <= i < j < |met| :: ResponseName(met[i].field) == ResponseName(met[j].field)
  {
    forall i | 0 <= i < |met|
      ensures ResponseName(met[i].field) in selected
    {
      assert IsKeptFrom(schema, selected, met, ResponseName(met[i].field));
    }
    if |selected| <= 1 && met != [] {
      OnlyOneSelected(selected, ResponseName(met[0].field));
    }
    if forall i, j | 0 <= i < j < |met| :: ResponseName(met[i].field) == ResponseName(met[j].field) {
      forall alias | alias in selected
        ensures met != [] && alias == ResponseName(met[0].field)
      {
        assert IsKeptFrom(schema, selected, met, alias);
      }
      SubsetIsNoLarger(selected.Keys, if met == [] then {} else {ResponseName(met[0].field)});
    }
  }

  // ---- Operations ----

  lemma AllDefinedExactlyWhen(schema: Schema, started: State, operation: Operation)
    requires started.operationVariables == Some(map[])
    requires started.variableDefinitions == [] && started.referencedVariables == {}
    ensures var defined := DefineVariables(schema, started, operation.name, operation.variables);
            OnlyReports(started, defined) &&
            (defined.errors == started.errors <==> VariablesAccepted(schema, operation.variables)) &&
            (defined.errors == started.errors ==>
               defined.operationVariables == Some(DefinedBy(schema, operation.variables)) &&
               Members(defined.variableDefinitions) == DefinedBy(schema, operation.variables).Keys &&
               defined.referencedVariables == UsedByDefaults(schema, operation.variables))
  {
    assert Members<string>([]) == {} && UsedByDefaults(schema, []) == {};
    assert HasDefined(schema, started, started, []);
    DefinitionsAreQuietExactlyWhen(schema, started, started, operation.name, [], operation.variables);
    AllAcceptedFromStart(schema, operation.variables);
    assert [] + operation.variables == operation.variables;
    DefiningVariablesOnlyReports(schema, started, operation.name, operation.variables);
  }

  /** Beginning an operation is silent exactly when its variables and directives are accepted. */
  lemma BeginningIsQuietExactlyWhen(schema: Schema, st: State, operation: Operation)
    requires IsFresh(st)
    ensures var begun := BeginOperation(schema, st, operation);
            var variables := DefinedBy(schema, operation.variables);
            (begun.errors == st.errors <==>
             VariablesAccepted(schema, operation.variables) &&
             DirectivesAccepted(
               schema, Some(variables), LocationOf(operation.kind), operation.directives, {})) &&
            (begun.errors == st.errors ==>
               begun.operationVariables == Some(variables) && OnlyReports(st, begun) &&
               Members(begun.variableDefinitions) == variables.Keys &&
               begun.referencedVariables ==
                 UsedByDefaults(schema, operation.variables) + UsedByDirectives(schema, operation.directives))
  {
    var started := st.(operationVariables := Some(map[]));
    var defined := DefineVariables(schema, started, operation.name, operation.variables);
    var location := OperationLocation(operation.kind);
    LocationIsOfKind(operation.kind);
    AllDefinedExactlyWhen(schema, started, operation);
    WithDirectivesIsQuiet(schema, defined, location, operation.directives);
    var begun := WithDirectives(schema, defined, location, operation.directives);
    assert started.errors <= defined.errors <= begun.errors;
    if begun.errors == st.errors {
      WithDirectivesMarksUsed(schema, defined, location, operation.directives);
    }
  }

  lemma {:induction false} NoneUnusedExactlyWhen(defined: seq<string>, referenced: set<string>)
    ensures UnusedVariables(defined, referenced) == [] <==> Members(defined) <= referenced
  {
    if defined != [] {
      NoneUnusedExactlyWhen(defined[1..], referenced);
      assert defined == [defined[0]] + defined[1..];
      assert Members(defined) == {defined[0]} + Members(defined[1..]);
    }
  }

  lemma SubscriptionIsQuietExactlyWhen(st: State, operation: Operation)
    ensures st.errors <= SubscriptionErrors(st, operation).errors
    ensures SubscriptionErrors(st, operation).errors == st.errors <==>
            (operation.kind == "subscription" ==> st.fieldCount <= 1 && st.introspectionFieldCount == 0)
  {
  }

  /** The selection of an operation, its root type entered with counters at zero. */
  lemma RootIsQuietExactlyWhen(schema: Schema, fragments: Fragments, begun: State, operation: Operation)
    requires operation.kind in schema.operationTypes
    requires begun.fragmentStack == {} && begun.fragmentCycles == {} && begun.selectionFields == map[]
    ensures var root, after := schema.operationTypes[operation.kind],
                               VisitOperationRoot(schema, fragments, begun, operation);
            begun.errors <= after.errors &&
            (after.errors == begun.errors <==>
             SetAccepted(schema, fragments, begun.operationVariables, {}, root, operation.selections) &&
             (operation.kind == "subscription" ==>
                HasSingleRoot(FieldsMet(schema, fragments, {}, root, operation.selections)))) &&
            (after.errors == begun.errors ==>
               Marks(begun, after, UsedIn(schema, fragments, {}, root, {}, operation.selections)) &&
               after.fragmentCycles == begun.fragmentCycles &&
               after.variableDefinitions == begun.variableDefinitions)
  {
    var inside := EnterRoot(schema, begun, operation);
    var visited := VisitSelection(schema, fragments, inside, operation.selections);
    BodyIsQuietExactlyWhen(schema, fragments, inside, operation.selections);
    SubscriptionIsQuietExactlyWhen(visited, operation);
    if visited.errors == inside.errors {
      SingleRootIsCounted(schema, fragments, inside, operation.selections);
    }
  }

  lemma OperationIsQuietExactlyWhen(schema: Schema, fragments: Fragments, st: State, operation: Operation)
    requires IsFresh(st)
    ensures var after := VisitOperationDefinition(schema, fragments, st, operation);
            (after.errors == st.errors <==> OperationAccepted(schema, fragments, operation)) &&
            (after.errors == st.errors ==>
               IsFresh(after) &&
               after.referencedFragments ==
                 st.referencedFragments + UsedByOperation(schema, fragments, operation).spreads)
  {
    BeginningIsQuietExactlyWhen(schema, st, operation);
    BeginningOnlyReports(schema, st, operation);
    var begun := BeginOperation(schema, st, operation);
    if operation.kind in schema.operationTypes {
      var root := VisitOperationRoot(schema, fragments, begun, operation);
      RootIsQuietExactlyWhen(schema, fragments, begun, operation);
      NothingAppended(root.errors, UnusedVariables(root.variableDefinitions, root.referencedVariables), []);
      NoneUnusedExactlyWhen(root.variableDefinitions, root.referencedVariables);
    }
  }

  // ---- Documents ----

  ghost predicate DefinitionAccepted(schema: Schema, fragments: Fragments, definition: Definition) {
    match definition
    case TypeDefinition => false
    case FragmentDefinition(fragment) => FragmentAccepted(schema, fragments, fragment)
    case OperationDefinition(operation) => OperationAccepted(schema, fragments, operation)
  }

  ghost predicate DefinitionsAccepted(schema: Schema, fragments: Fragments, document: seq<Definition>) {
    forall i | 0 <= i < |document| :: DefinitionAccepted(schema, fragments, document[i])
  }

  /** The fragments spread in a definition. */
  function SpreadsInDefinition(schema: Schema, fragments: Fragments, definition: Definition): set<string> {
    match definition
    case TypeDefinition => {}
    case FragmentDefinition(fragment) =>
      if fragment.typeCondition !in schema.types then {}
      else
        UsedIn(
          schema, fragments, {fragment.name}, TypeNamed(schema, fragment.typeCondition), {},
          fragment.selections).spreads
    case OperationDefinition(operation) =>
      if operation.kind !in schema.operationTypes then {}
      else UsedByOperation(schema, fragments, operation).spreads
  }

  function SpreadsInDocument(schema: Schema, fragments: Fragments, document: seq<Definition>): set<string> {
    set i, name | 0 <= i < |document| && name in SpreadsInDefinition(schema, fragments, document[i]) :: name
  }

  lemma DefinitionIsQuietExactlyWhen(schema: Schema, fragments: Fragments, st: State, definition: Definition)
    requires IsFresh(st)
    ensures var after := VisitDefinition(schema, fragments, st, definition);
            (after.errors == st.errors <==> DefinitionAccepted(schema, fragments, definition)) &&
            (after.errors == st.errors ==>
               IsFresh(after) &&
               after.referencedFragments ==
                 st.referencedFragments + SpreadsInDefinition(schema, fragments, definition))
  {
    match definition
    case TypeDefinition =>
    case FragmentDefinition(fragment) => FragmentIsQuietExactlyWhen(schema, fragments, st, fragment);
    case OperationDefinition(operation) => OperationIsQuietExactlyWhen(schema, fragments, st, operation);
  }

  lemma {:induction false} DefinitionsQuietExactlyWhen(
    schema: Schema, fragments: Fragments, st: State, document: seq<Definition>)
    requires IsFresh(st)
    ensures var after := VisitDefinitions(schema, fragments, st, document);
            (after.errors == st.errors <==> DefinitionsAccepted(schema, fragments, document)) &&
            (after.errors == st.errors ==>
               after.referencedFragments ==
                 st.referencedFragments + SpreadsInDocument(schema, fragments, document))
    decreases document
  {
    if document != [] {
      var first, rest := VisitDefinition(schema, fragments, st, document[0]), document[1..];
      DefinitionIsQuietExactlyWhen(schema, fragments, st, document[0]);
      DefinitionKeeps(schema, fragments, st, document[0]);
      DefinitionsKeep(schema, fragments, first, rest);
      AcceptedFirstAndRest(schema, fragments, document);
      if first.errors == st.errors {
        DefinitionsQuietExactlyWhen(schema, fragments, first, rest);
        SpreadsInFirstAndRest(schema, fragments, document);
      }
    }
  }

  lemma AcceptedFirstAndRest(schema: Schema, fragments: Fragments, document: seq<Definition>)
    requires document != []
    ensures DefinitionsAccepted(schema, fragments, document) <==>
            DefinitionAccepted(schema, fragments, document[0]) &&
            DefinitionsAccepted(schema, fragments, document[1..])
  {
    var rest := document[1..];
    assert forall i | 0 <= i < |rest| :: rest[i] == document[i + 1];
    assert forall i | 0 < i < |document| :: document[i] == rest[i - 1];
  }

  lemma SpreadsInFirstAndRest(schema: Schema, fragments: Fragments, document: seq<Definition>)
    requires document != []
    ensures SpreadsInDocument(schema, fragments, document) ==
            SpreadsInDefinition(schema, fragments, document[0]) +
            SpreadsInDocument(schema, fragments, document[1..])
  {
    var rest := document[1..];
    assert forall i | 0 <= i < |rest| :: rest[i] == document[i + 1];
    forall name
      ensures name in SpreadsInDocument(schema, fragments, document) <==>
              name in SpreadsInDefinition(schema, fragments, document[0]) ||
              name in SpreadsInDocument(schema, fragments, rest)
    {
      if i :| 0 <= i < |document| && name in SpreadsInDefinition(schema, fragments, document[i]) {
        assert i > 0 ==> document[i] == rest[i - 1];
      }
      if i :| 0 <= i < |rest| && name in SpreadsInDefinition(schema, fragments, rest[i]) {
        assert document[i + 1] == rest[i];
      }
    }
  }

  // ---- Names ----

  predicate FragmentNamesDiffer(document: seq<Definition>) {
    forall i, j | 0 <= i < j < |document| && document[i].FragmentDefinition? && document[j].FragmentDefinition? ::
      document[i].fragment.name != document[j].fragment.name
  }

  /** Operations have different names, and one without a name is alone. */
  predicate OperationNamesDiffer(document: seq<Definition>) {
    forall i, j | 0 <= i < j < |document| && document[i].OperationDefinition? && document[j].OperationDefinition? ::
      document[i].operation.name != document[j].operation.name
  }

  predicate AnonymousIsAlone(document: seq<Definition>) {
    forall i, j | 0 <= i < |document| && 0 <= j < |document| && i != j &&
      document[i].OperationDefinition? && document[j].OperationDefinition? ::
      document[i].operation.name != ""
  }

  function FragmentNamesIn(document: seq<Definition>): set<string> {
    set i | 0 <= i < |document| && document[i].FragmentDefinition? :: document[i].fragment.name
  }

  function OperationNamesIn(document: seq<Definition>): set<string> {
    set i | 0 <= i < |document| && document[i].OperationDefinition? :: document[i].operation.name
  }

  lemma NamesOfFirstAndRest(document: seq<Definition>)
    requires document != []
    ensures FragmentNamesIn(document) == FragmentNamesIn(document[1..]) +
            (if document[0].FragmentDefinition? then {document[0].fragment.name} else {})
    ensures OperationNamesIn(document) == OperationNamesIn(document[1..]) +
            (if document[0].OperationDefinition? then {document[0].operation.name} else {})
    ensures FragmentNamesDiffer(document) <==>
            FragmentNamesDiffer(document[1..]) &&
            (document[0].FragmentDefinition? ==> document[0].fragment.name !in FragmentNamesIn(document[1..]))
    ensures OperationNamesDiffer(document) <==>
            OperationNamesDiffer(document[1..]) &&
            (document[0].OperationDefinition? ==> document[0].operation.name !in OperationNamesIn(document[1..]))
  {
    var rest := document[1..];
    assert forall i | 0 <= i < |rest| :: rest[i] == document[i + 1];
    assert forall i | 0 < i < |document| :: document[i] == rest[i - 1];
  }

  lemma {:induction false} NoDuplicateFragmentsExactlyWhen(document: seq<Definition>, found: Fragments)
    ensures CollectFragments(document, found).1 == [] <==>
            FragmentNamesDiffer(document) && FragmentNamesIn(document) !! found.Keys
  {
    if document != [] {
      NamesOfFirstAndRest(document);
      if document[0].FragmentDefinition? {
        var fragment := document[0].fragment;
        NoDuplicateFragmentsExactlyWhen(document[1..], found[fragment.name := fragment]);
        assert found[fragment.name := fragment].Keys == found.Keys + {fragment.name};
      } else {
        NoDuplicateFragmentsExactlyWhen(document[1..], found);
      }
    }
  }

  lemma {:induction false} NoDuplicateOperationsExactlyWhen(document: seq<Definition>, found: set<string>)
    ensures CollectOperations(document, found).0 == found + OperationNamesIn(document)
    ensures CollectOperations(document, found).1 == [] <==>
            OperationNamesDiffer(document) && OperationNamesIn(document) !! found
    decreases document
  {
    if document != [] {
      NamesOfFirstAndRest(document);
      if document[0].OperationDefinition? {
        NoDuplicateOperationsExactlyWhen(document[1..], found + {document[0].operation.name});
      } else {
        NoDuplicateOperationsExactlyWhen(document[1..], found);
      }
    }
  }

  lemma SeveralNames(names: set<string>, one: string)
    requires one in names
    ensures |names| > 1 <==> exists other :: other in names && other != one
  {
    if other :| other in names && other != one {
      SubsetIsNoLarger({one, other}, names);
    } else {
      assert names == {one};
    }
  }

  /** With different names, an anonymous operation is reported exactly when it is not the only one. */
  lemma AnonymousIsAloneExactlyWhen(document: seq<Definition>)
    requires OperationNamesDiffer(document)
    ensures AnonymousIsAlone(document) <==>
            !(|OperationNamesIn(document)| > 1 && "" in OperationNamesIn(document))
  {
    var names := OperationNamesIn(document);
    if "" in names {
      SeveralNames(names, "");
      var i :| 0 <= i < |document| && document[i].OperationDefinition? && document[i].operation.name == "";
      if other :| other in names && other != "" {
        var j :| 0 <= j < |document| && document[j].OperationDefinition? && document[j].operation.name == other;
        assert i != j && document[i].operation.name == "";
      }
    }
    forall i, j | 0 <= i < |document| && 0 <= j < |document| && i != j &&
      document[i].OperationDefinition? && document[j].OperationDefinition? && document[i].operation.name == ""
      ensures "" in names && document[j].operation.name in names && document[j].operation.name != ""
    {
    }
  }

  lemma NoDefinitionErrorsExactlyWhen(document: seq<Definition>)
    ensures DefinitionErrors(document) == [] <==>
            FragmentNamesDiffer(document) && OperationNamesDiffer(document) && AnonymousIsAlone(document)
  {
    NoDuplicateFragmentsExactlyWhen(document, map[]);
    NoDuplicateOperationsExactlyWhen(document, {});
    assert CollectOperations(document, {}).0 == OperationNamesIn(document);
    if OperationNamesDiffer(document) {
      AnonymousIsAloneExactlyWhen(document);
    }
  }

  lemma {:induction false} NamesAreCollected(document: seq<Definition>, found: seq<string>)
    requires Sorted(ShorterOrLess, found)
    ensures Members(CollectNames(document, found)) == Members(found) + FragmentNamesIn(document)
    decreases document
  {
    if document != [] {
      NamesOfFirstAndRest(document);
      if document[0].FragmentDefinition? {
        ShorterOrLessIsStrictTotal();
        SetEmplaceAdds(ShorterOrLess, found, document[0].fragment.name);
        NamesAreCollected(document[1..], SetEmplace(ShorterOrLess, found, document[0].fragment.name));
      } else {
        NamesAreCollected(document[1..], found);
      }
    }
  }

  lemma {:induction false} NoFragmentUnusedExactlyWhen(names: seq<string>, used: set<string>)
    ensures UnusedFragments(names, used) == [] <==> Members(names) <= used
  {
    if names != [] {
      NoFragmentUnusedExactlyWhen(names[1..], used);
      assert names == [names[0]] + names[1..];
      assert Members(names) == {names[0]} + Members(names[1..]);
    }
  }

  /** What a document has to be, for a new visitor to accept it. */
  ghost predicate DocumentAccepted(schema: Schema, document: seq<Definition>) {
    var fragments := FragmentsOf(document);
    && FragmentNamesDiffer(document) && OperationNamesDiffer(document) && AnonymousIsAlone(document)
    && DefinitionsAccepted(schema, fragments, document)
    && FragmentNamesIn(document) <= SpreadsInDocument(schema, fragments, document)
  }

  /** A new visitor reports nothing exactly for such documents. */
  lemma AcceptedExactlyWhen(schema: Schema, st: State, document: seq<Definition>)
    requires Ready(st) && WithoutVariables(st)
    ensures Validate(schema, st, document).errors == [] <==> DocumentAccepted(schema, document)
  {
    var fragments := FragmentsOf(document);
    var st1 := st.(errors := st.errors + DefinitionErrors(document));
    var st2 := VisitDefinitions(schema, fragments, st1, document);
    NoDefinitionErrorsExactlyWhen(document);
    DefinitionsKeep(schema, fragments, st1, document);
    DefinitionsQuietExactlyWhen(schema, fragments, st1, document);
    NamesAreCollected(document, []);
    NoFragmentUnusedExactlyWhen(FragmentNames(document), st2.referencedFragments);
    assert Members<string>([]) == {};
    NothingAppended(st2.errors, UnusedFragments(FragmentNames(document), st2.referencedFragments), []);
    assert st1.errors == [] ==> st1 == st;
  }
}
