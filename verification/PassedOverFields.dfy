/**
 A field whose response name is taken is passed over: its arguments are not checked where it stands.
 This module proves what an accepted document still guarantees of them. The first field of the
 response name in the selection set has checked arguments; a later one has its type and, unless the
 two stand on different object types, its name and arguments. So its arguments fit where it stands
 exactly when they fit what is declared there and not already for the first field.
 */
module PassedOverFields {
  import opened Common
  import opened GraphQLTypes
  import opened InputValues
  import opened ExecutableValidation
  import opened FieldRules
  import opened FragmentCycles
  import opened HiddenCycles

  // ---- The fields of a selection set ----

  datatype FieldInScope = FieldInScope(scope: NamedType, field: Selection)

  /** A field of a selection set and the type it stands on. */
  type Met = met: FieldInScope | met.field.Field?
    witness FieldInScope(NamedType(Object, ""), Field("", "", [], NoSelections, []))

  function TypeNamed(schema: Schema, name: string): NamedType
    requires name in schema.types
  {
    NamedType(schema.types[name], name)
  }

  function TargetScope(schema: Schema, scope: NamedType, typeCondition: string): NamedType
    requires typeCondition != "" ==> typeCondition in schema.types
  {
    if typeCondition == "" then scope else TypeNamed(schema, typeCondition)
  }

  /** The fields of one selection set in their order, spreads and inline fragments expanded where they stand. */
  function FieldsMet(
    schema: Schema, fragments: Fragments, stack: set<string>, scope: NamedType, selections: seq<Selection>)
    : seq<Met>
    decreases fragments.Keys - stack, selections, 0
  {
    if selections == [] then []
    else
      FieldsMetInOne(schema, fragments, stack, scope, selections[0]) +
      FieldsMet(schema, fragments, stack, scope, selections[1..])
  }

  function FieldsMetInOne(
    schema: Schema, fragments: Fragments, stack: set<string>, scope: NamedType, selection: Selection)
    : seq<Met>
    decreases fragments.Keys - stack, selection, 1
  {
    match selection
    case Field(_, _, _, _, _) => [FieldInScope(scope, selection)]
    case FragmentSpread(name, _) =>
      if name in fragments && name !in stack && fragments[name].typeCondition in schema.types then
        assert name in fragments.Keys - stack;
        FieldsMet(
          schema, fragments, stack + {name}, TypeNamed(schema, fragments[name].typeCondition),
          fragments[name].selections)
      else []
    case InlineFragment(typeCondition, inner, _) =>
      if typeCondition == "" || typeCondition in schema.types then
        FieldsMet(schema, fragments, stack, TargetScope(schema, scope, typeCondition), inner)
      else []
  }

  /** The index of the first field with the response name. */
  function FirstMet(met: seq<Met>, name: string): (first: nat)
    ensures first <= |met|
    ensures first < |met| ==> ResponseName(met[first].field) == name
    ensures forall k | 0 <= k < first :: ResponseName(met[k].field) != name
  {
    if met == [] || ResponseName(met[0].field) == name then 0
    else
      assert forall k | 0 < k < |met| :: met[k] == met[1..][k - 1];
      1 + FirstMet(met[1..], name)
  }

  function First(met: seq<Met>, i: nat): (first: nat)
    requires i < |met|
    ensures first <= i && ResponseName(met[first].field) == ResponseName(met[i].field)
  {
    FirstMet(met, ResponseName(met[i].field))
  }

  function TypeOf(schema: Schema, met: Met): Option<Type> {
    TypeInScope(schema, met.scope, met.field.name)
  }

  /** The arguments fit the field as it is declared where it stands. */
  predicate Fits(schema: Schema, variables: Option<Variables>, met: Met) {
    ArgumentsFitScope(schema, variables, met.scope, met.field)
  }

  /** The two stand on different object types, so that no response has both. */
  predicate OnOtherObject(earlier: NamedType, scope: NamedType) {
    earlier.kind == Object && scope.kind == Object && earlier != scope
  }

  /** Of the same type, and of the same name and arguments where a response may have both. */
  predicate Repeats(schema: Schema, earlier: Met, later: Met) {
    && TypeOf(schema, earlier) == TypeOf(schema, later)
    && (OnOtherObject(earlier.scope, later.scope) ||
        (earlier.field.name == later.field.name && GivenArguments(earlier.field) == GivenArguments(later.field)))
  }

  /** The first field of its response name fits; any other repeats a field that does. */
  predicate IsAccountedFor(schema: Schema, variables: Option<Variables>, met: seq<Met>, i: nat)
    requires i < |met|
  {
    && TypeOf(schema, met[i]).Some? && NothingRepeated(met[i].field.arguments)
    && Fits(schema, variables, met[First(met, i)])
    && Repeats(schema, met[First(met, i)], met[i])
  }

  predicate AllAccountedFor(schema: Schema, variables: Option<Variables>, met: seq<Met>) {
    forall i | 0 <= i < |met| :: IsAccountedFor(schema, variables, met, i)
  }

  // ---- When the arguments of a field that was passed over fit ----

  function Declared(schema: Schema, met: Met): Arguments {
    if met.scope.name in schema.typeFields && met.field.name in schema.typeFields[met.scope.name] then
      schema.typeFields[met.scope.name][met.field.name].arguments
    else []
  }

  /** What the check of the earlier field has already decided for the later one. */
  function AlreadyChecked(schema: Schema, earlier: Met, later: Met): Arguments {
    if OnOtherObject(earlier.scope, later.scope) then [] else Declared(schema, earlier)
  }

  /** The given arguments are declared for the later field, and fit where its table is not the earlier one's. */
  predicate NewArgumentsFit(schema: Schema, variables: Option<Variables>, earlier: Met, later: Met) {
    later.scope.name in schema.typeFields && later.field.name in schema.typeFields[later.scope.name] ==>
      var given, declared := GivenArguments(later.field), Declared(schema, later);
      && (forall name | name in given :: HasName(declared, name))
      && (forall entry | entry in declared && entry !in AlreadyChecked(schema, earlier, later) ::
            ArgumentFits(schema.inputs, variables, entry.value, Given(given, entry.name)))
  }

  /** Collected arguments fit: all declared, all of their types, none missing. */
  predicate GivenFit(
    inputs: InputSchema, variables: Option<Variables>, declared: Arguments, given: map<string, Literal>)
  {
    && (forall name | name in given :: HasName(declared, name))
    && (forall entry | entry in declared ::
          ArgumentFits(inputs, variables, entry.value, Given(given, entry.name)))
  }

  /** Arguments fit as written exactly when they fit as collected. */
  lemma WrittenFitIsGivenFit(schema: Schema, variables: Option<Variables>, declared: Arguments, field: Selection)
    requires field.Field? && NothingRepeated(field.arguments)
    ensures ArgumentsFit(schema.inputs, variables, declared, field.arguments) <==>
            GivenFit(schema.inputs, variables, declared, GivenArguments(field))
  {
    var owner, given := OfField(field.name), GivenArguments(field);
    forall name
      ensures name in given <==> HasName(field.arguments, name)
      ensures Given(given, name) == ReadOption(Lookup(field.arguments, name))
    {
      CollectedArgumentsAreFirst(owner, field.arguments, map[], name);
    }
    assert forall i | 0 <= i < |field.arguments| :: HasName(field.arguments, field.arguments[i].name);
    forall i | 0 <= i < |declared|
      ensures ArgumentFits(schema.inputs, variables, declared[i].value, Given(given, declared[i].name)) <==>
              ArgumentFits(schema.inputs, variables, declared[i].value, Lookup(field.arguments, declared[i].name))
    {
      ReadingKeepsFit(schema.inputs, variables, declared[i].value, Lookup(field.arguments, declared[i].name));
    }
    if GivenFit(schema.inputs, variables, declared, given) {
      forall i | 0 <= i < |field.arguments|
        ensures HasName(declared, field.arguments[i].name)
      {
        assert field.arguments[i].name in given;
      }
      assert forall i | 0 <= i < |declared| :: declared[i] in declared;
    }
  }

  /**
   The arguments of a field that was passed over fit where it stands exactly when they are declared
   there, and fit whatever is declared there otherwise than for the first field.
   */
  lemma PassedOverFitsExactlyWhen(schema: Schema, variables: Option<Variables>, met: seq<Met>, i: nat)
    requires i < |met| && AllAccountedFor(schema, variables, met)
    ensures Fits(schema, variables, met[i]) <==>
            NewArgumentsFit(schema, variables, met[First(met, i)], met[i])
  {
    var earlier, later := met[First(met, i)], met[i];
    assert IsAccountedFor(schema, variables, met, i) && IsAccountedFor(schema, variables, met, First(met, i));
    WrittenFitIsGivenFit(schema, variables, Declared(schema, earlier), earlier.field);
    WrittenFitIsGivenFit(schema, variables, Declared(schema, later), later.field);
  }

  function OneArgument(name: string): seq<Entry<Literal>> {
    [Entry(name, Literal.Null)]
  }

  lemma OneArgumentIsGiven(field: string, name: string)
    ensures CollectArguments(OfField(field), OneArgument(name), map[]).given == map[name := Literal.Null]
    ensures NothingRepeated(OneArgument(name))
  {
    assert OneArgument(name)[1..] == [];
    assert CollectArguments(OfField(field), [], map[][name := Literal.Null]).given == map[name := Literal.Null];
  }

  /** The earlier field was kept from another object type than the scope. */
  predicate KeptOnOtherObject(earlier: ValidatedField, scope: NamedType) {
    earlier.objectType.Some? && scope.kind == Object && earlier.objectType.value != scope
  }

  function Earlier(st: State, field: Selection): ValidatedField
    requires field.Field? && ResponseName(field) in st.selectionFields
  {
    st.selectionFields[ResponseName(field)]
  }

  predicate IsPassedOver(schema: Schema, st: State, field: Selection)
    requires field.Field? && st.scopedType.Some?
  {
    IsSelectable(schema, st, field) && ResponseName(field) in st.selectionFields
  }

  /** Its arguments may be anything without repetitions exactly when the earlier field is on another object. */
  lemma UncheckedExactlyOnOtherObject(schema: Schema, st: State, field: Selection)
    requires field.Field? && st.scopedType.Some? && IsPassedOver(schema, st, field)
    ensures KeptOnOtherObject(Earlier(st, field), st.scopedType.value) <==>
            forall arguments | NothingRepeated(arguments) ::
              IsPassedOver(schema, st, field.(arguments := arguments))
  {
    if !KeptOnOtherObject(Earlier(st, field), st.scopedType.value) {
      var one, other := OneArgument("a"), OneArgument("b");
      OneArgumentIsGiven(field.name, "a");
      OneArgumentIsGiven(field.name, "b");
      assert "a" in map["a" := Literal.Null] && "a" !in map["b" := Literal.Null];
      assert !IsPassedOver(schema, st, field.(arguments := one)) ||
             !IsPassedOver(schema, st, field.(arguments := other));
    }
  }

  // ---- One accepted selection set ----

  /** The selected fields are the first ones met under their response names, with checked arguments. */
  ghost predicate Follows(schema: Schema, selected: map<string, ValidatedField>, met: seq<Met>) {
    forall alias :: IsKeptFrom(schema, selected, met, alias)
  }

  predicate IsKeptFrom(schema: Schema, selected: map<string, ValidatedField>, met: seq<Met>, alias: string) {
    var first := FirstMet(met, alias);
    && (alias in selected <==> first < |met|)
    && (first < |met| ==>
          TypeOf(schema, met[first]).Some? &&
          selected[alias] ==
            Selected(met[first].scope, met[first].field, TypeOf(schema, met[first]).value))
  }

  lemma FirstAfterAppend(met: seq<Met>, more: Met, name: string)
    ensures FirstMet(met + [more], name) ==
            (if FirstMet(met, name) < |met| then FirstMet(met, name)
             else if ResponseName(more.field) == name then |met|
             else |met| + 1)
  {
    var all := met + [more];
    assert forall k | 0 <= k < |met| :: all[k] == met[k];
    assert all[|met|] == more;
    var first := FirstMet(all, name);
    assert first < |met| ==> all[first] == met[first];
    assert FirstMet(met, name) < |met| ==> ResponseName(all[FirstMet(met, name)].field) == name;
  }

  lemma AppendKeepsAccountedFor(schema: Schema, variables: Option<Variables>, met: seq<Met>, more: Met)
    requires AllAccountedFor(schema, variables, met)
    requires IsAccountedFor(schema, variables, met + [more], |met|)
    ensures AllAccountedFor(schema, variables, met + [more])
  {
    forall i | 0 <= i < |met|
      ensures IsAccountedFor(schema, variables, met + [more], i)
    {
      assert IsAccountedFor(schema, variables, met, i);
      FirstAfterAppend(met, more, ResponseName(met[i].field));
    }
  }

  /** A field that is entered or passed over silently is accounted for. */
  lemma SelectableIsAccountedFor(schema: Schema, st: State, field: Selection, before: seq<Met>)
    requires field.Field? && st.scopedType.Some? && IsSelectable(schema, st, field)
    requires Follows(schema, st.selectionFields, before) && AllAccountedFor(schema, st.operationVariables, before)
    ensures var all := before + [FieldInScope(st.scopedType.value, field)];
            Follows(schema, EnterField(schema, st, field).state.selectionFields, all) &&
            AllAccountedFor(schema, st.operationVariables, all)
  {
    var more: Met := FieldInScope(st.scopedType.value, field);
    var all := before + [more];
    PassedOverExactlyWhenMerged(schema, st, field);
    EnteringKeeps(schema, st, field);
    var name := ResponseName(field);
    var first := FirstMet(before, name);
    assert IsKeptFrom(schema, st.selectionFields, before, name);
    FirstAfterAppend(before, more, name);
    if first < |before| {
      assert IsAccountedFor(schema, st.operationVariables, before, first);
      assert First(before, first) == first;
    }
    assert IsAccountedFor(schema, st.operationVariables, all, |before|);
    AppendKeepsAccountedFor(schema, st.operationVariables, before, more);
    forall alias
      ensures IsKeptFrom(schema, EnterField(schema, st, field).state.selectionFields, all, alias)
    {
      assert IsKeptFrom(schema, st.selectionFields, before, alias);
      FirstAfterAppend(before, more, alias);
    }
  }

  /** The fields met before and in the selections are accounted for, and the visitor has kept the first ones. */
  ghost predicate AccountsFor(
    schema: Schema, selected: map<string, ValidatedField>, variables: Option<Variables>, met: seq<Met>)
  {
    Follows(schema, selected, met) && AllAccountedFor(schema, variables, met)
  }

  lemma {:induction false} AcceptedSelectionAccounts(
    schema: Schema, fragments: Fragments, st: State, selections: seq<Selection>, before: seq<Met>)
    requires st.scopedType.Some? && st.fragmentCycles == {}
    requires AccountsFor(schema, st.selectionFields, st.operationVariables, before)
    requires VisitSelection(schema, fragments, st, selections).errors == st.errors
    ensures AccountsFor(
      schema, VisitSelection(schema, fragments, st, selections).selectionFields, st.operationVariables,
      before + FieldsMet(schema, fragments, st.fragmentStack, st.scopedType.value, selections))
    decreases fragments.Keys - st.fragmentStack, selections, 0
  {
    if selections == [] {
      assert before + [] == before;
    } else {
      var first := Visit(schema, fragments, st, selections[0]);
      assert first.errors == st.errors;
      AcceptedVisitAccounts(schema, fragments, st, selections[0], before);
      var one := FieldsMetInOne(schema, fragments, st.fragmentStack, st.scopedType.value, selections[0]);
      var rest := FieldsMet(schema, fragments, st.fragmentStack, st.scopedType.value, selections[1..]);
      AcceptedSelectionAccounts(schema, fragments, first, selections[1..], before + one);
      assert before + one + rest == before + (one + rest);
    }
  }

  lemma {:induction false} AcceptedVisitAccounts(
    schema: Schema, fragments: Fragments, st: State, selection: Selection, before: seq<Met>)
    requires st.scopedType.Some? && st.fragmentCycles == {}
    requires AccountsFor(schema, st.selectionFields, st.operationVariables, before)
    requires Visit(schema, fragments, st, selection).errors == st.errors
    ensures AccountsFor(
      schema, Visit(schema, fragments, st, selection).selectionFields, st.operationVariables,
      before + FieldsMetInOne(schema, fragments, st.fragmentStack, st.scopedType.value, selection))
    decreases fragments.Keys - st.fragmentStack, selection, 2
  {
    match selection
    case Field(_, _, _, _, _) =>
      VisitFieldIsQuietExactlyWhen(schema, fragments, st, selection);
      SelectableIsAccountedFor(schema, st, selection, before);
      VisitKeepsSelected(schema, fragments, st, selection);
    case FragmentSpread(name, _) =>
      var inside := SilentSpreadIsEntered(schema, fragments, st, selection);
      assert name in fragments.Keys - st.fragmentStack;
      AcceptedSelectionAccounts(schema, fragments, inside, fragments[name].selections, before);
    case InlineFragment(_, inner, _) =>
      var inside := SilentInlineIsEntered(schema, fragments, st, selection);
      AcceptedSelectionAccounts(schema, fragments, inside, inner, before);
  }

  lemma VisitKeepsSelected(schema: Schema, fragments: Fragments, st: State, field: Selection)
    requires field.Field? && st.scopedType.Some?
    ensures VisitField(schema, fragments, st, field).selectionFields ==
            EnterField(schema, st, field).state.selectionFields
  {
    EnteringKeeps(schema, st, field);
  }

  // ---- The selection sets below ----

  /** The fields of a selection set, and of every one below it that is visited. */
  function SetsMet(
    schema: Schema, fragments: Fragments, stack: set<string>, scope: NamedType, selections: seq<Selection>)
    : seq<seq<Met>>
    decreases fragments.Keys - stack, selections, 1
  {
    [FieldsMet(schema, fragments, stack, scope, selections)] +
    SetsBelow(schema, fragments, stack, scope, {}, selections)
  }

  function SetsBelow(
    schema: Schema, fragments: Fragments, stack: set<string>, scope: NamedType, taken: set<string>,
    selections: seq<Selection>): seq<seq<Met>>
    decreases fragments.Keys - stack, selections, 0
  {
    if selections == [] then []
    else
      SetsBelowOne(schema, fragments, stack, scope, taken, selections[0]) +
      SetsBelow(
        schema, fragments, stack, scope, TakenAfterOne(fragments, stack, taken, selections[0]), selections[1..])
  }

  /** Nothing below a field whose response name is taken is visited. */
  function SetsBelowOne(
    schema: Schema, fragments: Fragments, stack: set<string>, scope: NamedType, taken: set<string>,
    selection: Selection): seq<seq<Met>>
    decreases fragments.Keys - stack, selection, 2
  {
    match selection
    case Field(_, name, _, selectionSet, _) =>
      var inner := Innermost(TypeInScope(schema, scope, name));
      if ResponseName(selection) in taken || selectionSet.NoSelections? || inner.None? then []
      else SetsMet(schema, fragments, stack, inner.value, selectionSet.selections)
    case FragmentSpread(name, _) =>
      if name in fragments && name !in stack && fragments[name].typeCondition in schema.types then
        assert name in fragments.Keys - stack;
        SetsBelow(
          schema, fragments, stack + {name}, TypeNamed(schema, fragments[name].typeCondition), taken,
          fragments[name].selections)
      else []
    case InlineFragment(typeCondition, inner, _) =>
      if typeCondition == "" || typeCondition in schema.types then
        SetsBelow(schema, fragments, stack, TargetScope(schema, scope, typeCondition), taken, inner)
      else []
  }

  predicate EverySetAccountedFor(schema: Schema, variables: Option<Variables>, sets: seq<seq<Met>>) {
    forall met | met in sets :: AllAccountedFor(schema, variables, met)
  }

  /** In an accepted selection set the fields of every visited set in it are accounted for. */
  lemma {:induction false} AcceptedSetsAreAccountedFor(
    schema: Schema, fragments: Fragments, st: State, selections: seq<Selection>)
    requires st.scopedType.Some? && st.fragmentCycles == {} && st.selectionFields == map[]
    requires VisitSelection(schema, fragments, st, selections).errors == st.errors
    ensures EverySetAccountedFor(
      schema, st.operationVariables,
      SetsMet(schema, fragments, st.fragmentStack, st.scopedType.value, selections))
    decreases fragments.Keys - st.fragmentStack, selections, 1
  {
    assert AccountsFor(schema, st.selectionFields, st.operationVariables, []);
    AcceptedSelectionAccounts(schema, fragments, st, selections, []);
    var met := FieldsMet(schema, fragments, st.fragmentStack, st.scopedType.value, selections);
    assert [] + met == met;
    assert st.selectionFields.Keys == {};
    AcceptedSetsBelowAreAccountedFor(schema, fragments, st, selections);
  }

  lemma {:induction false} AcceptedSetsBelowAreAccountedFor(
    schema: Schema, fragments: Fragments, st: State, selections: seq<Selection>)
    requires st.scopedType.Some? && st.fragmentCycles == {}
    requires VisitSelection(schema, fragments, st, selections).errors == st.errors
    ensures EverySetAccountedFor(
      schema, st.operationVariables,
      SetsBelow(
        schema, fragments, st.fragmentStack, st.scopedType.value, st.selectionFields.Keys, selections))
    decreases fragments.Keys - st.fragmentStack, selections, 0
  {
    if selections != [] {
      var first := Visit(schema, fragments, st, selections[0]);
      assert first.errors == st.errors;
      AcceptedSetsBelowOneAreAccountedFor(schema, fragments, st, selections[0]);
      SilentVisitWalks(schema, fragments, st, selections[0]);
      AcceptedSetsBelowAreAccountedFor(schema, fragments, first, selections[1..]);
    }
  }

  lemma {:induction false} AcceptedSetsBelowOneAreAccountedFor(
    schema: Schema, fragments: Fragments, st: State, selection: Selection)
    requires st.scopedType.Some? && st.fragmentCycles == {}
    requires Visit(schema, fragments, st, selection).errors == st.errors
    ensures EverySetAccountedFor(
      schema, st.operationVariables,
      SetsBelowOne(
        schema, fragments, st.fragmentStack, st.scopedType.value, st.selectionFields.Keys, selection))
    decreases fragments.Keys - st.fragmentStack, selection, 2
  {
    match selection
    case Field(_, _, _, selectionSet, _) =>
      VisitFieldIsQuietExactlyWhen(schema, fragments, st, selection);
      PassedOverExactlyWhenMerged(schema, st, selection);
      EnteringKeeps(schema, st, selection);
      var step := EnterField(schema, st, selection);
      if step.Entered? && selectionSet.Selections? {
        AcceptedSetsAreAccountedFor(
          schema, fragments, Descend(step.state, step.inner), selectionSet.selections);
      }
    case FragmentSpread(name, _) =>
      var inside := SilentSpreadIsEntered(schema, fragments, st, selection);
      assert name in fragments.Keys - st.fragmentStack;
      AcceptedSetsBelowAreAccountedFor(schema, fragments, inside, fragments[name].selections);
    case InlineFragment(_, inner, _) =>
      var inside := SilentInlineIsEntered(schema, fragments, st, selection);
      AcceptedSetsBelowAreAccountedFor(schema, fragments, inside, inner);
  }

  // ---- Whole documents ----

  /** A visited selection set with the variables its arguments may use. */
  datatype MetSet = MetSet(variables: Option<Variables>, fields: seq<Met>)

  function WithVariables(variables: Option<Variables>, sets: seq<seq<Met>>): seq<MetSet> {
    seq(|sets|, i requires 0 <= i < |sets| => MetSet(variables, sets[i]))
  }

  function SetsOfDefinition(schema: Schema, fragments: Fragments, st: State, definition: Definition): seq<MetSet> {
    match definition
    case TypeDefinition => []
    case FragmentDefinition(fragment) =>
      if fragment.typeCondition !in schema.types then []
      else
        WithVariables(
          st.operationVariables,
          SetsMet(
            schema, fragments, {fragment.name}, TypeNamed(schema, fragment.typeCondition), fragment.selections))
    case OperationDefinition(operation) =>
      if operation.kind !in schema.operationTypes then []
      else
        WithVariables(
          BeginOperation(schema, st, operation).operationVariables,
          SetsMet(schema, fragments, {}, schema.operationTypes[operation.kind], operation.selections))
  }

  function SetsOfDefinitions(schema: Schema, fragments: Fragments, st: State, document: seq<Definition>): seq<MetSet>
    decreases document
  {
    if document == [] then []
    else
      SetsOfDefinition(schema, fragments, st, document[0]) +
      SetsOfDefinitions(schema, fragments, VisitDefinition(schema, fragments, st, document[0]), document[1..])
  }

  /** Every selection set that is visited in the document. */
  function SetsOfDocument(schema: Schema, st: State, document: seq<Definition>): seq<MetSet> {
    SetsOfDefinitions(
      schema, FragmentsOf(document), st.(errors := st.errors + DefinitionErrors(document)), document)
  }

  lemma OperationErrorsGrow(schema: Schema, fragments: Fragments, st: State, operation: Operation)
    requires Idle(st)
    ensures operation.kind !in schema.operationTypes ==>
            |VisitOperationDefinition(schema, fragments, st, operation).errors| > |st.errors|
  {
    BeginningOnlyReports(schema, st, operation);
  }

  /** An operation that is visited silently has a root type and a silent selection. */
  lemma QuietOperationIsEntered(schema: Schema, fragments: Fragments, st: State, operation: Operation)
    returns (inside: State)
    requires Idle(st) && VisitOperationDefinition(schema, fragments, st, operation).errors == st.errors
    ensures operation.kind in schema.operationTypes
    ensures inside == EnterRoot(schema, BeginOperation(schema, st, operation), operation)
    ensures inside.scopedType.Some? && inside.errors == st.errors && inside.selectionFields == map[]
    ensures inside.fragmentCycles == st.fragmentCycles && inside.fragmentStack == {}
    ensures VisitSelection(schema, fragments, inside, operation.selections).errors == st.errors
  {
    OperationErrorsGrow(schema, fragments, st, operation);
    BeginningOnlyReports(schema, st, operation);
    inside := EnterRoot(schema, BeginOperation(schema, st, operation), operation);
    var visited := VisitSelection(schema, fragments, inside, operation.selections);
    var root := VisitOperationRoot(schema, fragments, BeginOperation(schema, st, operation), operation);
    assert inside.errors <= visited.errors <= root.errors <=
           VisitOperationDefinition(schema, fragments, st, operation).errors;
  }

  lemma AcceptedDefinitionIsAccountedFor(
    schema: Schema, fragments: Fragments, st: State, definition: Definition)
    requires Idle(st) && st.fragmentCycles == {}
    requires VisitDefinition(schema, fragments, st, definition).errors == st.errors
    ensures forall met | met in SetsOfDefinition(schema, fragments, st, definition) ::
              AllAccountedFor(schema, met.variables, met.fields)
  {
    match definition
    case TypeDefinition =>
    case FragmentDefinition(fragment) =>
      var inside := QuietFragmentIsEntered(schema, fragments, st, fragment);
      AcceptedSetsAreAccountedFor(schema, fragments, inside, fragment.selections);
    case OperationDefinition(operation) =>
      var inside := QuietOperationIsEntered(schema, fragments, st, operation);
      AcceptedSetsAreAccountedFor(schema, fragments, inside, operation.selections);
  }

  lemma {:induction false} AcceptedDefinitionsAreAccountedFor(
    schema: Schema, fragments: Fragments, st: State, document: seq<Definition>)
    requires Idle(st) && st.fragmentCycles == {}
    requires VisitDefinitions(schema, fragments, st, document).errors == st.errors
    ensures forall met | met in SetsOfDefinitions(schema, fragments, st, document) ::
              AllAccountedFor(schema, met.variables, met.fields)
    decreases document
  {
    if document != [] {
      var first := VisitDefinition(schema, fragments, st, document[0]);
      DefinitionKeeps(schema, fragments, st, document[0]);
      DefinitionsKeep(schema, fragments, first, document[1..]);
      assert first.errors == st.errors;
      AcceptedDefinitionIsAccountedFor(schema, fragments, st, document[0]);
      AcceptedDefinitionsAreAccountedFor(schema, fragments, first, document[1..]);
    }
  }

  /** In an accepted document the fields of every visited selection set are accounted for. */
  lemma AcceptedDocumentIsAccountedFor(schema: Schema, st: State, document: seq<Definition>)
    requires Ready(st) && Validate(schema, st, document).errors == []
    ensures forall met | met in SetsOfDocument(schema, st, document) ::
              AllAccountedFor(schema, met.variables, met.fields)
  {
    var st1 := st.(errors := st.errors + DefinitionErrors(document));
    DefinitionsKeep(schema, FragmentsOf(document), st1, document);
    assert st1.errors == [];
    AcceptedDefinitionsAreAccountedFor(schema, FragmentsOf(document), st1, document);
  }

  predicate AllFit(schema: Schema, met: MetSet) {
    forall i | 0 <= i < |met.fields| :: Fits(schema, met.variables, met.fields[i])
  }

  /** Every field but the first of its response name fits what the first one was not checked against. */
  predicate PassedOverFit(schema: Schema, met: MetSet) {
    forall i | 0 <= i < |met.fields| && First(met.fields, i) < i ::
      NewArgumentsFit(schema, met.variables, met.fields[First(met.fields, i)], met.fields[i])
  }

  /** In an accepted document all arguments fit where they stand exactly when those passed over do so anew. */
  lemma AcceptedDocumentFitsExactlyWhen(schema: Schema, st: State, document: seq<Definition>)
    requires Ready(st) && Validate(schema, st, document).errors == []
    ensures forall met | met in SetsOfDocument(schema, st, document) ::
              AllFit(schema, met) <==> PassedOverFit(schema, met)
  {
    AcceptedDocumentIsAccountedFor(schema, st, document);
    forall met | met in SetsOfDocument(schema, st, document)
      ensures AllFit(schema, met) <==> PassedOverFit(schema, met)
    {
      forall i | 0 <= i < |met.fields|
        ensures Fits(schema, met.variables, met.fields[i]) <==>
                First(met.fields, i) == i ||
                NewArgumentsFit(schema, met.variables, met.fields[First(met.fields, i)], met.fields[i])
      {
        assert IsAccountedFor(schema, met.variables, met.fields, i);
        PassedOverFitsExactlyWhen(schema, met.variables, met.fields, i);
      }
    }
  }

  // ---- Two such documents ----

  const PET: NamedType := NamedType(Interface, "Pet")
  const DOG: NamedType := NamedType(Object, "Dog")
  const CAT: NamedType := NamedType(Object, "Cat")
  const INT: Type := Named(Scalar, "Int")

  /** name(a: Int!): Int, where the argument may have a default. */
  function NameField(hasDefault: bool): FieldType {
    FieldType(INT, [Entry("a", Argument(hasDefault, hasDefault, Some(NonNull(Some(INT)))))])
  }

  const TYPENAME: FieldType := FieldType(NonNull(Some(Named(Scalar, "String"))), [])

  /**
   interface Pet { name(a: Int! = 1): Int }
   type Dog implements Pet { name(a: Int!): Int x: Int }
   type Cat implements Pet { name(a: Int! = 1): Int y: Int }
   type Query { pet: Pet }
   */
  const PET_SCHEMA: Schema := Schema(
    map["Query" := Object, "Pet" := Interface, "Dog" := Object, "Cat" := Object, "Int" := Scalar, "String" := Scalar],
    map["query" := NamedType(Object, "Query")],
    map["Query" := map["pet" := FieldType(Named(Interface, "Pet"), []), "__typename" := TYPENAME],
        "Pet" := map["name" := NameField(true), "__typename" := TYPENAME],
        "Dog" := map["name" := NameField(false), "x" := FieldType(INT, []), "__typename" := TYPENAME],
        "Cat" := map["name" := NameField(true), "y" := FieldType(INT, []), "__typename" := TYPENAME]],
    map["Query" := {"Query"}, "Pet" := {"Pet", "Dog", "Cat"}, "Dog" := {"Dog"}, "Cat" := {"Cat"}],
    map[],
    InputSchema(map[], map[], {"Int", "String"}))

  function Leaf(alias: string, name: string, arguments: seq<Entry<Literal>>): Selection {
    Field(alias, name, arguments, NoSelections, [])
  }

  function On(typeName: string, field: Selection): Selection {
    InlineFragment(typeName, [field], [])
  }

  function PetField(selections: seq<Selection>): Selection {
    Field("", "pet", [], Selections(selections), [])
  }

  /** { pet { ... } } */
  function PetDocument(selections: seq<Selection>): seq<Definition> {
    [OperationDefinition(Operation("query", "", [], [], [PetField(selections)]))]
  }

  /** What is left after a silent visit of a leaf field. */
  lemma LeafIsVisited(st: State, field: Selection)
    requires field.Field? && field.selectionSet.NoSelections? && st.scopedType.Some?
    requires IsSelectable(PET_SCHEMA, st, field)
    requires TypeInScope(PET_SCHEMA, st.scopedType.value, field.name) == Some(INT)
    ensures var after := Visit(PET_SCHEMA, map[], st, field);
            var name := ResponseName(field);
            after.errors == st.errors && after.fieldCount >= st.fieldCount &&
            (name in st.selectionFields ==> after.selectionFields == st.selectionFields) &&
            (name !in st.selectionFields ==>
               after.fieldCount > 0 &&
               after.selectionFields == st.selectionFields[name := Selected(st.scopedType.value, field, INT)])
  {
    PassedOverExactlyWhenMerged(PET_SCHEMA, st, field);
    VisitFieldIsQuietExactlyWhen(PET_SCHEMA, map[], st, field);
    EnteringKeeps(PET_SCHEMA, st, field);
    assert Innermost(Some(INT)) == Some(NamedType(Scalar, "Int"));
    LeafCounts(st, field);
  }

  lemma EnteringKeepsCount(schema: Schema, st: State, field: Selection)
    requires field.Field? && st.scopedType.Some?
    ensures EnterField(schema, st, field).state.fieldCount == st.fieldCount
  {
  }

  lemma LeafCounts(st: State, field: Selection)
    requires field.Field? && field.selectionSet.NoSelections? && st.scopedType.Some?
    ensures Visit(PET_SCHEMA, map[], st, field).fieldCount >= st.fieldCount
    ensures EnterField(PET_SCHEMA, st, field).Entered? && IsLeafKind(EnterField(PET_SCHEMA, st, field).inner.kind) ==>
            Visit(PET_SCHEMA, map[], st, field).fieldCount == st.fieldCount + 1
  {
    EnteringKeeps(PET_SCHEMA, st, field);
    EnteringKeepsCount(PET_SCHEMA, st, field);
    var step := EnterField(PET_SCHEMA, st, field);
    if step.Entered? {
      assert VisitField(PET_SCHEMA, map[], st, field) == LeaveField(step.state, field.name, step.inner, 0);
    } else {
      assert VisitField(PET_SCHEMA, map[], st, field) == step.state;
    }
  }

  /** A silent visit of the selections on Pet makes the document accepted. */
  lemma PetDocumentIsAccepted(st: State, selections: seq<Selection>)
    requires Ready(st) && WithoutVariables(st)
    requires forall inside: State |
               inside.scopedType == Some(PET) && inside.selectionFields == map[] && inside.fieldCount == 0 ::
               var after := VisitSelection(PET_SCHEMA, map[], inside, selections);
               after.errors == inside.errors && after.fieldCount > 0
    ensures Validate(PET_SCHEMA, st, PetDocument(selections)).errors == []
  {
    var document := PetDocument(selections);
    var operation := document[0].operation;
    var begun := st.(operationVariables := Some(map[]));
    NothingAdded(begun);
    assert BeginOperation(PET_SCHEMA, st, operation) == begun;
    var inside := EnterRoot(PET_SCHEMA, begun, operation);
    var pet := PetField(selections);
    PetIsQuiet(inside, selections);
    var visited := Visit(PET_SCHEMA, map[], inside, pet);
    assert operation.selections[1..] == [];
    assert VisitSelection(PET_SCHEMA, map[], visited, []) == visited;
    assert VisitSelection(PET_SCHEMA, map[], inside, operation.selections) == visited;
    var after := VisitDefinition(PET_SCHEMA, map[], st, document[0]);
    assert after.errors == visited.errors + UnusedVariables([], visited.referencedVariables);
    assert after.errors == st.errors;
    assert document[1..] == [] && VisitDefinitions(PET_SCHEMA, map[], after, []) == after;
    assert VisitDefinitions(PET_SCHEMA, map[], st, document) == after;
    PetDocumentCollects(selections);
    assert st.(errors := st.errors + []) == st;
    assert UnusedFragments([], after.referencedFragments) == [];
  }

  lemma PetDocumentCollects(selections: seq<Selection>)
    ensures FragmentsOf(PetDocument(selections)) == map[] && FragmentNames(PetDocument(selections)) == []
    ensures DefinitionErrors(PetDocument(selections)) == []
  {
    var document := PetDocument(selections);
    assert document[1..] == [];
    assert CollectFragments(document, map[]) == (map[], []);
    assert CollectNames(document, []) == CollectNames(document[1..], []) == [];
    var none: seq<Error> := [];
    assert none + none == none;
    assert document[0].OperationDefinition? && document[0].operation.name == "";
    assert CollectOperations(document[1..], {} + {""}) == ({} + {""}, []);
    assert CollectOperations(document, {}) == ({} + {""}, []);
  }

  lemma PetIsQuiet(st: State, selections: seq<Selection>)
    requires st.scopedType == Some(NamedType(Object, "Query")) && st.selectionFields == map[]
    requires forall inside: State |
               inside.scopedType == Some(PET) && inside.selectionFields == map[] && inside.fieldCount == 0 ::
               var after := VisitSelection(PET_SCHEMA, map[], inside, selections);
               after.errors == inside.errors && after.fieldCount > 0
    ensures Visit(PET_SCHEMA, map[], st, PetField(selections)).errors == st.errors
  {
    var field := PetField(selections);
    assert IsSelectable(PET_SCHEMA, st, field);
    PassedOverExactlyWhenMerged(PET_SCHEMA, st, field);
    EnteringKeeps(PET_SCHEMA, st, field);
    VisitFieldIsQuietExactlyWhen(PET_SCHEMA, map[], st, field);
    var step := EnterField(PET_SCHEMA, st, field);
    assert Innermost(Some(Named(Interface, "Pet"))) == Some(PET);
    var inside := Descend(step.state, step.inner);
    assert inside.scopedType == Some(PET);
  }

  // { pet { name ... on Dog { name } } }

  function NameSelections(): seq<Selection> {
    [Leaf("", "name", []), On("Dog", Leaf("", "name", []))]
  }

  /** An inline fragment with one leaf field is visited as the field on the type. */
  lemma InlineIsVisited(st: State, typeName: string, field: Selection)
    requires st.scopedType == Some(PET) && (typeName == "Dog" || typeName == "Cat")
    requires field.Field?
    ensures var inside := st.(scopedType := Some(NamedType(Object, typeName)));
            Visit(PET_SCHEMA, map[], st, On(typeName, field)) ==
            Visit(PET_SCHEMA, map[], inside, field).(scopedType := st.scopedType)
  {
    var inside := st.(scopedType := Some(NamedType(Object, typeName)));
    NothingAdded(st);
    assert PET_SCHEMA.matchingTypes["Pet"] * PET_SCHEMA.matchingTypes[typeName] == {typeName};
    assert [field][1..] == [];
    var visited := Visit(PET_SCHEMA, map[], inside, field);
    assert VisitSelection(PET_SCHEMA, map[], visited, []) == visited;
    assert VisitSelection(PET_SCHEMA, map[], inside, [field]) == visited;
    assert InlineScope(PET_SCHEMA, st, typeName) == NamedType(Object, typeName);
  }

  /** Two selections are visited one after the other. */
  lemma TwoAreVisited(st: State, first: Selection, second: Selection)
    requires st.scopedType.Some?
    ensures VisitSelection(PET_SCHEMA, map[], st, [first, second]) ==
            Visit(PET_SCHEMA, map[], Visit(PET_SCHEMA, map[], st, first), second)
  {
    var after := Visit(PET_SCHEMA, map[], st, first);
    var last := Visit(PET_SCHEMA, map[], after, second);
    assert [first, second][1..] == [second] && [second][1..] == [];
    assert VisitSelection(PET_SCHEMA, map[], last, []) == last;
    assert VisitSelection(PET_SCHEMA, map[], after, [second]) == last;
  }

  lemma NameFitsPetOnly(variables: Option<Variables>)
    ensures Fits(PET_SCHEMA, variables, FieldInScope(PET, Leaf("", "name", [])))
    ensures !Fits(PET_SCHEMA, variables, FieldInScope(DOG, Leaf("", "name", [])))
  {
    assert Lookup<Literal>([], "a") == None;
    var declared := PET_SCHEMA.typeFields["Dog"]["name"].arguments;
    assert !ArgumentFits(PET_SCHEMA.inputs, variables, declared[0].value, Lookup([], declared[0].name));
  }

  lemma NameSelectionsAreQuiet(st: State)
    requires st.scopedType == Some(PET) && st.selectionFields == map[] && st.fieldCount == 0
    ensures var after := VisitSelection(PET_SCHEMA, map[], st, NameSelections());
            after.errors == st.errors && after.fieldCount > 0
  {
    var field := Leaf("", "name", []);
    NameFitsPetOnly(st.operationVariables);
    assert IsSelectable(PET_SCHEMA, st, field);
    LeafIsVisited(st, field);
    var after := Visit(PET_SCHEMA, map[], st, field);
    var onDog := after.(scopedType := Some(DOG));
    assert IsSelectable(PET_SCHEMA, onDog, field);
    LeafIsVisited(onDog, field);
    InlineIsVisited(after, "Dog", field);
    TwoAreVisited(st, field, On("Dog", field));
  }

  /** The accepted document leaves out a required argument on Dog, which is never checked. */
  lemma MissingArgumentIsPassedOver(st: State)
    requires Ready(st) && WithoutVariables(st)
    ensures Validate(PET_SCHEMA, st, PetDocument(NameSelections())).errors == []
    ensures exists met :: met in SetsOfDocument(PET_SCHEMA, st, PetDocument(NameSelections())) &&
              IsUnfitRepetition(met) && !OnOtherObject(met.fields[0].scope, met.fields[1].scope)
  {
    forall inside: State |
      inside.scopedType == Some(PET) && inside.selectionFields == map[] && inside.fieldCount == 0
      ensures var after := VisitSelection(PET_SCHEMA, map[], inside, NameSelections());
              after.errors == inside.errors && after.fieldCount > 0
    {
      NameSelectionsAreQuiet(inside);
    }
    PetDocumentIsAccepted(st, NameSelections());
    PetSetIsVisited(st, NameSelections());
    NameFitsPetOnly(Some(map[]));
    var met := NameFieldsMet();
    assert IsUnfitRepetition(MetSet(Some(map[]), met));
  }

  lemma NameFieldsMet() returns (met: seq<Met>)
    ensures met == FieldsMet(PET_SCHEMA, map[], {}, PET, NameSelections())
    ensures met == [FieldInScope(PET, Leaf("", "name", [])), FieldInScope(DOG, Leaf("", "name", []))]
  {
    met := FieldsMet(PET_SCHEMA, map[], {}, PET, NameSelections());
    var field := Leaf("", "name", []);
    assert NameSelections()[1..] == [On("Dog", field)];
    OnIsMet("Dog", field);
    assert FieldsMetInOne(PET_SCHEMA, map[], {}, PET, field) == [FieldInScope(PET, field)];
  }

  lemma OnIsMet(typeName: string, field: Selection)
    requires field.Field? && (typeName == "Dog" || typeName == "Cat")
    ensures FieldsMetInOne(PET_SCHEMA, map[], {}, PET, On(typeName, field)) ==
            [FieldInScope(NamedType(Object, typeName), field)]
    ensures FieldsMet(PET_SCHEMA, map[], {}, PET, [On(typeName, field)]) ==
            [FieldInScope(NamedType(Object, typeName), field)]
  {
    var scope := NamedType(Object, typeName);
    assert TargetScope(PET_SCHEMA, PET, typeName) == scope;
    assert [field][1..] == [] && FieldsMetInOne(PET_SCHEMA, map[], {}, scope, field) == [FieldInScope(scope, field)];
    assert FieldsMet(PET_SCHEMA, map[], {}, scope, [field]) == [FieldInScope(scope, field)];
    assert [On(typeName, field)][1..] == [];
  }

  /** The second field repeats the first, and its arguments do not fit where it stands. */
  predicate IsUnfitRepetition(met: MetSet) {
    && |met.fields| == 2 && First(met.fields, 1) == 0
    && Fits(PET_SCHEMA, met.variables, met.fields[0])
    && !Fits(PET_SCHEMA, met.variables, met.fields[1])
  }

  lemma PetSetIsVisited(st: State, selections: seq<Selection>)
    requires Ready(st) && WithoutVariables(st)
    ensures MetSet(Some(map[]), FieldsMet(PET_SCHEMA, map[], {}, PET, selections)) in
              SetsOfDocument(PET_SCHEMA, st, PetDocument(selections))
  {
    var document, root := PetDocument(selections), NamedType(Object, "Query");
    var met := FieldsMet(PET_SCHEMA, map[], {}, PET, selections);
    PetDocumentCollects(selections);
    assert st.(errors := st.errors + []) == st;
    var below := SetsMet(PET_SCHEMA, map[], {}, PET, selections);
    assert below[0] == met;
    assert TypeInScope(PET_SCHEMA, root, "pet") == Some(Named(Interface, "Pet"));
    assert Innermost(Some(Named(Interface, "Pet"))) == Some(PET);
    assert SetsBelowOne(PET_SCHEMA, map[], {}, root, {}, PetField(selections)) == below;
    assert [PetField(selections)][1..] == [];
    assert SetsBelow(PET_SCHEMA, map[], {}, root, {}, [PetField(selections)]) == below + [];
    var sets := SetsMet(PET_SCHEMA, map[], {}, root, [PetField(selections)]);
    assert sets[1] == met;
    var begun := st.(operationVariables := Some(map[]));
    NothingAdded(begun);
    assert BeginOperation(PET_SCHEMA, st, document[0].operation) == begun;
    var all := WithVariables(Some(map[]), sets);
    assert all[1] == MetSet(Some(map[]), met);
    assert SetsOfDefinition(PET_SCHEMA, map[], st, document[0]) == all;
  }

  // { pet { ... on Dog { v: x } ... on Cat { v: y(undeclared: 1) } } }

  function AliasSelections(): seq<Selection> {
    [On("Dog", Leaf("v", "x", [])), On("Cat", Leaf("v", "y", [Entry("undeclared", Literal.IntValue(1))]))]
  }

  lemma UndeclaredDoesNotFit(variables: Option<Variables>)
    ensures Fits(PET_SCHEMA, variables, FieldInScope(DOG, Leaf("v", "x", [])))
    ensures var onCat := Leaf("v", "y", [Entry("undeclared", Literal.IntValue(1))]);
            !Fits(PET_SCHEMA, variables, FieldInScope(CAT, onCat)) && NothingRepeated(onCat.arguments)
  {
    var onCat := Leaf("v", "y", [Entry("undeclared", Literal.IntValue(1))]);
    assert onCat.arguments[0].name == "undeclared" && !HasName<Argument>([], "undeclared");
    assert forall argument | argument in onCat.arguments :: argument == onCat.arguments[0];
  }

  lemma AliasSelectionsAreQuiet(st: State)
    requires st.scopedType == Some(PET) && st.selectionFields == map[] && st.fieldCount == 0
    ensures var after := VisitSelection(PET_SCHEMA, map[], st, AliasSelections());
            after.errors == st.errors && after.fieldCount > 0
  {
    var first, second := Leaf("v", "x", []), Leaf("v", "y", [Entry("undeclared", Literal.IntValue(1))]);
    UndeclaredDoesNotFit(st.operationVariables);
    var onDog := st.(scopedType := Some(DOG));
    assert IsSelectable(PET_SCHEMA, onDog, first);
    LeafIsVisited(onDog, first);
    InlineIsVisited(st, "Dog", first);
    var after := Visit(PET_SCHEMA, map[], st, On("Dog", first));
    var onCat := after.(scopedType := Some(CAT));
    assert Earlier(onCat, second) == Selected(DOG, first, INT);
    assert IsSelectable(PET_SCHEMA, onCat, second);
    LeafIsVisited(onCat, second);
    InlineIsVisited(after, "Cat", second);
    TwoAreVisited(st, On("Dog", first), On("Cat", second));
  }

  /** The accepted document gives an argument on Cat that nobody declares. */
  lemma UndeclaredArgumentIsPassedOver(st: State)
    requires Ready(st) && WithoutVariables(st)
    ensures Validate(PET_SCHEMA, st, PetDocument(AliasSelections())).errors == []
    ensures exists met :: met in SetsOfDocument(PET_SCHEMA, st, PetDocument(AliasSelections())) &&
              IsUnfitRepetition(met) && OnOtherObject(met.fields[0].scope, met.fields[1].scope)
  {
    forall inside: State |
      inside.scopedType == Some(PET) && inside.selectionFields == map[] && inside.fieldCount == 0
      ensures var after := VisitSelection(PET_SCHEMA, map[], inside, AliasSelections());
              after.errors == inside.errors && after.fieldCount > 0
    {
      AliasSelectionsAreQuiet(inside);
    }
    PetDocumentIsAccepted(st, AliasSelections());
    PetSetIsVisited(st, AliasSelections());
    UndeclaredDoesNotFit(Some(map[]));
    var met := AliasFieldsMet();
    assert IsUnfitRepetition(MetSet(Some(map[]), met));
  }

  lemma AliasFieldsMet() returns (met: seq<Met>)
    ensures met == FieldsMet(PET_SCHEMA, map[], {}, PET, AliasSelections())
    ensures met == [
      FieldInScope(DOG, Leaf("v", "x", [])),
      FieldInScope(CAT, Leaf("v", "y", [Entry("undeclared", Literal.IntValue(1))]))]
  {
    met := FieldsMet(PET_SCHEMA, map[], {}, PET, AliasSelections());
    var first, second := Leaf("v", "x", []), Leaf("v", "y", [Entry("undeclared", Literal.IntValue(1))]);
    assert AliasSelections()[1..] == [On("Cat", second)];
    OnIsMet("Dog", first);
    OnIsMet("Cat", second);
  }
}
