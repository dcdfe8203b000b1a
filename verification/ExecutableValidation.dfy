/**
 What ValidateExecutableVisitor does to its state: the recursive walk over selection sets
 that follows fragment spreads into their definitions.
 */
module ExecutableValidation {
  import opened Common
  import opened GraphQLTypes
  import opened InputValues
  import opened SortedContainers
  import opened TypeModifiers

  // ---- Documents ----

  /** The literals of a document may still repeat the fields of an object. */
  datatype Directive = Directive(name: string, arguments: seq<Entry<Literal>>)

  datatype Selection =
    | Field(
        alias: string, name: string, arguments: seq<Entry<Literal>>, selectionSet: SelectionSet,
        directives: seq<Directive>)
    | FragmentSpread(name: string, directives: seq<Directive>)
    | InlineFragment(typeCondition: string, selections: seq<Selection>, directives: seq<Directive>)

  datatype SelectionSet = NoSelections | Selections(selections: seq<Selection>)

  datatype Fragment = Fragment(
    name: string, typeCondition: string, selections: seq<Selection>, directives: seq<Directive>)

  datatype VariableDefinition = VariableDefinition(name: string, tree: TypeTree, defaultValue: Option<Literal>)

  datatype Operation = Operation(
    kind: string, name: string, variables: seq<VariableDefinition>, directives: seq<Directive>,
    selections: seq<Selection>)

  datatype Definition =
    | FragmentDefinition(fragment: Fragment)
    | OperationDefinition(operation: Operation)
    | TypeDefinition

  type Fragments = map<string, Fragment>

  // ---- What the visitor keeps of the schema ----

  datatype NamedType = NamedType(kind: Kind, name: string)

  datatype FieldType = FieldType(returnType: Type, arguments: Arguments)

  datatype Location =
    | QueryLocation
    | MutationLocation
    | SubscriptionLocation
    | FieldLocation
    | FragmentDefinitionLocation
    | FragmentSpreadLocation
    | InlineFragmentLocation

  datatype DirectiveRule = DirectiveRule(isRepeatable: bool, locations: set<Location>, arguments: Arguments)

  datatype Schema = Schema(
    types: map<string, Kind>,
    operationTypes: map<string, NamedType>,
    typeFields: map<string, map<string, FieldType>>,
    matchingTypes: map<string, set<string>>,
    directives: map<string, DirectiveRule>,
    inputs: InputSchema)

  // ---- What the visitor reports ----

  /** Whose arguments an error is about. */
  datatype Owner = OfField(field: string) | OfDirective(directive: string)

  datatype Error =
    | DuplicateFragment(name: string)
    | DuplicateOperation(name: string)
    | AnonymousOperationNotAlone
    | UnexpectedTypeDefinition
    | UnusedFragment(name: string)
    | InvalidFragmentTarget(name: string, typeCondition: string)
    | UnsupportedOperation(kind: string)
    | SeveralRootFields(name: string)
    | IntrospectionRootField(name: string)
    | ConflictingVariable(operation: string, name: string)
    | InvalidVariableType(operation: string, name: string)
    | IncompatibleVariableDefault(operation: string, name: string)
    | UnusedVariable(name: string)
    | UndefinedDirective(name: string)
    | ConflictingDirective(name: string)
    | UnexpectedLocation(name: string)
    | FieldOnScalar(typeName: string, name: string)
    | FieldOnUnion(typeName: string, name: string)
    | UndefinedField(typeName: string, name: string)
    | ConflictingField(typeName: string, name: string)
    | ConflictingInputField(name: string)
    | ConflictingArgument(owner: Owner, name: string)
    | UndefinedArgument(owner: Owner, name: string)
    | InvalidValue(input: InputError)
    | IncompatibleArgument(owner: Owner, name: string)
    | MissingArgument(owner: Owner, name: string)
    | RequiredNonNullArgument(owner: Owner, name: string)
    | MissingSelectionSet(typeName: string)
    | UndefinedFragment(name: string)
    | CyclicFragment(name: string)
    | IncompatibleSpread(typeCondition: string, name: string)
    | UndefinedInlineTarget(typeCondition: string)
    | ScalarInlineTarget(typeCondition: string)
    | IncompatibleInlineTarget(typeCondition: string)

  /** One field already selected under a response name, kept to detect conflicts. */
  datatype ValidatedField = ValidatedField(
    returnType: Type,
    objectType: Option<NamedType>,
    fieldName: string,
    arguments: map<string, Literal>)

  /** ValidateField::operator==: fields of two different object types never conflict. */
  predicate Mergeable(left: ValidatedField, right: ValidatedField) {
    && left.returnType == right.returnType
    && ((left.objectType.Some? && right.objectType.Some? && left.objectType != right.objectType) ||
        (left.fieldName == right.fieldName && left.arguments == right.arguments))
  }

  /** variableDefinitions holds the names of the operation's variables in the order of a map. */
  datatype State = State(
    errors: seq<Error>,
    fragmentCycles: set<string>,
    referencedFragments: set<string>,
    fragmentStack: set<string>,
    scopedType: Option<NamedType>,
    selectionFields: map<string, ValidatedField>,
    fieldCount: nat,
    introspectionFieldCount: nat,
    operationVariables: Option<Variables>,
    variableDefinitions: seq<string>,
    referencedVariables: set<string>)
  {
    function Report(error: Error): State {
      this.(errors := errors + [error])
    }

    function Add(findings: Findings): State {
      this.(errors := errors + findings.errors, referencedVariables := referencedVariables + findings.marked)
    }
  }

  /** What checking values adds to the state. */
  datatype Findings = Findings(errors: seq<Error>, marked: set<string>)
  {
    function Then(later: Findings): Findings {
      Findings(errors + later.errors, marked + later.marked)
    }
  }

  const NOTHING: Findings := Findings([], {})

  lemma NothingAdded(st: State)
    ensures st.Add(NOTHING) == st
  {
    assert st.errors + [] == st.errors && st.referencedVariables + {} == st.referencedVariables;
  }

  // ---- Values and arguments ----

  function RepeatedFields(names: seq<string>): (errors: seq<Error>)
    ensures |errors| == |names|
  {
    seq(|names|, i requires 0 <= i < |names| => ConflictingInputField(names[i]))
  }

  /** The errors of validateInputValue, none or one. */
  function Reported(error: Option<InputError>): seq<Error> {
    if error.None? then [] else [InvalidValue(error.value)]
  }

  function ValueFindings(
    inputs: InputSchema, variables: Option<Variables>, hasNonNullDefault: bool, v: Literal, t: Option<Type>): Findings
  {
    Findings(Reported(Check(inputs, variables, hasNonNullDefault, v, t)), Marked(inputs, variables, v, t))
  }

  /** The arguments by name, the first of each name, their names in order and the errors on the way. */
  datatype Collected = Collected(given: map<string, Literal>, names: seq<string>, errors: seq<Error>)

  function CollectArguments(owner: Owner, arguments: seq<Entry<Literal>>, found: map<string, Literal>): Collected {
    if arguments == [] then Collected(found, [], [])
    else
      var name := arguments[0].name;
      if name in found then
        var rest := CollectArguments(owner, arguments[1..], found);
        rest.(errors := [ConflictingArgument(owner, name)] + rest.errors)
      else
        var reading := Read(arguments[0].value);
        var rest := CollectArguments(owner, arguments[1..], found[name := reading.value]);
        rest.(names := [name] + rest.names, errors := RepeatedFields(reading.repeated) + rest.errors)
  }

  function UndefinedArguments(owner: Owner, names: seq<string>, declared: Arguments): seq<Error> {
    if names == [] then []
    else
      (if HasName(declared, names[0]) then [] else [UndefinedArgument(owner, names[0])]) +
      UndefinedArguments(owner, names[1..], declared)
  }

  /** The checks of one declared argument. */
  function ArgumentFindings(
    inputs: InputSchema, variables: Option<Variables>, owner: Owner, declared: Entry<Argument>,
    given: map<string, Literal>): Findings
  {
    var name, argument := declared.name, declared.value;
    if name in given && !given[name].Null? then
      var value := ValueFindings(inputs, variables, argument.nonNullDefaultValue, given[name], argument.ofType);
      if value.errors == [] then value else value.(errors := value.errors + [IncompatibleArgument(owner, name)])
    else if argument.defaultValue then NOTHING
    else if argument.ofType.Some? && argument.ofType.value.NonNull? then
      Findings([if name in given then RequiredNonNullArgument(owner, name) else MissingArgument(owner, name)], {})
    else NOTHING
  }

  function AllArgumentFindings(
    inputs: InputSchema, variables: Option<Variables>, owner: Owner, declared: Arguments, given: map<string, Literal>)
    : Findings
  {
    if declared == [] then NOTHING
    else
      ArgumentFindings(inputs, variables, owner, declared[0], given)
        .Then(AllArgumentFindings(inputs, variables, owner, declared[1..], given))
  }

  // ---- Directives ----

  /** A directive without arguments is not checked for required ones. */
  function DirectiveFindings(
    schema: Schema, variables: Option<Variables>, location: Location, directive: Directive, repeated: bool): Findings
  {
    if directive.name !in schema.directives then Findings([UndefinedDirective(directive.name)], {})
    else if repeated then Findings([ConflictingDirective(directive.name)], {})
    else
      var rule := schema.directives[directive.name];
      if location !in rule.locations then Findings([UnexpectedLocation(directive.name)], {})
      else if directive.arguments == [] then NOTHING
      else
        var owner := OfDirective(directive.name);
        var collected := CollectArguments(owner, directive.arguments, map[]);
        Findings(collected.errors + UndefinedArguments(owner, collected.names, rule.arguments), {})
          .Then(AllArgumentFindings(schema.inputs, variables, owner, rule.arguments, collected.given))
  }

  predicate IsUnique(schema: Schema, name: string) {
    name in schema.directives && !schema.directives[name].isRepeatable
  }

  function AllDirectiveFindings(
    schema: Schema, variables: Option<Variables>, location: Location, directives: seq<Directive>, seen: set<string>)
    : Findings
  {
    if directives == [] then NOTHING
    else
      var name := directives[0].name;
      DirectiveFindings(schema, variables, location, directives[0], IsUnique(schema, name) && name in seen)
        .Then(AllDirectiveFindings(schema, variables, location, directives[1..], seen + {name}))
  }

  function WithDirectives(schema: Schema, st: State, location: Location, directives: seq<Directive>): State {
    st.Add(AllDirectiveFindings(schema, st.operationVariables, location, directives, {}))
  }

  // ---- Fields ----

  function Innermost(t: Option<Type>): Option<NamedType> {
    if t.None? then None
    else
      match t.value
      case Named(kind, name) => if name != "" then Some(NamedType(kind, name)) else None
      case List(of) => Innermost(of)
      case NonNull(of) => Innermost(of)
  }

  function ResponseName(field: Selection): string
    requires field.Field?
  {
    if field.alias == "" then field.name else field.alias
  }

  datatype FieldStep = Done(state: State) | Entered(state: State, inner: NamedType)

  /** visitField up to the point where it descends; Done when it returns before that. */
  function EnterField(schema: Schema, st: State, field: Selection): FieldStep
    requires field.Field? && st.scopedType.Some?
  {
    EnterInScope(schema, WithDirectives(schema, st, FieldLocation, field.directives), field)
  }

  function EnterInScope(schema: Schema, st: State, field: Selection): FieldStep
    requires field.Field? && st.scopedType.Some?
  {
    var scope := st.scopedType.value;
    if IsLeafKind(scope.kind) || scope.name !in schema.typeFields then
      Done(st.Report(FieldOnScalar(scope.name, field.name)))
    else
      var fields := schema.typeFields[scope.name];
      if scope.kind == Union && field.name != "__typename" then
        Done(st.Report(FieldOnUnion(scope.name, field.name)))
      else
        var wrapped :=
          if scope.kind == Union then Some(NonNull(Some(Named(Scalar, "String"))))
          else if field.name in fields then Some(fields[field.name].returnType)
          else None;
        var inner := Innermost(wrapped);
        if inner.None? then Done(st.Report(Error.UndefinedField(scope.name, field.name)))
        else SelectField(schema, st, field, wrapped.value, inner.value)
  }

  /** The part of visitField that merges the field with earlier ones and checks its arguments. */
  function SelectField(schema: Schema, st: State, field: Selection, wrapped: Type, inner: NamedType): FieldStep
    requires field.Field? && st.scopedType.Some? && st.scopedType.value.name in schema.typeFields
  {
    var scope := st.scopedType.value;
    var fields := schema.typeFields[scope.name];
    var alias := ResponseName(field);
    var owner := OfField(field.name);
    var collected := CollectArguments(owner, field.arguments, map[]);
    var st1 := st.(errors := st.errors + collected.errors);
    var objectType := if scope.kind == Object then Some(scope) else None;
    var validated := ValidatedField(wrapped, objectType, field.name, collected.given);
    if alias in st1.selectionFields && Mergeable(st1.selectionFields[alias], validated) then Done(st1)
    else
      var st2 := if alias in st1.selectionFields then st1.Report(ConflictingField(scope.name, field.name)) else st1;
      var st3 :=
        if field.name in fields then
          st2.Add(
            FieldArgumentFindings(
              schema, st2.operationVariables, field.name, fields[field.name].arguments, collected))
        else st2;
      var st4 :=
        if alias in st3.selectionFields then st3
        else st3.(selectionFields := st3.selectionFields[alias := validated]);
      Entered(st4, inner)
  }

  function FieldArgumentFindings(
    schema: Schema, variables: Option<Variables>, name: string, declared: Arguments, collected: Collected): Findings
  {
    Findings(UndefinedArguments(OfField(name), collected.names, declared), {})
      .Then(AllArgumentFindings(schema.inputs, variables, OfField(name), declared, collected.given))
  }

  predicate IsIntrospectionName(name: string) {
    |name| >= 2 && name[0] == '_' && name[1] == '_'
  }

  lemma IntrospectionNamesStartWithTwoUnderscores(name: string)
    ensures IsIntrospectionName(name) <==> exists rest :: name == "__" + rest
  {
    if IsIntrospectionName(name) {
      assert name == "__" + name[2..];
    }
  }

  /** visitField after the sub-selection was visited and the outer selection restored. */
  function LeaveField(st: State, name: string, inner: NamedType, subFieldCount: nat): State {
    if subFieldCount == 0 && !IsLeafKind(inner.kind) then st.Report(MissingSelectionSet(inner.name))
    else
      st.(
        fieldCount := st.fieldCount + 1,
        introspectionFieldCount := st.introspectionFieldCount + (if IsIntrospectionName(name) then 1 else 0))
  }

  lemma EnteringKeeps(schema: Schema, st: State, field: Selection)
    requires field.Field? && st.scopedType.Some?
    ensures Kept(st, EnterField(schema, st, field).state)
    ensures EnterField(schema, st, field).state.referencedFragments == st.referencedFragments
    ensures EnterField(schema, st, field).state.fragmentCycles == st.fragmentCycles
  {
  }

  // ---- The recursive walk ----

  predicate MatchesScopedType(schema: Schema, scope: NamedType, name: string) {
    || name == scope.name
    || (&& scope.name in schema.matchingTypes && name in schema.matchingTypes
        && schema.matchingTypes[scope.name] * schema.matchingTypes[name] != {})
  }

  /**
   What every visit keeps: the fragment stack, the scope and the variables are as before,
   errors and sets only grow, and a cycle is never recorded without an error.
   */
  predicate Kept(before: State, after: State) {
    && after.fragmentStack == before.fragmentStack
    && after.scopedType == before.scopedType
    && after.operationVariables == before.operationVariables
    && after.variableDefinitions == before.variableDefinitions
    && before.referencedVariables <= after.referencedVariables
    && before.errors <= after.errors
    && before.fragmentCycles <= after.fragmentCycles
    && before.referencedFragments <= after.referencedFragments
    && (after.errors == before.errors ==> after.fragmentCycles == before.fragmentCycles)
  }

  function VisitSelection(schema: Schema, fragments: Fragments, st: State, selections: seq<Selection>): (after: State)
    requires st.scopedType.Some?
    ensures Kept(st, after)
    decreases fragments.Keys - st.fragmentStack, selections, 0
  {
    if selections == [] then st
    else
      var first := Visit(schema, fragments, st, selections[0]);
      VisitSelection(schema, fragments, first, selections[1..])
  }

  function Visit(schema: Schema, fragments: Fragments, st: State, selection: Selection): (after: State)
    requires st.scopedType.Some?
    ensures Kept(st, after)
    decreases fragments.Keys - st.fragmentStack, selection, 2
  {
    match selection
    case Field(_, _, _, _, _) => VisitField(schema, fragments, st, selection)
    case FragmentSpread(_, _) => VisitFragmentSpread(schema, fragments, st, selection)
    case InlineFragment(_, _, _) => VisitInlineFragment(schema, fragments, st, selection)
  }

  function VisitField(schema: Schema, fragments: Fragments, st: State, field: Selection): (after: State)
    requires st.scopedType.Some? && field.Field?
    ensures Kept(st, after)
    decreases fragments.Keys - st.fragmentStack, field, 1
  {
    EnteringKeeps(schema, st, field);
    match EnterField(schema, st, field)
    case Done(after) => after
    case Entered(inside, inner) => VisitSubSelection(schema, fragments, inside, inner, field)
  }

  function VisitSubSelection(
    schema: Schema, fragments: Fragments, st: State, inner: NamedType, field: Selection): (after: State)
    requires st.scopedType.Some? && field.Field?
    ensures Kept(st, after)
    decreases fragments.Keys - st.fragmentStack, field, 0
  {
    if field.selectionSet.NoSelections? then LeaveField(st, field.name, inner, 0)
    else
      var sub := VisitSelection(schema, fragments, Descend(st, inner), field.selectionSet.selections);
      LeaveField(Ascend(st, sub), field.name, inner, sub.fieldCount)
  }

  function Descend(outer: State, inner: NamedType): State {
    outer.(scopedType := Some(inner), selectionFields := map[], fieldCount := 0, introspectionFieldCount := 0)
  }

  function Ascend(outer: State, sub: State): State {
    sub.(
      scopedType := outer.scopedType,
      selectionFields := outer.selectionFields,
      fieldCount := outer.fieldCount,
      introspectionFieldCount := outer.introspectionFieldCount)
  }

  function VisitFragmentSpread(schema: Schema, fragments: Fragments, before: State, spread: Selection): (after: State)
    requires before.scopedType.Some? && spread.FragmentSpread?
    ensures Kept(before, after)
    decreases fragments.Keys - before.fragmentStack, spread, 0
  {
    var st := WithDirectives(schema, before, FragmentSpreadLocation, spread.directives);
    var name := spread.name;
    if name !in fragments then st.Report(UndefinedFragment(name))
    else if name in st.fragmentStack then
      if name in st.fragmentCycles then st
      else st.(fragmentCycles := st.fragmentCycles + {name}).Report(CyclicFragment(name))
    else
      var fragment := fragments[name];
      if fragment.typeCondition !in schema.types ||
         !MatchesScopedType(schema, st.scopedType.value, fragment.typeCondition) then
        st.Report(IncompatibleSpread(fragment.typeCondition, name))
      else
        assert fragments.Keys - (st.fragmentStack + {name}) < fragments.Keys - st.fragmentStack by {
          assert name in fragments.Keys - st.fragmentStack;
        }
        var sub := VisitSelection(schema, fragments, EnterFragment(schema, st, fragment, name), fragment.selections);
        sub.(
          scopedType := st.scopedType,
          fragmentStack := sub.fragmentStack - {name},
          referencedFragments := sub.referencedFragments + {name})
  }

  /** The fragment goes on the stack and its type condition becomes the scope. */
  function EnterFragment(schema: Schema, st: State, fragment: Fragment, name: string): State
    requires fragment.typeCondition in schema.types
  {
    st.(
      fragmentStack := st.fragmentStack + {name},
      scopedType := Some(NamedType(schema.types[fragment.typeCondition], fragment.typeCondition)))
  }

  function VisitInlineFragment(schema: Schema, fragments: Fragments, before: State, inline: Selection): (after: State)
    requires before.scopedType.Some? && inline.InlineFragment?
    ensures Kept(before, after)
    decreases fragments.Keys - before.fragmentStack, inline, 0
  {
    var st := WithDirectives(schema, before, InlineFragmentLocation, inline.directives);
    var typeCondition := inline.typeCondition;
    if typeCondition != "" && typeCondition !in schema.types then st.Report(UndefinedInlineTarget(typeCondition))
    else
      var scope := InlineScope(schema, st, typeCondition);
      if typeCondition != "" && IsLeafKind(scope.kind) then st.Report(ScalarInlineTarget(typeCondition))
      else if typeCondition != "" && !MatchesScopedType(schema, st.scopedType.value, typeCondition) then
        st.Report(IncompatibleInlineTarget(typeCondition))
      else
        var sub := VisitSelection(schema, fragments, st.(scopedType := Some(scope)), inline.selections);
        sub.(scopedType := st.scopedType)
  }

  /** Without a type condition an inline fragment stays in the scope around it. */
  function InlineScope(schema: Schema, st: State, typeCondition: string): NamedType
    requires st.scopedType.Some? && (typeCondition != "" ==> typeCondition in schema.types)
  {
    if typeCondition == "" then st.scopedType.value else NamedType(schema.types[typeCondition], typeCondition)
  }

  // ---- Definitions ----

  function VisitFragmentDefinition(schema: Schema, fragments: Fragments, before: State, fragment: Fragment): State {
    var st := WithDirectives(schema, before, FragmentDefinitionLocation, fragment.directives);
    if fragment.typeCondition !in schema.types || IsLeafKind(schema.types[fragment.typeCondition]) then
      st.Report(InvalidFragmentTarget(fragment.name, fragment.typeCondition))
    else
      var inside := EnterFragment(schema, st, fragment, fragment.name);
      LeaveDefinition(VisitSelection(schema, fragments, inside, fragment.selections))
  }

  function LeaveDefinition(st: State): State {
    st.(scopedType := None, fragmentStack := {}, selectionFields := map[])
  }

  // ---- Variables ----

  /** The type a variable is declared with; None unless it is an input type under its wrappers. */
  function VariableType(schema: Schema, tree: TypeTree): Option<Type> {
    match tree
    case NamedTree(name) =>
      if name in schema.types && IsInputKind(schema.types[name]) then Some(Named(schema.types[name], name)) else None
    case ListOf(of) =>
      var inner := VariableType(schema, of);
      if inner.None? then None else Some(List(inner))
    case NonNullOf(of) =>
      var inner := VariableType(schema, of);
      if inner.None? then None else Some(NonNull(inner))
  }

  /** A type in the notation of documents. */
  function Written(t: Type): string {
    match t
    case Named(_, name) => name
    case List(of) => if of.None? then "[]" else "[" + Written(of.value) + "]"
    case NonNull(of) => if of.None? then "!" else Written(of.value) + "!"
  }

  function WrittenTree(tree: TypeTree): string {
    match tree
    case NamedTree(name) => name
    case ListOf(of) => "[" + WrittenTree(of) + "]"
    case NonNullOf(of) => WrittenTree(of) + "!"
  }

  /** A variable has the type it is written with exactly when that ends in a defined input type. */
  lemma {:induction false} VariableTypeIsAsWritten(schema: Schema, tree: TypeTree)
    ensures VariableType(schema, tree).Some? <==>
            NameOf(tree) in schema.types && schema.types[NameOf(tree)] in {Scalar, Enum, InputObject}
    ensures VariableType(schema, tree).Some? ==>
              Written(VariableType(schema, tree).value) == WrittenTree(tree) &&
              Innermost(VariableType(schema, tree)) ==
                (if NameOf(tree) == "" then None else Some(NamedType(schema.types[NameOf(tree)], NameOf(tree))))
  {
    match tree
    case NamedTree(name) => if name in schema.types { LeafKindsAreInputKinds(schema.types[name]); }
    case ListOf(of) => VariableTypeIsAsWritten(schema, of);
    case NonNullOf(of) => VariableTypeIsAsWritten(schema, of);
  }

  /** A variable is defined unless one of its checks fails; its default may use the variables before it. */
  function DefineVariable(schema: Schema, st: State, operation: string, v: VariableDefinition): (after: State)
    requires st.operationVariables.Some?
    ensures after.operationVariables.Some?
  {
    var variables := st.operationVariables.value;
    var ofType := VariableType(schema, v.tree);
    if v.name in variables then st.Report(ConflictingVariable(operation, v.name))
    else if ofType.None? then st.Report(InvalidVariableType(operation, v.name))
    else if v.defaultValue.None? then AddVariable(st, v.name, Argument(false, false, ofType))
    else
      var reading := Read(v.defaultValue.value);
      var value := ValueFindings(schema.inputs, Some(variables), false, reading.value, ofType);
      var st1 := st.Add(Findings(RepeatedFields(reading.repeated), {}).Then(value));
      if value.errors != [] then st1.Report(IncompatibleVariableDefault(operation, v.name))
      else AddVariable(st1, v.name, Argument(true, !reading.value.Null?, ofType))
  }

  function AddVariable(st: State, name: string, argument: Argument): State
    requires st.operationVariables.Some?
  {
    st.(
      operationVariables := Some(st.operationVariables.value[name := argument]),
      variableDefinitions := SetEmplace(ShorterOrLess, st.variableDefinitions, name))
  }

  function DefineVariables(schema: Schema, st: State, operation: string, variables: seq<VariableDefinition>)
    : (after: State)
    requires st.operationVariables.Some?
    ensures after.operationVariables.Some?
    decreases variables
  {
    if variables == [] then st
    else DefineVariables(schema, DefineVariable(schema, st, operation, variables[0]), operation, variables[1..])
  }

  function UnusedVariables(defined: seq<string>, referenced: set<string>): seq<Error> {
    if defined == [] then []
    else
      (if defined[0] in referenced then [] else [UnusedVariable(defined[0])]) +
      UnusedVariables(defined[1..], referenced)
  }

  // ---- Operations ----

  function OperationLocation(kind: string): Location {
    if kind == "mutation" then MutationLocation
    else if kind == "subscription" then SubscriptionLocation
    else QueryLocation
  }

  /** Up to the test of its type: variables and directives. */
  function BeginOperation(schema: Schema, st: State, operation: Operation): State {
    var started := st.(operationVariables := Some(map[]));
    WithDirectives(
      schema, DefineVariables(schema, started, operation.name, operation.variables),
      OperationLocation(operation.kind), operation.directives)
  }

  /** An unsupported operation returns early and leaves its variables behind. */
  function VisitOperationDefinition(schema: Schema, fragments: Fragments, st: State, operation: Operation): State {
    var begun := BeginOperation(schema, st, operation);
    if operation.kind !in schema.operationTypes then begun.Report(UnsupportedOperation(operation.kind))
    else LeaveOperation(LeaveDefinition(VisitOperationRoot(schema, fragments, begun, operation)))
  }

  function VisitOperationRoot(schema: Schema, fragments: Fragments, st: State, operation: Operation): State
    requires operation.kind in schema.operationTypes
  {
    SubscriptionErrors(
      VisitSelection(schema, fragments, EnterRoot(schema, st, operation), operation.selections), operation)
  }

  function EnterRoot(schema: Schema, st: State, operation: Operation): State
    requires operation.kind in schema.operationTypes
  {
    st.(scopedType := Some(schema.operationTypes[operation.kind]), fieldCount := 0, introspectionFieldCount := 0)
  }

  /** Reports the variables never referenced and forgets all of them. */
  function LeaveOperation(st: State): State {
    st.(
      errors := st.errors + UnusedVariables(st.variableDefinitions, st.referencedVariables),
      operationVariables := None, variableDefinitions := [], referencedVariables := {})
  }

  function SubscriptionErrors(st: State, operation: Operation): State {
    if operation.kind != "subscription" then st
    else
      var st1 := if st.fieldCount > 1 then st.Report(SeveralRootFields(operation.name)) else st;
      if st1.introspectionFieldCount != 0 then st1.Report(IntrospectionRootField(operation.name)) else st1
  }

  function CollectFragments(document: seq<Definition>, found: Fragments): (Fragments, seq<Error>) {
    if document == [] then (found, [])
    else if !document[0].FragmentDefinition? then CollectFragments(document[1..], found)
    else
      var fragment := document[0].fragment;
      if fragment.name in found then
        var (all, errors) := CollectFragments(document[1..], found);
        (all, [DuplicateFragment(fragment.name)] + errors)
      else CollectFragments(document[1..], found[fragment.name := fragment])
  }

  function FragmentsOf(document: seq<Definition>): Fragments {
    CollectFragments(document, map[]).0
  }

  function CollectOperations(document: seq<Definition>, found: set<string>): (set<string>, seq<Error>) {
    if document == [] then (found, [])
    else if !document[0].OperationDefinition? then CollectOperations(document[1..], found)
    else
      var name := document[0].operation.name;
      var (all, errors) := CollectOperations(document[1..], found + {name});
      (all, (if name in found then [DuplicateOperation(name)] else []) + errors)
  }

  function VisitDefinition(schema: Schema, fragments: Fragments, st: State, definition: Definition): State {
    match definition
    case FragmentDefinition(fragment) => VisitFragmentDefinition(schema, fragments, st, fragment)
    case OperationDefinition(operation) => VisitOperationDefinition(schema, fragments, st, operation)
    case TypeDefinition => st.Report(UnexpectedTypeDefinition)
  }

  function VisitDefinitions(schema: Schema, fragments: Fragments, st: State, document: seq<Definition>): State
    decreases document
  {
    if document == [] then st
    else VisitDefinitions(schema, fragments, VisitDefinition(schema, fragments, st, document[0]), document[1..])
  }

  /** The fragment names in the order of a map, after those found before. */
  function CollectNames(document: seq<Definition>, found: seq<string>): seq<string>
    decreases document
  {
    if document == [] then found
    else if document[0].FragmentDefinition? then
      CollectNames(document[1..], SetEmplace(ShorterOrLess, found, document[0].fragment.name))
    else CollectNames(document[1..], found)
  }

  function FragmentNames(document: seq<Definition>): seq<string> {
    CollectNames(document, [])
  }

  /** Errors for the fragments never spread. */
  function UnusedFragments(names: seq<string>, used: set<string>): seq<Error> {
    if names == [] then []
    else (if names[0] in used then [] else [UnusedFragment(names[0])]) + UnusedFragments(names[1..], used)
  }

  function DefinitionErrors(document: seq<Definition>): seq<Error> {
    var (operations, duplicates) := CollectOperations(document, {});
    CollectFragments(document, map[]).1 + duplicates +
    (if |operations| > 1 && "" in operations then [AnonymousOperationNotAlone] else [])
  }

  /**
   A visitor that can take a document. Its counters are set before they are read; what it may have
   left of the variables of an earlier operation is not mentioned here and does matter.
   */
  predicate Ready(st: State) {
    st.errors == [] && st.fragmentCycles == {} && st.referencedFragments == {} && Idle(st)
  }

  /** No variables of an earlier operation are left. */
  predicate WithoutVariables(st: State) {
    st.operationVariables == None && st.variableDefinitions == [] && st.referencedVariables == {}
  }

  /** Nothing is being visited. */
  predicate Idle(st: State) {
    st.fragmentStack == {} && st.scopedType == None && st.selectionFields == map[]
  }

  /** What getStructuredErrors leaves for the next document. */
  function AfterReport(st: State): State {
    st.(errors := [], fragmentCycles := {}, referencedFragments := {})
  }

  function Validate(schema: Schema, st: State, document: seq<Definition>): State {
    var st1 := st.(errors := st.errors + DefinitionErrors(document));
    var st2 := VisitDefinitions(schema, FragmentsOf(document), st1, document);
    st2.(errors := st2.errors + UnusedFragments(FragmentNames(document), st2.referencedFragments))
  }
}
