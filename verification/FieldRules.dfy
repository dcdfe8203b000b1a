/**
 What it takes for visitField to enter or pass over a field without an error. Its directives are
 accepted, it is defined where it stands, and no argument or object field is repeated. When its
 response name is free, its arguments are declared, of the right types and complete. When the name
 is taken, the earlier field is compatible, and then the arguments may go unchecked.
 */
module FieldRules {
  import opened Common
  import opened GraphQLTypes
  import opened InputValues
  import opened ExecutableValidation

  // ---- Arguments ----

  function Given(arguments: map<string, Literal>, name: string): Option<Literal> {
    if name in arguments then Some(arguments[name]) else None
  }

  function ReadOption(v: Option<Literal>): Option<Literal> {
    if v.None? then None else Some(Read(v.value).value)
  }

  lemma FirstArgumentOrRest(arguments: seq<Entry<Literal>>, name: string)
    requires arguments != []
    ensures HasName(arguments, name) <==> name == arguments[0].name || HasName(arguments[1..], name)
  {
    var rest := arguments[1..];
    if i :| 0 <= i < |arguments| && arguments[i].name == name {
      assert i > 0 ==> rest[i - 1].name == name;
    }
    if i :| 0 <= i < |rest| && rest[i].name == name {
      assert arguments[i + 1].name == name;
    }
  }

  /** The first argument of every name is kept, as it is read. */
  lemma {:induction false} CollectedArgumentsAreFirst(
    owner: Owner, arguments: seq<Entry<Literal>>, found: map<string, Literal>, name: string)
    ensures var collected := CollectArguments(owner, arguments, found);
            Given(collected.given, name) ==
              (if name in found then Some(found[name]) else ReadOption(Lookup(arguments, name))) &&
            (name in collected.names <==> name !in found && HasName(arguments, name))
    decreases arguments
  {
    if arguments != [] {
      var first := arguments[0];
      var next := if first.name in found then found else found[first.name := Read(first.value).value];
      FirstArgumentOrRest(arguments, name);
      CollectedArgumentsAreFirst(owner, arguments[1..], next, name);
    }
  }

  /** An argument is new when its name has not been found before. */
  predicate AllNew(arguments: seq<Entry<Literal>>, found: map<string, Literal>) {
    DistinctNames(arguments) && forall name | name in found :: !HasName(arguments, name)
  }

  lemma NewFirstAndRest(arguments: seq<Entry<Literal>>, found: map<string, Literal>, value: Literal)
    requires arguments != []
    ensures AllNew(arguments, found) <==>
            arguments[0].name !in found && AllNew(arguments[1..], found[arguments[0].name := value])
  {
    var first, rest := arguments[0], arguments[1..];
    forall name
      ensures HasName(arguments, name) <==> name == first.name || HasName(rest, name)
    {
      FirstArgumentOrRest(arguments, name);
    }
    if AllNew(arguments, found) {
      assert DistinctNames(rest) && !HasName(rest, first.name);
    }
    if first.name !in found && AllNew(rest, found[first.name := value]) {
      assert !HasName(rest, first.name);
      forall i, j | 0 <= i < j < |arguments|
        ensures arguments[i].name != arguments[j].name
      {
        assert arguments[j] == rest[j - 1] && (i > 0 ==> arguments[i] == rest[i - 1]);
      }
    }
  }

  predicate ValuesHaveDistinctFields(arguments: seq<Entry<Literal>>) {
    forall argument | argument in arguments :: HasDistinctFields(argument.value)
  }

  /** No argument is given twice, and no field of an object in their values. */
  predicate NothingRepeated(arguments: seq<Entry<Literal>>) {
    DistinctNames(arguments) && ValuesHaveDistinctFields(arguments)
  }

  /** Collecting reports exactly what is repeated. */
  lemma {:induction false} RepeatedArgumentsMean(
    owner: Owner, arguments: seq<Entry<Literal>>, found: map<string, Literal>)
    ensures CollectArguments(owner, arguments, found).errors == [] <==>
            AllNew(arguments, found) && ValuesHaveDistinctFields(arguments)
    decreases arguments
  {
    if arguments != [] {
      var reading := Read(arguments[0].value);
      NewFirstAndRest(arguments, found, reading.value);
      RepeatedFieldsMean(arguments[0].value);
      assert arguments == [arguments[0]] + arguments[1..];
      if arguments[0].name !in found {
        RepeatedArgumentsMean(owner, arguments[1..], found[arguments[0].name := reading.value]);
      }
    }
  }

  lemma {:induction false} UndefinedArgumentsMean(owner: Owner, names: seq<string>, declared: Arguments)
    ensures UndefinedArguments(owner, names, declared) == [] <==> forall name | name in names :: HasName(declared, name)
  {
    if names != [] {
      UndefinedArgumentsMean(owner, names[1..], declared);
      assert names == [names[0]] + names[1..];
    }
  }

  /** A value of the type is given, or the argument may be left out or null. */
  predicate ArgumentFits(
    inputs: InputSchema, variables: Option<Variables>, declared: Argument, given: Option<Literal>)
  {
    if given.Some? && !given.value.Null? then
      Inhabits(inputs, variables, declared.nonNullDefaultValue, given.value, declared.ofType)
    else declared.defaultValue || declared.ofType.None? || !declared.ofType.value.NonNull?
  }

  lemma {:induction false} ArgumentErrorsMean(
    inputs: InputSchema, variables: Option<Variables>, owner: Owner, declared: Arguments, given: map<string, Literal>)
    ensures AllArgumentFindings(inputs, variables, owner, declared, given).errors == [] <==>
            forall i | 0 <= i < |declared| ::
              ArgumentFits(inputs, variables, declared[i].value, Given(given, declared[i].name))
    decreases declared
  {
    if declared != [] {
      var name, argument := declared[0].name, declared[0].value;
      ArgumentErrorsMean(inputs, variables, owner, declared[1..], given);
      if name in given {
        CheckIsInhabits(inputs, variables, argument.nonNullDefaultValue, given[name], argument.ofType);
      }
      assert declared == [declared[0]] + declared[1..];
    }
  }

  /** Arguments as written fit: all declared, all of their types, none missing. */
  predicate ArgumentsFit(
    inputs: InputSchema, variables: Option<Variables>, declared: Arguments, arguments: seq<Entry<Literal>>)
  {
    && (forall i | 0 <= i < |arguments| :: HasName(declared, arguments[i].name))
    && (forall i | 0 <= i < |declared| ::
          ArgumentFits(inputs, variables, declared[i].value, Lookup(arguments, declared[i].name)))
  }

  lemma ReadingKeepsFit(
    inputs: InputSchema, variables: Option<Variables>, declared: Argument, given: Option<Literal>)
    requires given.Some? ==> HasDistinctFields(given.value)
    ensures ArgumentFits(inputs, variables, declared, ReadOption(given)) <==>
            ArgumentFits(inputs, variables, declared, given)
  {
    if given.Some? {
      ReadingKeepsMeaning(inputs, variables, declared.nonNullDefaultValue, given.value, declared.ofType);
    }
  }

  /** The checks of collected arguments are silent exactly when the arguments as written fit. */
  lemma ArgumentsAreQuiet(
    inputs: InputSchema, variables: Option<Variables>, owner: Owner, declared: Arguments,
    arguments: seq<Entry<Literal>>)
    requires ValuesHaveDistinctFields(arguments)
    ensures var collected := CollectArguments(owner, arguments, map[]);
            UndefinedArguments(owner, collected.names, declared) +
            AllArgumentFindings(inputs, variables, owner, declared, collected.given).errors == [] <==>
            ArgumentsFit(inputs, variables, declared, arguments)
  {
    var collected := CollectArguments(owner, arguments, map[]);
    UndefinedArgumentsMean(owner, collected.names, declared);
    ArgumentErrorsMean(inputs, variables, owner, declared, collected.given);
    forall name
      ensures name in collected.names <==> HasName(arguments, name)
    {
      CollectedArgumentsAreFirst(owner, arguments, map[], name);
    }
    assert forall i | 0 <= i < |arguments| :: HasName(arguments, arguments[i].name);
    forall i | 0 <= i < |declared|
      ensures ArgumentFits(inputs, variables, declared[i].value, Given(collected.given, declared[i].name)) <==>
              ArgumentFits(inputs, variables, declared[i].value, Lookup(arguments, declared[i].name))
    {
      CollectedArgumentsAreFirst(owner, arguments, map[], declared[i].name);
      ReadingKeepsFit(inputs, variables, declared[i].value, Lookup(arguments, declared[i].name));
    }
  }

  // ---- Directives ----

  /** Defined, allowed where it stands, and with arguments that fit if it has any. */
  predicate DirectiveAccepted(
    schema: Schema, variables: Option<Variables>, location: Location, directive: Directive)
  {
    directive.name in schema.directives &&
    var rule := schema.directives[directive.name];
    && location in rule.locations
    && NothingRepeated(directive.arguments)
    && (directive.arguments != [] ==> ArgumentsFit(schema.inputs, variables, rule.arguments, directive.arguments))
  }

  /** Each directive is accepted, and only repeatable ones are repeated. */
  predicate DirectivesAccepted(
    schema: Schema, variables: Option<Variables>, location: Location, directives: seq<Directive>, seen: set<string>)
  {
    directives == [] ||
    (var name := directives[0].name;
     && DirectiveAccepted(schema, variables, location, directives[0])
     && (name in seen ==> schema.directives[name].isRepeatable)
     && DirectivesAccepted(schema, variables, location, directives[1..], seen + {name}))
  }

  lemma DirectiveIsQuiet(
    schema: Schema, variables: Option<Variables>, location: Location, directive: Directive, repeated: bool)
    ensures DirectiveFindings(schema, variables, location, directive, repeated).errors == [] <==>
            DirectiveAccepted(schema, variables, location, directive) && !repeated
  {
    if directive.name in schema.directives && !repeated && location in schema.directives[directive.name].locations {
      var owner, rule := OfDirective(directive.name), schema.directives[directive.name];
      RepeatedArgumentsMean(owner, directive.arguments, map[]);
      assert AllNew(directive.arguments, map[]) <==> DistinctNames(directive.arguments);
      if ValuesHaveDistinctFields(directive.arguments) {
        ArgumentsAreQuiet(schema.inputs, variables, owner, rule.arguments, directive.arguments);
      }
    }
  }

  /** Directives add no error exactly when they are accepted. */
  lemma {:induction false} DirectivesAreQuiet(
    schema: Schema, variables: Option<Variables>, location: Location, directives: seq<Directive>, seen: set<string>)
    ensures AllDirectiveFindings(schema, variables, location, directives, seen).errors == [] <==>
            DirectivesAccepted(schema, variables, location, directives, seen)
    decreases directives
  {
    if directives != [] {
      var name := directives[0].name;
      DirectiveIsQuiet(schema, variables, location, directives[0], IsUnique(schema, name) && name in seen);
      DirectivesAreQuiet(schema, variables, location, directives[1..], seen + {name});
    }
  }

  lemma NothingAppended<T>(before: seq<T>, first: seq<T>, second: seq<T>)
    ensures before + first + second == before <==> first == [] && second == []
    ensures before + first == before <==> first == []
  {
    assert |before + first + second| == |before| + |first| + |second|;
    assert |before + first| == |before| + |first|;
    assert before + [] + [] == before && before + [] == before;
  }

  lemma WithDirectivesIsQuiet(schema: Schema, st: State, location: Location, directives: seq<Directive>)
    ensures WithDirectives(schema, st, location, directives).errors == st.errors <==>
            DirectivesAccepted(schema, st.operationVariables, location, directives, {})
  {
    DirectivesAreQuiet(schema, st.operationVariables, location, directives, {});
    NothingAppended(
      st.errors, AllDirectiveFindings(schema, st.operationVariables, location, directives, {}).errors, []);
  }

  // ---- The field ----

  /** The type of a field where it stands; a union only has __typename. */
  function TypeInScope(schema: Schema, scope: NamedType, name: string): Option<Type> {
    if IsLeafKind(scope.kind) || scope.name !in schema.typeFields then None
    else if scope.kind == Union then
      (if name == "__typename" then Some(NonNull(Some(Named(Scalar, "String")))) else None)
    else if name in schema.typeFields[scope.name] then Some(schema.typeFields[scope.name][name].returnType)
    else None
  }

  function GivenArguments(field: Selection): map<string, Literal>
    requires field.Field?
  {
    CollectArguments(OfField(field.name), field.arguments, map[]).given
  }

  /** What the field is kept as, to be compared with later ones of its response name. */
  function Selected(scope: NamedType, field: Selection, returnType: Type): ValidatedField
    requires field.Field?
  {
    ValidatedField(returnType, if scope.kind == Object then Some(scope) else None, field.name, GivenArguments(field))
  }

  /** The arguments fit the field as it is declared in the scope, where it is declared. */
  predicate ArgumentsFitScope(
    schema: Schema, variables: Option<Variables>, scope: NamedType, field: Selection)
    requires field.Field?
  {
    scope.name in schema.typeFields && field.name in schema.typeFields[scope.name] ==>
      ArgumentsFit(schema.inputs, variables, schema.typeFields[scope.name][field.name].arguments, field.arguments)
  }

  /** A field of a taken response name is compatible; the arguments of any other fit. */
  predicate FitsSelected(schema: Schema, st: State, field: Selection, returnType: Type)
    requires field.Field? && st.scopedType.Some?
  {
    var scope := st.scopedType.value;
    if ResponseName(field) in st.selectionFields then
      Mergeable(st.selectionFields[ResponseName(field)], Selected(scope, field, returnType))
    else ArgumentsFitScope(schema, st.operationVariables, scope, field)
  }

  predicate IsSelectable(schema: Schema, st: State, field: Selection)
    requires field.Field? && st.scopedType.Some?
  {
    && DirectivesAccepted(schema, st.operationVariables, FieldLocation, field.directives, {})
    && IsSelectableInScope(schema, st, field)
  }

  predicate IsSelectableInScope(schema: Schema, st: State, field: Selection)
    requires field.Field? && st.scopedType.Some?
  {
    var scope := st.scopedType.value;
    var returnType := TypeInScope(schema, scope, field.name);
    && Innermost(returnType).Some?
    && NothingRepeated(field.arguments)
    && FitsSelected(schema, st, field, returnType.value)
  }

  /** The errors SelectField adds: for repetitions, then for the field itself. */
  function SelectionErrors(schema: Schema, st: State, field: Selection, returnType: Type): seq<Error>
    requires field.Field? && st.scopedType.Some? && st.scopedType.value.name in schema.typeFields
  {
    var scope := st.scopedType.value;
    var fields := schema.typeFields[scope.name];
    var collected := CollectArguments(OfField(field.name), field.arguments, map[]);
    var conflicts := ResponseName(field) in st.selectionFields;
    if conflicts && Mergeable(st.selectionFields[ResponseName(field)], Selected(scope, field, returnType)) then []
    else
      (if conflicts then [ConflictingField(scope.name, field.name)] else []) +
      (if field.name in fields then
         FieldArgumentFindings(
           schema, st.operationVariables, field.name, fields[field.name].arguments, collected).errors
       else [])
  }

  lemma SelectFieldAdds(schema: Schema, st: State, field: Selection, returnType: Type, inner: NamedType)
    requires field.Field? && st.scopedType.Some? && st.scopedType.value.name in schema.typeFields
    ensures SelectField(schema, st, field, returnType, inner).state.errors ==
            st.errors + CollectArguments(OfField(field.name), field.arguments, map[]).errors +
            SelectionErrors(schema, st, field, returnType)
  {
  }

  lemma SelectingIsQuiet(schema: Schema, st: State, field: Selection, returnType: Type, inner: NamedType)
    requires field.Field? && st.scopedType.Some? && st.scopedType.value.name in schema.typeFields
    ensures SelectField(schema, st, field, returnType, inner).state.errors == st.errors <==>
            NothingRepeated(field.arguments) && FitsSelected(schema, st, field, returnType)
  {
    var fields := schema.typeFields[st.scopedType.value.name];
    var owner := OfField(field.name);
    RepeatedArgumentsMean(owner, field.arguments, map[]);
    assert AllNew(field.arguments, map[]) <==> DistinctNames(field.arguments);
    SelectFieldAdds(schema, st, field, returnType, inner);
    NothingAppended(
      st.errors, CollectArguments(owner, field.arguments, map[]).errors,
      SelectionErrors(schema, st, field, returnType));
    if field.name in fields && ValuesHaveDistinctFields(field.arguments) {
      ArgumentsAreQuiet(
        schema.inputs, st.operationVariables, owner, fields[field.name].arguments, field.arguments);
    }
  }

  lemma EnteringScopeIsQuiet(schema: Schema, st: State, field: Selection)
    requires field.Field? && st.scopedType.Some?
    ensures EnterInScope(schema, st, field).state.errors == st.errors <==> IsSelectableInScope(schema, st, field)
  {
    var scope := st.scopedType.value;
    var returnType := TypeInScope(schema, scope, field.name);
    var inner := Innermost(returnType);
    if inner.Some? {
      SelectingIsQuiet(schema, st, field, returnType.value, inner.value);
    }
  }

  /** A field is entered or passed over without an error exactly when it is selectable. */
  lemma EnteringIsQuietExactlyWhenSelectable(schema: Schema, st: State, field: Selection)
    requires field.Field? && st.scopedType.Some?
    ensures EnterField(schema, st, field).state.errors == st.errors <==> IsSelectable(schema, st, field)
  {
    var inScope := WithDirectives(schema, st, FieldLocation, field.directives);
    WithDirectivesIsQuiet(schema, st, FieldLocation, field.directives);
    EnteringScopeIsQuiet(schema, inScope, field);
    EnteringKeeps(schema, st, field);
    assert st.errors <= inScope.errors <= EnterInScope(schema, inScope, field).state.errors;
  }

  /** And it is passed over exactly when a compatible field was selected under its response name. */
  lemma PassedOverExactlyWhenMerged(schema: Schema, st: State, field: Selection)
    requires field.Field? && st.scopedType.Some? && IsSelectable(schema, st, field)
    ensures EnterField(schema, st, field).Done? <==> ResponseName(field) in st.selectionFields
    ensures EnterField(schema, st, field).Done? ==>
            EnterField(schema, st, field).state.selectionFields == st.selectionFields
    ensures EnterField(schema, st, field).Entered? ==>
            EnterField(schema, st, field).inner ==
            Innermost(TypeInScope(schema, st.scopedType.value, field.name)).value &&
            EnterField(schema, st, field).state.selectionFields ==
            st.selectionFields[ResponseName(field) := Selected(
              st.scopedType.value, field, TypeInScope(schema, st.scopedType.value, field.name).value)]
  {
  }

  /** The selection of an entered field adds no error, and a composite type has something selected. */
  predicate SubSelectionAccepted(schema: Schema, fragments: Fragments, st: State, field: Selection)
    requires field.Field? && st.scopedType.Some? && EnterField(schema, st, field).Entered?
  {
    var inside, inner := EnterField(schema, st, field).state, EnterField(schema, st, field).inner;
    EnteringKeeps(schema, st, field);
    if field.selectionSet.NoSelections? then IsLeafKind(inner.kind)
    else
      var sub := VisitSelection(schema, fragments, Descend(inside, inner), field.selectionSet.selections);
      sub.errors == inside.errors && (sub.fieldCount > 0 || IsLeafKind(inner.kind))
  }

  /** visitField adds no error exactly for a selectable field that is passed over or whose selection is accepted. */
  lemma VisitFieldIsQuietExactlyWhen(schema: Schema, fragments: Fragments, st: State, field: Selection)
    requires field.Field? && st.scopedType.Some?
    ensures VisitField(schema, fragments, st, field).errors == st.errors <==>
            IsSelectable(schema, st, field) &&
            (EnterField(schema, st, field).Done? || SubSelectionAccepted(schema, fragments, st, field))
  {
    EnteringKeeps(schema, st, field);
    EnteringIsQuietExactlyWhenSelectable(schema, st, field);
    var step := EnterField(schema, st, field);
    if step.Entered? {
      var after := VisitSubSelection(schema, fragments, step.state, step.inner, field);
      assert st.errors <= step.state.errors <= after.errors;
      if field.selectionSet.Selections? {
        var sub := VisitSelection(
          schema, fragments, Descend(step.state, step.inner), field.selectionSet.selections);
        assert step.state.errors <= sub.errors <= after.errors;
        assert sub.errors + [MissingSelectionSet(step.inner.name)] != sub.errors;
      } else {
        assert step.state.errors + [MissingSelectionSet(step.inner.name)] != step.state.errors;
      }
    }
  }
}
