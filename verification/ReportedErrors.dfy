/**
 Which errors are reported, and for what: the checks of arguments and directives, of fields, spreads
 and inline fragments, and of whole documents. Acceptance says when there is none; here every
 single one has its cause.
 */
module ReportedErrors {
  import opened Common
  import opened GraphQLTypes
  import opened InputValues
  import opened SortedContainers
  import opened ExecutableValidation
  import opened FieldRules
  import opened PassedOverFields
  import opened SelectionAcceptance
  import opened DocumentAcceptance

  // ---- Arguments ----

  lemma {:induction false} UndefinedArgumentsAre(owner: Owner, names: seq<string>, declared: Arguments, error: Error)
    ensures error in UndefinedArguments(owner, names, declared) <==>
            error.UndefinedArgument? && error.owner == owner && error.name in names && !HasName(declared, error.name)
  {
    if names != [] {
      UndefinedArgumentsAre(owner, names[1..], declared, error);
      assert names == [names[0]] + names[1..];
    }
  }

  /** Without a default and Non-Null: the argument has to be given, and not as null. */
  predicate MustBeGiven(argument: Argument) {
    !argument.defaultValue && argument.ofType.Some? && argument.ofType.value.NonNull?
  }

  /** What one declared argument is reported for. */
  predicate IsReportedFor(
    inputs: InputSchema, variables: Option<Variables>, owner: Owner, declared: Entry<Argument>,
    given: map<string, Literal>, error: Error)
  {
    var name, argument := declared.name, declared.value;
    var value := Given(given, name);
    match error
    case IncompatibleArgument(o, n) =>
      && o == owner && n == name && value.Some? && !value.value.Null?
      && !Inhabits(inputs, variables, argument.nonNullDefaultValue, value.value, argument.ofType)
    case InvalidValue(input) =>
      && value.Some? && !value.value.Null?
      && Check(inputs, variables, argument.nonNullDefaultValue, value.value, argument.ofType) == Some(input)
    case MissingArgument(o, n) => o == owner && n == name && value.None? && MustBeGiven(argument)
    case RequiredNonNullArgument(o, n) => o == owner && n == name && value == Some(Null) && MustBeGiven(argument)
    case _ => false
  }

  lemma OneArgumentIsReportedFor(
    inputs: InputSchema, variables: Option<Variables>, owner: Owner, declared: Entry<Argument>,
    given: map<string, Literal>, error: Error)
    ensures error in ArgumentFindings(inputs, variables, owner, declared, given).errors <==>
            IsReportedFor(inputs, variables, owner, declared, given, error)
  {
    var name, argument := declared.name, declared.value;
    if name in given && !given[name].Null? {
      CheckIsInhabits(inputs, variables, argument.nonNullDefaultValue, given[name], argument.ofType);
    }
  }

  lemma {:induction false} ArgumentErrorsAre(
    inputs: InputSchema, variables: Option<Variables>, owner: Owner, declared: Arguments,
    given: map<string, Literal>, error: Error)
    ensures error in AllArgumentFindings(inputs, variables, owner, declared, given).errors <==>
            exists i :: 0 <= i < |declared| && IsReportedFor(inputs, variables, owner, declared[i], given, error)
    decreases declared
  {
    if declared != [] {
      var rest := declared[1..];
      OneArgumentIsReportedFor(inputs, variables, owner, declared[0], given, error);
      ArgumentErrorsAre(inputs, variables, owner, rest, given, error);
      assert forall i | 0 <= i < |rest| :: rest[i] == declared[i + 1];
      if i :| 0 <= i < |declared| && IsReportedFor(inputs, variables, owner, declared[i], given, error) {
        assert i > 0 ==> declared[i] == rest[i - 1];
      }
      if i :| 0 <= i < |rest| && IsReportedFor(inputs, variables, owner, rest[i], given, error) {
        assert declared[i + 1] == rest[i];
      }
    }
  }

  /** A repeated argument is reported as such, and is not read; of any other, each repeated object field is. */
  predicate IsReportedOnReading(
    owner: Owner, arguments: seq<Entry<Literal>>, found: set<string>, i: nat, error: Error)
    requires i < |arguments|
  {
    var name := arguments[i].name;
    if name in found || HasName(arguments[..i], name) then error == ConflictingArgument(owner, name)
    else error.ConflictingInputField? && error.name in Read(arguments[i].value).repeated
  }

  lemma RepeatedFieldsAre(names: seq<string>, error: Error)
    ensures error in RepeatedFields(names) <==> error.ConflictingInputField? && error.name in names
  {
    var errors := RepeatedFields(names);
    if error in errors {
      var i :| 0 <= i < |errors| && errors[i] == error;
      assert names[i] in names;
    }
    if error.ConflictingInputField? && error.name in names {
      var i :| 0 <= i < |names| && names[i] == error.name;
      assert errors[i] == error;
    }
  }

  lemma {:induction false} ReadingErrorsAre(
    owner: Owner, arguments: seq<Entry<Literal>>, found: map<string, Literal>, error: Error)
    ensures error in CollectArguments(owner, arguments, found).errors <==>
            exists i :: 0 <= i < |arguments| && IsReportedOnReading(owner, arguments, found.Keys, i, error)
    decreases arguments
  {
    if arguments != [] {
      var name, rest := arguments[0].name, arguments[1..];
      var reading := Read(arguments[0].value);
      var next := if name in found then found else found[name := reading.value];
      RepeatedFieldsAre(reading.repeated, error);
      ReadingErrorsAre(owner, rest, next, error);
      assert !HasName(arguments[..0], name);
      assert next.Keys == found.Keys + {name};
      forall i | 0 <= i < |rest|
        ensures IsReportedOnReading(owner, rest, next.Keys, i, error) <==>
                IsReportedOnReading(owner, arguments, found.Keys, i + 1, error)
      {
        OneMoreInFront(arguments, i, rest[i].name);
      }
      if i :| 0 <= i < |arguments| && IsReportedOnReading(owner, arguments, found.Keys, i, error) {
        assert i > 0 ==> IsReportedOnReading(owner, rest, next.Keys, i - 1, error);
      }
      if i :| 0 <= i < |rest| && IsReportedOnReading(owner, rest, next.Keys, i, error) {
        assert IsReportedOnReading(owner, arguments, found.Keys, i + 1, error);
      }
      assert IsReportedOnReading(owner, arguments, found.Keys, 0, error) <==>
             if name in found then error == ConflictingArgument(owner, name)
             else error.ConflictingInputField? && error.name in reading.repeated;
    }
  }

  lemma OneMoreInFront(arguments: seq<Entry<Literal>>, i: nat, name: string)
    requires arguments != [] && i < |arguments[1..]|
    ensures HasName(arguments[..i + 1], name) <==> arguments[0].name == name || HasName(arguments[1..][..i], name)
  {
    var front, rest := arguments[..i + 1], arguments[1..][..i];
    assert forall k | 0 <= k < i :: rest[k] == front[k + 1];
    if k :| 0 <= k < |front| && front[k].name == name {
      assert k > 0 ==> rest[k - 1].name == name;
    }
    if k :| 0 <= k < |rest| && rest[k].name == name {
      assert front[k + 1].name == name;
    }
    assert front[0] == arguments[0];
  }

  // ---- Directives ----

  /** Undefined, repeated or misplaced; otherwise its arguments, if it has any. */
  lemma DirectiveErrorsAre(
    schema: Schema, variables: Option<Variables>, location: Location, directive: Directive, repeated: bool,
    error: Error)
    ensures var owner := OfDirective(directive.name);
            var errors := DirectiveFindings(schema, variables, location, directive, repeated).errors;
            error in errors <==>
              if directive.name !in schema.directives then error == UndefinedDirective(directive.name)
              else if repeated then error == ConflictingDirective(directive.name)
              else if location !in schema.directives[directive.name].locations then
                error == UnexpectedLocation(directive.name)
              else
                directive.arguments != [] &&
                var declared := schema.directives[directive.name].arguments;
                var collected := CollectArguments(owner, directive.arguments, map[]);
                error in collected.errors || error in UndefinedArguments(owner, collected.names, declared) ||
                error in AllArgumentFindings(schema.inputs, variables, owner, declared, collected.given).errors
  {
  }

  /** A directive is repeated when it is not repeatable and stood before it in the same place. */
  lemma {:induction false} DirectivesErrorsAre(
    schema: Schema, variables: Option<Variables>, location: Location, directives: seq<Directive>,
    seen: set<string>, error: Error)
    ensures error in AllDirectiveFindings(schema, variables, location, directives, seen).errors <==>
            exists i :: 0 <= i < |directives| &&
              IsReportedAt(schema, variables, location, directives, seen, i, error)
    decreases directives
  {
    if directives != [] {
      var rest, next := directives[1..], seen + {directives[0].name};
      FirstDirectiveErrors(schema, variables, location, directives, seen, error);
      DirectivesErrorsAre(schema, variables, location, rest, next, error);
      forall i | 0 <= i < |rest|
        ensures IsReportedAt(schema, variables, location, rest, next, i, error) <==>
                IsReportedAt(schema, variables, location, directives, seen, i + 1, error)
      {
        ReportedOneLater(schema, variables, location, directives, seen, i, error);
      }
      if i :| 0 <= i < |directives| && IsReportedAt(schema, variables, location, directives, seen, i, error) {
        assert i > 0 ==> IsReportedAt(schema, variables, location, rest, next, i - 1, error);
      }
    }
  }

  lemma FirstDirectiveErrors(
    schema: Schema, variables: Option<Variables>, location: Location, directives: seq<Directive>,
    seen: set<string>, error: Error)
    requires directives != []
    ensures error in AllDirectiveFindings(schema, variables, location, directives, seen).errors <==>
            IsReportedAt(schema, variables, location, directives, seen, 0, error) ||
            error in AllDirectiveFindings(
              schema, variables, location, directives[1..], seen + {directives[0].name}).errors
  {
    assert NamesOf(directives[..0]) == {};
  }

  lemma ReportedOneLater(
    schema: Schema, variables: Option<Variables>, location: Location, directives: seq<Directive>,
    seen: set<string>, i: nat, error: Error)
    requires directives != [] && i < |directives[1..]|
    ensures IsReportedAt(schema, variables, location, directives[1..], seen + {directives[0].name}, i, error) <==>
            IsReportedAt(schema, variables, location, directives, seen, i + 1, error)
  {
    assert directives[..i + 1] == [directives[0]] + directives[1..][..i];
    assert NamesOf(directives[..i + 1]) == {directives[0].name} + NamesOf(directives[1..][..i]);
  }

  function NamesOf(directives: seq<Directive>): set<string> {
    set directive | directive in directives :: directive.name
  }

  predicate IsReportedAt(
    schema: Schema, variables: Option<Variables>, location: Location, directives: seq<Directive>,
    seen: set<string>, i: nat, error: Error)
    requires i < |directives|
  {
    var name := directives[i].name;
    var repeated :=
      name in schema.directives && !schema.directives[name].isRepeatable && name in seen + NamesOf(directives[..i]);
    error in DirectiveFindings(schema, variables, location, directives[i], repeated).errors
  }

  // ---- Fields and fragments ----

  /** What a field adds after its directives: one error about the scope, or those of selecting it. */
  lemma FieldReports(schema: Schema, st: State, field: Selection)
    requires field.Field? && st.scopedType.Some?
    ensures var scope, after := st.scopedType.value, EnterInScope(schema, st, field).state.errors;
            if IsLeafKind(scope.kind) || scope.name !in schema.typeFields then
              after == st.errors + [FieldOnScalar(scope.name, field.name)]
            else if scope.kind == Union && field.name != "__typename" then
              after == st.errors + [FieldOnUnion(scope.name, field.name)]
            else if Innermost(TypeInScope(schema, scope, field.name)).None? then
              after == st.errors + [Error.UndefinedField(scope.name, field.name)]
            else
              var returnType := TypeInScope(schema, scope, field.name).value;
              after == st.errors + CollectArguments(OfField(field.name), field.arguments, map[]).errors +
                SelectionErrors(schema, st, field, returnType)
  {
    var scope := st.scopedType.value;
    var returnType := TypeInScope(schema, scope, field.name);
    if Innermost(returnType).Some? {
      SelectFieldAdds(schema, st, field, returnType.value, Innermost(returnType).value);
    }
  }

  /** A composite field in which nothing was counted is reported after its sub-selection. */
  lemma MissingSelectionIsReported(st: State, name: string, inner: NamedType, subFieldCount: nat)
    ensures LeaveField(st, name, inner, subFieldCount).errors ==
            st.errors + (if subFieldCount == 0 && inner.kind in {Object, Interface, Union}
                         then [MissingSelectionSet(inner.name)] else [])
  {
    LeafKindsAreInputKinds(inner.kind);
  }

  /** A spread that may not stand there is reported for the first reason that applies, a cycle once. */
  lemma SpreadReports(schema: Schema, fragments: Fragments, st: State, spread: Selection)
    requires spread.FragmentSpread? && st.scopedType.Some?
    ensures var before := WithDirectives(schema, st, FragmentSpreadLocation, spread.directives);
            var after, name := VisitFragmentSpread(schema, fragments, st, spread), spread.name;
            !SpreadMayStand(schema, fragments, st.fragmentStack, st.scopedType.value, name) ==>
              after.errors == before.errors +
                (if name !in fragments then [UndefinedFragment(name)]
                 else if name in st.fragmentStack then
                   (if name in st.fragmentCycles then [] else [CyclicFragment(name)])
                 else [IncompatibleSpread(fragments[name].typeCondition, name)]) &&
              after.fragmentCycles == st.fragmentCycles +
                (if name in fragments && name in st.fragmentStack then {name} else {})
  {
    if spread.name in fragments {
      MatchesExactlyWhenMayStand(schema, st.scopedType.value, fragments[spread.name].typeCondition);
    }
  }

  lemma InlineReports(schema: Schema, fragments: Fragments, st: State, inline: Selection)
    requires inline.InlineFragment? && st.scopedType.Some?
    ensures var before := WithDirectives(schema, st, InlineFragmentLocation, inline.directives);
            var after, target := VisitInlineFragment(schema, fragments, st, inline), inline.typeCondition;
            !InlineMayStand(schema, st.scopedType.value, target) ==>
              after.errors == before.errors +
                (if target !in schema.types then [UndefinedInlineTarget(target)]
                 else if schema.types[target] !in {Object, Interface, Union} then [ScalarInlineTarget(target)]
                 else [IncompatibleInlineTarget(target)])
  {
    MatchesExactlyWhenMayStand(schema, st.scopedType.value, inline.typeCondition);
    if inline.typeCondition in schema.types {
      LeafKindsAreInputKinds(schema.types[inline.typeCondition]);
    }
  }

  // ---- Definitions and documents ----

  lemma FragmentTargetIsReported(schema: Schema, fragments: Fragments, st: State, fragment: Fragment)
    ensures fragment.typeCondition !in schema.types ||
            schema.types[fragment.typeCondition] !in {Object, Interface, Union} ==>
              VisitFragmentDefinition(schema, fragments, st, fragment).errors ==
              WithDirectives(schema, st, FragmentDefinitionLocation, fragment.directives).errors +
                [InvalidFragmentTarget(fragment.name, fragment.typeCondition)]
  {
    if fragment.typeCondition in schema.types {
      LeafKindsAreInputKinds(schema.types[fragment.typeCondition]);
    }
  }

  /** A definition of a variable that is not accepted is reported for the first reason, and not kept. */
  lemma VariableReports(schema: Schema, st: State, operation: string, v: VariableDefinition)
    requires st.operationVariables.Some?
    ensures var after, earlier := DefineVariable(schema, st, operation, v), st.operationVariables.value;
            (v.name in earlier ==> after == st.Report(ConflictingVariable(operation, v.name))) &&
            (v.name !in earlier && VariableType(schema, v.tree).None? ==>
               after == st.Report(InvalidVariableType(operation, v.name))) &&
            (v.name !in earlier && VariableType(schema, v.tree).Some? && v.defaultValue.Some? ==>
               (IncompatibleVariableDefault(operation, v.name) in after.errors <==>
                IncompatibleVariableDefault(operation, v.name) in st.errors ||
                !Inhabits(
                  schema.inputs, Some(earlier), false, Read(v.defaultValue.value).value,
                  VariableType(schema, v.tree))))
  {
    if v.defaultValue.Some? {
      var reading := Read(v.defaultValue.value);
      var variables, ofType := st.operationVariables, VariableType(schema, v.tree);
      CheckIsInhabits(schema.inputs, variables, false, reading.value, ofType);
      RepeatedFieldsAre(reading.repeated, IncompatibleVariableDefault(operation, v.name));
    }
  }

  lemma UnsupportedIsReported(schema: Schema, fragments: Fragments, st: State, operation: Operation)
    ensures operation.kind !in schema.operationTypes ==>
              VisitOperationDefinition(schema, fragments, st, operation).errors ==
              BeginOperation(schema, st, operation).errors + [UnsupportedOperation(operation.kind)]
  {
  }

  /** The two errors of a subscription, each for its own counter. */
  lemma SubscriptionReports(st: State, operation: Operation)
    ensures SubscriptionErrors(st, operation).errors == st.errors +
            (if operation.kind == "subscription" && st.fieldCount > 1 then [SeveralRootFields(operation.name)]
             else []) +
            (if operation.kind == "subscription" && st.introspectionFieldCount != 0
             then [IntrospectionRootField(operation.name)] else [])
  {
  }

  lemma {:induction false} UnusedVariablesAre(defined: seq<string>, referenced: set<string>, error: Error)
    ensures error in UnusedVariables(defined, referenced) <==>
            error.UnusedVariable? && error.name in defined && error.name !in referenced
  {
    if defined != [] {
      UnusedVariablesAre(defined[1..], referenced, error);
      assert defined == [defined[0]] + defined[1..];
    }
  }

  lemma {:induction false} UnusedFragmentsAre(names: seq<string>, used: set<string>, error: Error)
    ensures error in UnusedFragments(names, used) <==>
            error.UnusedFragment? && error.name in names && error.name !in used
  {
    if names != [] {
      UnusedFragmentsAre(names[1..], used, error);
      assert names == [names[0]] + names[1..];
    }
  }

  lemma RepeatedFragmentOneLater(document: seq<Definition>, found: set<string>, j: nat, name: string)
    requires document != [] && j < |document[1..]|
    ensures var next := found + (if document[0].FragmentDefinition? then {document[0].fragment.name} else {});
            IsRepeatedFragment(document[1..], next, j, name) <==> IsRepeatedFragment(document, found, j + 1, name)
  {
    var rest, front := document[1..], document[..j + 1];
    assert front == [document[0]] + rest[..j] && front[1..] == rest[..j];
    NamesOfFirstAndRest(front);
  }

  lemma {:induction false} DuplicateFragmentsAre(document: seq<Definition>, found: Fragments, error: Error)
    ensures error in CollectFragments(document, found).1 <==>
            error.DuplicateFragment? &&
            exists j :: 0 <= j < |document| && IsRepeatedFragment(document, found.Keys, j, error.name)
    decreases document
  {
    if document != [] {
      var rest := document[1..];
      var next := if document[0].FragmentDefinition? && document[0].fragment.name !in found
                  then found[document[0].fragment.name := document[0].fragment] else found;
      DuplicateFragmentsAre(rest, next, error);
      assert next.Keys ==
             found.Keys + (if document[0].FragmentDefinition? then {document[0].fragment.name} else {});
      assert document[..0] == [];
      if error.DuplicateFragment? {
        forall j | 0 <= j < |rest|
          ensures IsRepeatedFragment(rest, next.Keys, j, error.name) <==>
                  IsRepeatedFragment(document, found.Keys, j + 1, error.name)
        {
          RepeatedFragmentOneLater(document, found.Keys, j, error.name);
        }
        if j :| 0 <= j < |document| && IsRepeatedFragment(document, found.Keys, j, error.name) {
          assert j > 0 ==> IsRepeatedFragment(rest, next.Keys, j - 1, error.name);
        }
        if j :| 0 <= j < |rest| && IsRepeatedFragment(rest, next.Keys, j, error.name) {
          assert IsRepeatedFragment(document, found.Keys, j + 1, error.name);
        }
        assert FragmentNamesIn([]) == {};
        assert IsRepeatedFragment(document, found.Keys, 0, error.name) <==>
               document[0].FragmentDefinition? && document[0].fragment.name == error.name && error.name in found;
      }
    }
  }

  /** The name of the fragment was taken by an earlier one. */
  predicate IsRepeatedFragment(document: seq<Definition>, found: set<string>, j: nat, name: string)
    requires j < |document|
  {
    && document[j].FragmentDefinition? && document[j].fragment.name == name
    && name in found + FragmentNamesIn(document[..j])
  }

  lemma RepeatedOperationOneLater(document: seq<Definition>, found: set<string>, j: nat, name: string)
    requires document != [] && j < |document[1..]|
    ensures var next := found + (if document[0].OperationDefinition? then {document[0].operation.name} else {});
            IsRepeatedOperation(document[1..], next, j, name) <==> IsRepeatedOperation(document, found, j + 1, name)
  {
    var rest, front := document[1..], document[..j + 1];
    assert front == [document[0]] + rest[..j] && front[1..] == rest[..j];
    NamesOfFirstAndRest(front);
  }

  lemma {:induction false} DuplicateOperationsAre(document: seq<Definition>, found: set<string>, error: Error)
    ensures error in CollectOperations(document, found).1 <==>
            error.DuplicateOperation? &&
            exists j :: 0 <= j < |document| && IsRepeatedOperation(document, found, j, error.name)
    decreases document
  {
    if document != [] {
      var rest := document[1..];
      var next := if document[0].OperationDefinition? then found + {document[0].operation.name} else found;
      DuplicateOperationsAre(rest, next, error);
      assert document[..0] == [];
      if error.DuplicateOperation? {
        forall j | 0 <= j < |rest|
          ensures IsRepeatedOperation(rest, next, j, error.name) <==>
                  IsRepeatedOperation(document, found, j + 1, error.name)
        {
          RepeatedOperationOneLater(document, found, j, error.name);
        }
        if j :| 0 <= j < |document| && IsRepeatedOperation(document, found, j, error.name) {
          assert j > 0 ==> IsRepeatedOperation(rest, next, j - 1, error.name);
        }
        if j :| 0 <= j < |rest| && IsRepeatedOperation(rest, next, j, error.name) {
          assert IsRepeatedOperation(document, found, j + 1, error.name);
        }
        assert OperationNamesIn([]) == {};
        assert IsRepeatedOperation(document, found, 0, error.name) <==>
               document[0].OperationDefinition? && document[0].operation.name == error.name && error.name in found;
      }
    }
  }

  predicate IsRepeatedOperation(document: seq<Definition>, found: set<string>, j: nat, name: string)
    requires j < |document|
  {
    && document[j].OperationDefinition? && document[j].operation.name == name
    && name in found + OperationNamesIn(document[..j])
  }
}
