/**
 ValidateExecutableVisitor itself: the visits of ExecutableValidation performed on fields,
 each method proved to have exactly the effect that module describes.
 */
module ValidationVisitor {
  import opened Common
  import opened GraphQLTypes
  import opened VariableUsage
  import opened InputValues
  import opened SortedContainers
  import opened TypeModifiers
  import opened ExecutableValidation
  import Spec = ExecutableValidation

  class ValidateExecutableVisitor {
    const schema: Schema
    var fragmentDefinitions: Fragments
    /** The names in fragmentDefinitions, in the order of a map. */
    var fragmentNames: seq<string>
    var errors: seq<Error>
    var fragmentCycles: set<string>
    var referencedFragments: set<string>
    var fragmentStack: set<string>
    var scopedType: Option<NamedType>
    var selectionFields: map<string, ValidatedField>
    var fieldCount: nat
    var introspectionFieldCount: nat
    var operationVariables: Option<Variables>
    var variableDefinitions: seq<string>
    var referencedVariables: set<string>
    var inputTypeFields: map<string, Arguments>

    function Current(): State
      reads this
    {
      State(errors, fragmentCycles, referencedFragments, fragmentStack, scopedType, selectionFields,
            fieldCount, introspectionFieldCount, operationVariables, variableDefinitions, referencedVariables)
    }

    /** The cache only ever holds what the schema says. */
    ghost predicate Valid()
      reads this
    {
      forall name | name in inputTypeFields ::
        name in schema.inputs.inputObjects && inputTypeFields[name] == schema.inputs.inputObjects[name]
    }

    constructor (schema: Schema)
      ensures this.schema == schema && Valid() && fragmentDefinitions == map[] && fragmentNames == []
      ensures Ready(Current()) && WithoutVariables(Current())
    {
      this.schema := schema;
      fragmentDefinitions, fragmentNames := map[], [];
      errors := [];
      fragmentCycles, referencedFragments, fragmentStack := {}, {}, {};
      scopedType := None;
      selectionFields := map[];
      fieldCount, introspectionFieldCount := 0, 0;
      operationVariables, variableDefinitions, referencedVariables := None, [], {};
      inputTypeFields := map[];
    }

    method Report(error: Error)
      modifies this`errors
      ensures Current() == old(Current()).Report(error)
    {
      errors := errors + [error];
    }

    // ---- Values ----

    /** The one error of a value that is rejected before any variable is looked at. */
    method Reject(error: InputError)
      modifies this`errors
      ensures Current() == old(Current()).Add(Findings([InvalidValue(error)], {}))
    {
      errors := errors + [InvalidValue(error)];
      assert referencedVariables + {} == referencedVariables;
    }

    method GetInputTypeFields(name: string) returns (found: Option<Arguments>)
      requires Valid()
      modifies this`inputTypeFields
      ensures Valid()
      ensures found ==
        if name in schema.inputs.inputObjects then Some(schema.inputs.inputObjects[name]) else None
      ensures old(inputTypeFields).Keys <= inputTypeFields.Keys
    {
      if name !in inputTypeFields {
        if name !in schema.inputs.inputObjects {
          return None;
        }
        inputTypeFields := inputTypeFields[name := schema.inputs.inputObjects[name]];
      }
      found := Some(inputTypeFields[name]);
    }

    method ValidateVariableType(isNonNull: bool, variableType: Option<Type>, inputType: Option<Type>)
      returns (ok: bool)
      modifies this`errors
      ensures ok <==> CheckVariableType(isNonNull, variableType, inputType).None?
      ensures errors == old(errors) +
        (if ok then [] else [InvalidValue(Usage(CheckVariableType(isNonNull, variableType, inputType).value))])
      decreases variableType, inputType
    {
      if variableType.None? {
        errors := errors + [InvalidValue(Usage(UnknownVariableType))];
        return false;
      }
      if variableType.value.NonNull? {
        if variableType.value.ofType.None? {
          errors := errors + [InvalidValue(Usage(UnknownNonNullVariableType))];
          return false;
        }
        ok := ValidateVariableType(true, variableType.value.ofType, inputType);
        return;
      }
      if inputType.None? {
        errors := errors + [InvalidValue(Usage(UnknownInputType))];
        return false;
      }
      match inputType.value {
        case NonNull(ofType) =>
          if !isNonNull {
            errors := errors + [InvalidValue(Usage(ExpectedNonNullVariable))];
            return false;
          }
          if ofType.None? {
            errors := errors + [InvalidValue(Usage(UnknownNonNullInputType))];
            return false;
          }
          ok := ValidateVariableType(false, variableType, ofType);
          return;
        case List(inputOf) =>
          if !variableType.value.List? {
            errors := errors + [InvalidValue(Usage(ExpectedListVariable))];
            return false;
          }
          if variableType.value.ofType.None? {
            errors := errors + [InvalidValue(Usage(UnknownListVariableType))];
            return false;
          }
          if inputOf.None? {
            errors := errors + [InvalidValue(Usage(UnknownListInputType))];
            return false;
          }
          ok := ValidateVariableType(false, variableType.value.ofType, inputOf);
          return;
        case Named(inputKind, inputName) =>
          if !IsInputKind(inputKind) {
            errors := errors + [InvalidValue(Usage(UnexpectedInputType))];
            return false;
          }
          if !variableType.value.Named? || variableType.value.kind != inputKind {
            errors := errors + [InvalidValue(Usage(ExpectedKindVariable(inputKind)))];
            return false;
          }
          if variableType.value.name == "" {
            errors := errors + [InvalidValue(Usage(UnknownVariableType))];
            return false;
          }
          if inputName == "" {
            errors := errors + [InvalidValue(Usage(UnknownInputType))];
            return false;
          }
          if variableType.value.name != inputName {
            errors := errors + [InvalidValue(Usage(IncompatibleVariable(variableType.value.name, inputName)))];
            return false;
          }
          return true;
      }
    }

    /**
     True exactly when the literal inhabits the type; exactly one error is added when it does not,
     none when it does, whatever the cache holds on entry.
     */
    method ValidateInputValue(hasNonNullDefault: bool, v: Literal, t: Option<Type>) returns (ok: bool)
      requires Valid()
      modifies this`errors, this`inputTypeFields, this`referencedVariables
      ensures Valid()
      ensures ok <==> Inhabits(schema.inputs, operationVariables, hasNonNullDefault, v, t)
      ensures Current() ==
        old(Current()).Add(ValueFindings(schema.inputs, operationVariables, hasNonNullDefault, v, t))
      decreases v, 2, t
    {
      CheckIsInhabits(schema.inputs, operationVariables, hasNonNullDefault, v, t);
      if t.None? {
        Reject(UnknownType);
        return false;
      }
      if v.Variable? {
        ok := ValidateVariable(hasNonNullDefault, v.name, t);
        return;
      }
      if v.Null? {
        NothingAdded(Current());
        if t.value.NonNull? && !hasNonNullDefault {
          Reject(ExpectedNonNull);
          return false;
        }
        return true;
      }
      ok := ValidateByType(hasNonNullDefault, v, t.value);
    }

    /** The branches on the type, for a value that is neither a variable nor null. */
    method ValidateByType(hasNonNullDefault: bool, v: Literal, t: Type) returns (ok: bool)
      requires Valid() && !v.Variable? && !v.Null?
      modifies this`errors, this`inputTypeFields, this`referencedVariables
      ensures Valid()
      ensures ok <==> Check(schema.inputs, operationVariables, hasNonNullDefault, v, Some(t)).None?
      ensures Current() ==
        old(Current()).Add(ValueFindings(schema.inputs, operationVariables, hasNonNullDefault, v, Some(t)))
      decreases v, 2, t
    {
      match t {
        case NonNull(of) =>
          CheckIsInhabits(schema.inputs, operationVariables, hasNonNullDefault, v, of);
          if of.None? {
            assert Marked(schema.inputs, operationVariables, v, of) == {};
            Reject(UnknownNonNullType);
            return false;
          }
          ok := ValidateInputValue(hasNonNullDefault, v, of);
        case List(of) =>
          if !v.ListValue? {
            Reject(ExpectedList);
            return false;
          }
          if of.None? {
            Reject(UnknownListType);
            return false;
          }
          ok := ValidateItems(v.items, of);
        case Named(kind, name) => ok := ValidateNamed(v, kind, name);
      }
    }

    method ValidateNamed(v: Literal, kind: Kind, name: string) returns (ok: bool)
      requires Valid() && !v.Variable? && !v.Null?
      modifies this`errors, this`inputTypeFields, this`referencedVariables
      ensures Valid()
      ensures ok <==> Check(schema.inputs, operationVariables, false, v, Some(Named(kind, name))).None?
      ensures Current() ==
        old(Current()).Add(ValueFindings(schema.inputs, operationVariables, false, v, Some(Named(kind, name))))
      decreases v, 1
    {
      if kind == InputObject {
        ok := ValidateObject(v, name);
        return;
      }
      var error := if kind == Enum then CheckEnum(schema.inputs, v, name)
                   else if kind == Scalar then CheckScalar(schema.inputs, v, name)
                   else Some(UnexpectedValueType);
      NothingAdded(Current());
      ok := error.None?;
      if !ok {
        Reject(error.value);
      }
    }

    method ValidateVariable(hasNonNullDefault: bool, name: string, t: Option<Type>) returns (ok: bool)
      requires t.Some?
      modifies this`errors, this`referencedVariables
      ensures ok <==> CheckVariable(operationVariables, hasNonNullDefault, name, t).None?
      ensures Current() ==
        old(Current()).Add(ValueFindings(schema.inputs, operationVariables, hasNonNullDefault, Variable(name), t))
    {
      NothingAdded(Current());
      if operationVariables.None? {
        return true;
      }
      if name !in operationVariables.value {
        Reject(UndefinedVariable(name));
        return false;
      }
      referencedVariables := referencedVariables + {name};
      var variable := operationVariables.value[name];
      ok := ValidateVariableType(hasNonNullDefault || variable.nonNullDefaultValue, variable.ofType, t);
    }

    method ValidateItems(items: seq<Literal>, of: Option<Type>) returns (ok: bool)
      requires Valid() && of.Some?
      modifies this`errors, this`inputTypeFields, this`referencedVariables
      ensures Valid()
      ensures ok <==> CheckItems(schema.inputs, operationVariables, items, of).None?
      ensures errors == old(errors) + Reported(CheckItems(schema.inputs, operationVariables, items, of))
      ensures referencedVariables ==
        old(referencedVariables) + MarkedInItems(schema.inputs, operationVariables, items, of)
      decreases items, 0
    {
      for i := 0 to |items|
        invariant Valid() && errors == old(errors)
        invariant CheckItems(schema.inputs, operationVariables, items, of) ==
                  CheckItems(schema.inputs, operationVariables, items[i..], of)
        invariant referencedVariables + MarkedInItems(schema.inputs, operationVariables, items[i..], of) ==
                  old(referencedVariables) + MarkedInItems(schema.inputs, operationVariables, items, of)
      {
        assert items[i..][1..] == items[i + 1..];
        CheckIsInhabits(schema.inputs, operationVariables, false, items[i], of);
        var itemOk := ValidateInputValue(false, items[i], of);
        if !itemOk {
          return false;
        }
      }
      ok := true;
    }

    method ValidateObject(v: Literal, name: string) returns (ok: bool)
      requires Valid() && !v.Variable? && !v.Null?
      modifies this`errors, this`inputTypeFields, this`referencedVariables
      ensures Valid()
      ensures ok <==> Check(schema.inputs, operationVariables, false, v, Some(Named(InputObject, name))).None?
      ensures Current() ==
        old(Current()).Add(ValueFindings(schema.inputs, operationVariables, false, v, Some(Named(InputObject, name))))
      decreases v, 0
    {
      if name == "" {
        Reject(UnknownInputObject);
        return false;
      }
      if !v.ObjectValue? {
        Reject(ExpectedInputObject(name));
        return false;
      }
      var fields := GetInputTypeFields(name);
      if fields.None? {
        Reject(ExpectedInputObjectFields(name));
        return false;
      }
      var subFields;
      ok, subFields := ValidateFields(name, v.fields);
      if ok {
        ok := ReportMissing(name, v.fields, subFields, fields.value);
      }
    }

    method ValidateFields(name: string, fields: seq<Entry<Literal>>) returns (ok: bool, subFields: set<string>)
      requires Valid() && name in schema.inputs.inputObjects
      modifies this`errors, this`inputTypeFields, this`referencedVariables
      ensures Valid()
      ensures ok <==> CheckFields(schema.inputs, operationVariables, name, fields).None?
      ensures ok ==> subFields == Names(fields)
      ensures errors == old(errors) + Reported(CheckFields(schema.inputs, operationVariables, name, fields))
      ensures referencedVariables ==
        old(referencedVariables) + MarkedInFields(schema.inputs, operationVariables, name, fields)
      decreases fields, 0
    {
      subFields := {};
      for i := 0 to |fields|
        invariant Valid() && errors == old(errors) && subFields == Names(fields[..i])
        invariant CheckFields(schema.inputs, operationVariables, name, fields) ==
                  CheckFields(schema.inputs, operationVariables, name, fields[i..])
        invariant referencedVariables + MarkedInFields(schema.inputs, operationVariables, name, fields[i..]) ==
                  old(referencedVariables) + MarkedInFields(schema.inputs, operationVariables, name, fields)
      {
        assert fields[i..][1..] == fields[i + 1..];
        var fieldOk := ValidateInputField(name, fields[i]);
        if !fieldOk {
          return false, subFields;
        }
        NamesOfPrefix(fields, i);
        subFields := subFields + {fields[i].name};
      }
      assert fields[..|fields|] == fields;
      ok := true;
    }

    method ValidateInputField(name: string, entry: Entry<Literal>) returns (ok: bool)
      requires Valid() && name in schema.inputs.inputObjects
      modifies this`errors, this`inputTypeFields, this`referencedVariables
      ensures Valid()
      ensures ok <==> CheckField(schema.inputs, operationVariables, name, entry).None?
      ensures errors == old(errors) + Reported(CheckField(schema.inputs, operationVariables, name, entry))
      ensures referencedVariables ==
        old(referencedVariables) + MarkedInField(schema.inputs, operationVariables, name, entry)
      decreases entry, 0
    {
      var fields := GetInputTypeFields(name);
      var field := Lookup(fields.value, entry.name);
      if field.None? {
        Reject(InputError.UndefinedField(name, entry.name));
        return false;
      }
      if entry.value.Null? && field.value.defaultValue {
        return true;
      }
      CheckIsInhabits(
        schema.inputs, operationVariables, field.value.nonNullDefaultValue, entry.value, field.value.ofType);
      ok := ValidateInputValue(field.value.nonNullDefaultValue, entry.value, field.value.ofType);
    }

    method ReportMissing(
      name: string, ghost fields: seq<Entry<Literal>>, subFields: set<string>, declared: Arguments)
      returns (ok: bool)
      requires subFields == Names(fields)
      modifies this`errors
      ensures ok <==> CheckRequired(name, fields, declared).None?
      ensures errors == old(errors) + Reported(CheckRequired(name, fields, declared))
    {
      for i := 0 to |declared|
        invariant errors == old(errors)
        invariant CheckRequired(name, fields, declared) == CheckRequired(name, fields, declared[i..])
      {
        var field := declared[i];
        assert declared[i..][1..] == declared[i + 1..];
        assert field.name in subFields <==> HasName(fields, field.name);
        if !field.value.defaultValue && field.name !in subFields {
          if field.value.ofType.None? {
            errors := errors + [InvalidValue(UnknownFieldType(name, field.name))];
            return false;
          }
          if field.value.ofType.value.NonNull? {
            errors := errors + [InvalidValue(MissingField(name, field.name))];
            return false;
          }
        }
      }
      ok := true;
    }

    // ---- ValidateArgumentValueVisitor, which writes to the same list of errors ----

    method ReadValue(v: Literal) returns (value: Literal)
      modifies this`errors
      ensures value == Read(v).value
      ensures errors == old(errors) + RepeatedFields(Read(v).repeated)
      decreases v, 0
    {
      match v {
        case ListValue(items) =>
          var values := ReadListValue(items);
          value := ListValue(values);
        case ObjectValue(fields) =>
          var values := ReadObjectValue(fields);
          value := ObjectValue(values);
        case _ => value := v;
      }
    }

    method ReadListValue(items: seq<Literal>) returns (values: seq<Literal>)
      modifies this`errors
      ensures values == ReadItems(items).items
      ensures errors == old(errors) + RepeatedFields(ReadItems(items).repeated)
      decreases items, 1
    {
      values := [];
      ghost var repeated: seq<string> := [];
      for i := 0 to |items|
        invariant ItemsReadOn(values, repeated, items[i..]) == ReadItems(items)
        invariant errors == old(errors) + RepeatedFields(repeated)
      {
        ItemsReadNext(values, repeated, items[i..]);
        assert items[i..][1..] == items[i + 1..];
        var item := ReadValue(items[i]);
        RepeatedInBoth(old(errors), repeated, Read(items[i]).repeated);
        values, repeated := values + [item], repeated + Read(items[i]).repeated;
      }
    }

    method ReadObjectValue(fields: seq<Entry<Literal>>) returns (values: seq<Entry<Literal>>)
      modifies this`errors
      ensures values == ReadFields([], fields).fields
      ensures errors == old(errors) + RepeatedFields(ReadFields([], fields).repeated)
      decreases fields, 1
    {
      values := [];
      ghost var repeated: seq<string> := [];
      for i := 0 to |fields|
        invariant FieldsReadOn(values, repeated, fields[i..]) == ReadFields([], fields)
        invariant errors == old(errors) + RepeatedFields(repeated)
      {
        FieldsReadNext(values, repeated, fields[i..]);
        assert fields[i..][1..] == fields[i + 1..];
        if HasName(values, fields[i].name) {
          RepeatedInBoth(old(errors), repeated, [fields[i].name]);
          Report(ConflictingInputField(fields[i].name));
          repeated := repeated + [fields[i].name];
        } else {
          RepeatedInBoth(old(errors), repeated, Read(fields[i].value).repeated);
          var first := ReadValue(fields[i].value);
          values, repeated :=
            EmplaceField(values, fields[i].name, first), repeated + Read(fields[i].value).repeated;
        }
      }
    }

    // ---- Arguments and directives ----

    method CollectArguments(owner: Owner, arguments: seq<Entry<Literal>>)
      returns (given: map<string, Literal>, names: seq<string>)
      modifies this`errors
      ensures given == Spec.CollectArguments(owner, arguments, map[]).given
      ensures names == Spec.CollectArguments(owner, arguments, map[]).names
      ensures errors == old(errors) + Spec.CollectArguments(owner, arguments, map[]).errors
    {
      given, names := map[], [];
      ghost var added: seq<Error> := [];
      for i := 0 to |arguments|
        invariant ArgumentsCollectedOn(owner, Collected(given, names, added), arguments[i..]) ==
                  Spec.CollectArguments(owner, arguments, map[])
        invariant errors == old(errors) + added
      {
        ArgumentsCollectedNext(owner, Collected(given, names, added), arguments[i..]);
        assert arguments[i..][1..] == arguments[i + 1..];
        var name := arguments[i].name;
        ghost var before := errors;
        if name in given {
          Report(ConflictingArgument(owner, name));
          added := added + [ConflictingArgument(owner, name)];
        } else {
          var value := ReadValue(arguments[i].value);
          given, names := given[name := value], names + [name];
          added := added + RepeatedFields(Read(arguments[i].value).repeated);
        }
      }
    }

    method CheckNames(owner: Owner, names: seq<string>, declared: Arguments)
      modifies this`errors
      ensures errors == old(errors) + UndefinedArguments(owner, names, declared)
    {
      for i := 0 to |names|
        invariant errors + UndefinedArguments(owner, names[i..], declared) ==
                  old(errors) + UndefinedArguments(owner, names, declared)
      {
        assert names[i..][1..] == names[i + 1..];
        if !HasName(declared, names[i]) {
          Report(UndefinedArgument(owner, names[i]));
        }
      }
    }

    method CheckArguments(owner: Owner, declared: Arguments, given: map<string, Literal>)
      requires Valid()
      modifies this`errors, this`inputTypeFields, this`referencedVariables
      ensures Valid()
      ensures Current() ==
        old(Current()).Add(AllArgumentFindings(schema.inputs, operationVariables, owner, declared, given))
    {
      for i := 0 to |declared|
        invariant Valid()
        invariant Current().Add(AllArgumentFindings(schema.inputs, operationVariables, owner, declared[i..], given)) ==
                  old(Current()).Add(AllArgumentFindings(schema.inputs, operationVariables, owner, declared, given))
      {
        assert declared[i..][1..] == declared[i + 1..];
        ghost var rest := AllArgumentFindings(schema.inputs, operationVariables, owner, declared[i + 1..], given);
        ghost var before := Current();
        CheckArgument(owner, declared[i], given);
        AddTwice(before, ArgumentFindings(schema.inputs, operationVariables, owner, declared[i], given), rest);
      }
      NothingAdded(Current());
    }

    method CheckArgument(owner: Owner, declared: Entry<Argument>, given: map<string, Literal>)
      requires Valid()
      modifies this`errors, this`inputTypeFields, this`referencedVariables
      ensures Valid()
      ensures Current() ==
        old(Current()).Add(ArgumentFindings(schema.inputs, operationVariables, owner, declared, given))
    {
      var name, argument := declared.name, declared.value;
      if name in given && !given[name].Null? {
        CheckIsInhabits(
          schema.inputs, operationVariables, argument.nonNullDefaultValue, given[name], argument.ofType);
        var ok := ValidateInputValue(argument.nonNullDefaultValue, given[name], argument.ofType);
        if !ok {
          Report(IncompatibleArgument(owner, name));
        }
        return;
      }
      NothingAdded(Current());
      if argument.defaultValue {
        return;
      }
      if argument.ofType.Some? && argument.ofType.value.NonNull? {
        Report(if name in given then RequiredNonNullArgument(owner, name) else MissingArgument(owner, name));
      }
    }

    method VisitDirectives(location: Location, directives: seq<Directive>)
      requires Valid()
      modifies this`errors, this`inputTypeFields, this`referencedVariables
      ensures Valid()
      ensures Current() == WithDirectives(schema, old(Current()), location, directives)
    {
      var uniqueDirectives: set<string> := {};
      ghost var seen: set<string> := {};
      ghost var all := AllDirectiveFindings(schema, operationVariables, location, directives, {});
      for i := 0 to |directives|
        invariant Valid()
        invariant forall name :: name in uniqueDirectives <==> name in seen && IsUnique(schema, name)
        invariant Current().Add(AllDirectiveFindings(schema, operationVariables, location, directives[i..], seen)) ==
                  old(Current()).Add(all)
      {
        var name := directives[i].name;
        ghost var before := Current();
        ghost var rest :=
          AllDirectiveFindings(schema, operationVariables, location, directives[i + 1..], seen + {name});
        ghost var first :=
          DirectiveFindings(schema, operationVariables, location, directives[i], name in uniqueDirectives);
        DirectivesStep(schema, operationVariables, location, directives[i..], seen);
        assert directives[i..][1..] == directives[i + 1..];
        VisitDirective(location, directives[i], name in uniqueDirectives);
        AddTwice(before, first, rest);
        if name in schema.directives && !schema.directives[name].isRepeatable {
          uniqueDirectives := uniqueDirectives + {name};
        }
        seen := seen + {name};
      }
      NothingAdded(Current());
    }

    method VisitDirective(location: Location, directive: Directive, repeated: bool)
      requires Valid()
      modifies this`errors, this`inputTypeFields, this`referencedVariables
      ensures Valid()
      ensures Current() ==
        old(Current()).Add(DirectiveFindings(schema, operationVariables, location, directive, repeated))
    {
      if directive.name !in schema.directives {
        Report(UndefinedDirective(directive.name));
        return;
      }
      if repeated {
        Report(ConflictingDirective(directive.name));
        return;
      }
      var rule := schema.directives[directive.name];
      if location !in rule.locations {
        Report(UnexpectedLocation(directive.name));
        return;
      }
      if directive.arguments == [] {
        NothingAdded(Current());
        return;
      }
      var owner := OfDirective(directive.name);
      ghost var collected := Spec.CollectArguments(owner, directive.arguments, map[]);
      ghost var before := Current();
      var given, names := CollectArguments(owner, directive.arguments);
      CheckNames(owner, names, rule.arguments);
      ghost var named := Findings(collected.errors + UndefinedArguments(owner, names, rule.arguments), {});
      assert Current() == before.Add(named);
      CheckArguments(owner, rule.arguments, given);
      AddTwice(
        before, named, AllArgumentFindings(schema.inputs, operationVariables, owner, rule.arguments, given));
    }

    // ---- Selections ----

    method VisitSelection(selections: seq<Selection>)
      requires Valid() && scopedType.Some?
      modifies this
      ensures Valid() && fragmentDefinitions == old(fragmentDefinitions) && fragmentNames == old(fragmentNames)
      ensures Current() == Spec.VisitSelection(schema, fragmentDefinitions, old(Current()), selections)
      decreases fragmentDefinitions.Keys - fragmentStack, selections, 0
    {
      for i := 0 to |selections|
        invariant Valid() && fragmentDefinitions == old(fragmentDefinitions) && scopedType.Some?
        invariant fragmentNames == old(fragmentNames)
        invariant fragmentStack == old(fragmentStack)
        invariant Spec.VisitSelection(schema, fragmentDefinitions, old(Current()), selections) ==
                  Spec.VisitSelection(schema, fragmentDefinitions, Current(), selections[i..])
      {
        assert selections[i..][1..] == selections[i + 1..];
        match selections[i] {
          case Field(_, _, _, _, _) => VisitField(selections[i]);
          case FragmentSpread(_, _) => VisitFragmentSpread(selections[i]);
          case InlineFragment(_, _, _) => VisitInlineFragment(selections[i]);
        }
      }
    }

    method VisitField(field: Selection)
      requires Valid() && scopedType.Some? && field.Field?
      modifies this
      ensures Valid() && fragmentDefinitions == old(fragmentDefinitions) && fragmentNames == old(fragmentNames)
      ensures Current() == Spec.VisitField(schema, fragmentDefinitions, old(Current()), field)
      decreases fragmentDefinitions.Keys - fragmentStack, field, 1
    {
      EnteringKeeps(schema, Current(), field);
      VisitDirectives(FieldLocation, field.directives);
      var inner := BeginField(field);
      if inner.None? {
        return;
      }
      VisitSubSelection(field, inner.value);
    }

    /** The rest of visitField: a selection of its own, then back to the outer one. */
    method VisitSubSelection(field: Selection, inner: NamedType)
      requires Valid() && scopedType.Some? && field.Field?
      modifies this
      ensures Valid() && fragmentDefinitions == old(fragmentDefinitions) && fragmentNames == old(fragmentNames)
      ensures Current() ==
        Spec.VisitSubSelection(schema, fragmentDefinitions, old(Current()), inner, field)
      decreases fragmentDefinitions.Keys - fragmentStack, field, 0
    {
      var subFieldCount := 0;
      if field.selectionSet.Selections? {
        var outerType, outerFields := scopedType, selectionFields;
        var outerFieldCount, outerIntrospectionFieldCount := fieldCount, introspectionFieldCount;
        fieldCount, introspectionFieldCount := 0, 0;
        selectionFields := map[];
        scopedType := Some(inner);
        assert Current() == Descend(old(Current()), inner);
        VisitSelection(field.selectionSet.selections);
        ghost var sub := Current();
        scopedType, selectionFields := outerType, outerFields;
        subFieldCount := fieldCount;
        fieldCount, introspectionFieldCount := outerFieldCount, outerIntrospectionFieldCount;
        assert Current() == Ascend(old(Current()), sub);
      }
      CountField(field.name, inner, subFieldCount);
    }

    /** The end of visitField. */
    method CountField(name: string, inner: NamedType, subFieldCount: nat)
      modifies this`errors, this`fieldCount, this`introspectionFieldCount
      ensures Current() == LeaveField(old(Current()), name, inner, subFieldCount)
    {
      if subFieldCount == 0 && !IsLeafKind(inner.kind) {
        Report(MissingSelectionSet(inner.name));
        return;
      }
      fieldCount := fieldCount + 1;
      if IsIntrospectionName(name) {
        introspectionFieldCount := introspectionFieldCount + 1;
      }
    }

    /** The part of visitField between its directives and its selection; None when it returns there. */
    method BeginField(field: Selection) returns (inner: Option<NamedType>)
      requires Valid() && scopedType.Some? && field.Field?
      modifies this`errors, this`inputTypeFields, this`referencedVariables, this`selectionFields
      ensures Valid()
      ensures Current() == EnterInScope(schema, old(Current()), field).state
      ensures inner == match EnterInScope(schema, old(Current()), field)
                       case Done(_) => None
                       case Entered(_, innermost) => Some(innermost)
    {
      var scope := scopedType.value;
      if IsLeafKind(scope.kind) || scope.name !in schema.typeFields {
        Report(FieldOnScalar(scope.name, field.name));
        return None;
      }
      var fields := schema.typeFields[scope.name];
      var wrapped: Option<Type> := None;
      if scope.kind == Union {
        if field.name != "__typename" {
          Report(FieldOnUnion(scope.name, field.name));
          return None;
        }
        wrapped := Some(NonNull(Some(Named(Scalar, "String"))));
      } else if field.name in fields {
        wrapped := Some(fields[field.name].returnType);
      }
      inner := Innermost(wrapped);
      if inner.None? {
        Report(Error.UndefinedField(scope.name, field.name));
        return None;
      }
      var selected := MergeField(field, wrapped.value, fields, inner.value);
      if !selected {
        inner := None;
      }
    }

    method MergeField(field: Selection, wrapped: Type, fields: map<string, FieldType>, ghost inner: NamedType)
      returns (selected: bool)
      requires Valid() && scopedType.Some? && field.Field? && scopedType.value.name in schema.typeFields
      requires fields == schema.typeFields[scopedType.value.name]
      modifies this`errors, this`inputTypeFields, this`referencedVariables, this`selectionFields
      ensures Valid()
      ensures Current() == SelectField(schema, old(Current()), field, wrapped, inner).state
      ensures selected <==> SelectField(schema, old(Current()), field, wrapped, inner).Entered?
    {
      var scope := scopedType.value;
      var alias := ResponseName(field);
      var owner := OfField(field.name);
      var given, names := CollectArguments(owner, field.arguments);
      var validated :=
        ValidatedField(wrapped, if scope.kind == Object then Some(scope) else None, field.name, given);
      if alias in selectionFields {
        if Mergeable(selectionFields[alias], validated) {
          return false;
        }
        Report(ConflictingField(scope.name, field.name));
      }
      if field.name in fields {
        CheckFieldArguments(field, names, given, fields[field.name].arguments);
      }
      if alias !in selectionFields {
        selectionFields := selectionFields[alias := validated];
      }
      selected := true;
    }

    method CheckFieldArguments(field: Selection, names: seq<string>, given: map<string, Literal>, declared: Arguments)
      requires Valid() && field.Field?
      requires names == Spec.CollectArguments(OfField(field.name), field.arguments, map[]).names
      requires given == Spec.CollectArguments(OfField(field.name), field.arguments, map[]).given
      modifies this`errors, this`inputTypeFields, this`referencedVariables
      ensures Valid()
      ensures Current() == old(Current()).Add(FieldArgumentFindings(
        schema, operationVariables, field.name, declared,
        Spec.CollectArguments(OfField(field.name), field.arguments, map[])))
    {
      var owner := OfField(field.name);
      ghost var before := Current();
      CheckNames(owner, names, declared);
      ghost var named := Findings(UndefinedArguments(owner, names, declared), {});
      assert Current() == before.Add(named);
      CheckArguments(owner, declared, given);
      AddTwice(before, named, AllArgumentFindings(schema.inputs, operationVariables, owner, declared, given));
    }

    method VisitFragmentSpread(spread: Selection)
      requires Valid() && scopedType.Some? && spread.FragmentSpread?
      modifies this
      ensures Valid() && fragmentDefinitions == old(fragmentDefinitions) && fragmentNames == old(fragmentNames)
      ensures Current() == Spec.VisitFragmentSpread(schema, fragmentDefinitions, old(Current()), spread)
      decreases fragmentDefinitions.Keys - fragmentStack, spread, 0
    {
      VisitDirectives(FragmentSpreadLocation, spread.directives);
      var name := spread.name;
      if name !in fragmentDefinitions {
        Report(UndefinedFragment(name));
        return;
      }
      if name in fragmentStack {
        if name !in fragmentCycles {
          fragmentCycles := fragmentCycles + {name};
          Report(CyclicFragment(name));
        }
        return;
      }
      var fragment := fragmentDefinitions[name];
      if fragment.typeCondition !in schema.types ||
         !MatchesScopedType(schema, scopedType.value, fragment.typeCondition) {
        Report(IncompatibleSpread(fragment.typeCondition, name));
        return;
      }
      ghost var st := Current();
      var outerType := scopedType;
      assert name in fragmentDefinitions.Keys - fragmentStack;
      fragmentStack := fragmentStack + {name};
      scopedType := Some(NamedType(schema.types[fragment.typeCondition], fragment.typeCondition));
      assert Current() == EnterFragment(schema, st, fragment, name);
      VisitSelection(fragment.selections);
      scopedType := outerType;
      fragmentStack := fragmentStack - {name};
      referencedFragments := referencedFragments + {name};
    }

    method VisitInlineFragment(inline: Selection)
      requires Valid() && scopedType.Some? && inline.InlineFragment?
      modifies this
      ensures Valid() && fragmentDefinitions == old(fragmentDefinitions) && fragmentNames == old(fragmentNames)
      ensures Current() == Spec.VisitInlineFragment(schema, fragmentDefinitions, old(Current()), inline)
      decreases fragmentDefinitions.Keys - fragmentStack, inline, 0
    {
      VisitDirectives(InlineFragmentLocation, inline.directives);
      var typeCondition := inline.typeCondition;
      var fragmentType := scopedType;
      if typeCondition != "" {
        if typeCondition !in schema.types {
          Report(UndefinedInlineTarget(typeCondition));
          return;
        }
        fragmentType := Some(NamedType(schema.types[typeCondition], typeCondition));
        if IsLeafKind(fragmentType.value.kind) {
          Report(ScalarInlineTarget(typeCondition));
          return;
        }
        if !MatchesScopedType(schema, scopedType.value, typeCondition) {
          Report(IncompatibleInlineTarget(typeCondition));
          return;
        }
      }
      var outerType := scopedType;
      scopedType := fragmentType;
      VisitSelection(inline.selections);
      scopedType := outerType;
    }

    // ---- Definitions ----

    method VisitFragmentDefinition(fragment: Fragment)
      requires Valid()
      modifies this
      ensures Valid() && fragmentDefinitions == old(fragmentDefinitions) && fragmentNames == old(fragmentNames)
      ensures Current() ==
        Spec.VisitFragmentDefinition(schema, fragmentDefinitions, old(Current()), fragment)
    {
      VisitDirectives(FragmentDefinitionLocation, fragment.directives);
      if fragment.typeCondition !in schema.types || IsLeafKind(schema.types[fragment.typeCondition]) {
        Report(InvalidFragmentTarget(fragment.name, fragment.typeCondition));
        return;
      }
      ghost var st := Current();
      fragmentStack := fragmentStack + {fragment.name};
      scopedType := Some(NamedType(schema.types[fragment.typeCondition], fragment.typeCondition));
      assert Current() == EnterFragment(schema, st, fragment, fragment.name);
      VisitSelection(fragment.selections);
      scopedType := None;
      fragmentStack := {};
      selectionFields := map[];
    }

    method DefineVariable(operation: string, v: VariableDefinition)
      requires Valid() && operationVariables.Some?
      modifies this`errors, this`inputTypeFields, this`referencedVariables
      modifies this`operationVariables, this`variableDefinitions
      ensures Valid()
      ensures Current() == Spec.DefineVariable(schema, old(Current()), operation, v)
    {
      if v.name in operationVariables.value {
        Report(ConflictingVariable(operation, v.name));
        return;
      }
      var ofType := VariableType(schema, v.tree);
      if ofType.None? {
        Report(InvalidVariableType(operation, v.name));
        return;
      }
      var argument := Argument(false, false, ofType);
      if v.defaultValue.Some? {
        ghost var before := Current();
        var value := ReadValue(v.defaultValue.value);
        ghost var repeated := Findings(RepeatedFields(Read(v.defaultValue.value).repeated), {});
        assert Current() == before.Add(repeated);
        CheckIsInhabits(schema.inputs, operationVariables, false, value, ofType);
        var ok := ValidateInputValue(false, value, ofType);
        AddTwice(before, repeated, ValueFindings(schema.inputs, operationVariables, false, value, ofType));
        if !ok {
          Report(IncompatibleVariableDefault(operation, v.name));
          return;
        }
        argument := Argument(true, !value.Null?, ofType);
      }
      variableDefinitions := SetEmplace(ShorterOrLess, variableDefinitions, v.name);
      operationVariables := Some(operationVariables.value[v.name := argument]);
    }

    method DefineVariables(operation: string, variables: seq<VariableDefinition>)
      requires Valid() && operationVariables.Some?
      modifies this`errors, this`inputTypeFields, this`referencedVariables
      modifies this`operationVariables, this`variableDefinitions
      ensures Valid() && operationVariables.Some?
      ensures Current() == Spec.DefineVariables(schema, old(Current()), operation, variables)
    {
      for i := 0 to |variables|
        invariant Valid() && operationVariables.Some?
        invariant Spec.DefineVariables(schema, old(Current()), operation, variables) ==
                  Spec.DefineVariables(schema, Current(), operation, variables[i..])
      {
        assert variables[i..][1..] == variables[i + 1..];
        DefineVariable(operation, variables[i]);
      }
    }

    method ReportUnusedVariables()
      modifies this`errors
      ensures errors == old(errors) + UnusedVariables(variableDefinitions, referencedVariables)
    {
      for i := 0 to |variableDefinitions|
        invariant errors + UnusedVariables(variableDefinitions[i..], referencedVariables) ==
                  old(errors) + UnusedVariables(variableDefinitions, referencedVariables)
      {
        assert variableDefinitions[i..][1..] == variableDefinitions[i + 1..];
        if variableDefinitions[i] !in referencedVariables {
          Report(UnusedVariable(variableDefinitions[i]));
        }
      }
    }

    method ReportSubscription(operation: Operation)
      modifies this`errors
      ensures Current() == SubscriptionErrors(old(Current()), operation)
    {
      if operation.kind == "subscription" {
        if fieldCount > 1 {
          Report(SeveralRootFields(operation.name));
        }
        if introspectionFieldCount != 0 {
          Report(IntrospectionRootField(operation.name));
        }
      }
    }

    method StartOperation(operation: Operation)
      requires Valid()
      modifies this`errors, this`inputTypeFields, this`referencedVariables
      modifies this`operationVariables, this`variableDefinitions
      ensures Valid()
      ensures Current() == BeginOperation(schema, old(Current()), operation)
    {
      operationVariables := Some(map[]);
      DefineVariables(operation.name, operation.variables);
      VisitDirectives(OperationLocation(operation.kind), operation.directives);
    }

    /** From the root type to the checks of a subscription. */
    method VisitRoot(operation: Operation)
      requires Valid() && operation.kind in schema.operationTypes
      modifies this
      ensures Valid() && fragmentDefinitions == old(fragmentDefinitions) && fragmentNames == old(fragmentNames)
      ensures Current() == VisitOperationRoot(schema, fragmentDefinitions, old(Current()), operation)
    {
      scopedType := Some(schema.operationTypes[operation.kind]);
      fieldCount, introspectionFieldCount := 0, 0;
      VisitSelection(operation.selections);
      ReportSubscription(operation);
    }

    method VisitOperationDefinition(operation: Operation)
      requires Valid()
      modifies this
      ensures Valid() && fragmentDefinitions == old(fragmentDefinitions) && fragmentNames == old(fragmentNames)
      ensures Current() ==
        Spec.VisitOperationDefinition(schema, fragmentDefinitions, old(Current()), operation)
    {
      StartOperation(operation);
      if operation.kind !in schema.operationTypes {
        Report(UnsupportedOperation(operation.kind));
        return;
      }
      VisitRoot(operation);
      EndOperation();
    }

    /** The end of visitOperationDefinition. */
    method EndOperation()
      modifies this
      ensures inputTypeFields == old(inputTypeFields) && fragmentDefinitions == old(fragmentDefinitions)
      ensures fragmentNames == old(fragmentNames)
      ensures Current() == LeaveOperation(LeaveDefinition(old(Current())))
    {
      scopedType := None;
      fragmentStack := {};
      selectionFields := map[];
      ReportUnusedVariables();
      operationVariables, variableDefinitions, referencedVariables := None, [], {};
    }

    method VisitDefinition(definition: Definition)
      requires Valid()
      modifies this
      ensures Valid() && fragmentDefinitions == old(fragmentDefinitions) && fragmentNames == old(fragmentNames)
      ensures Current() == Spec.VisitDefinition(schema, fragmentDefinitions, old(Current()), definition)
    {
      match definition {
        case FragmentDefinition(fragment) => VisitFragmentDefinition(fragment);
        case OperationDefinition(operation) => VisitOperationDefinition(operation);
        case TypeDefinition => Report(UnexpectedTypeDefinition);
      }
    }

    method CollectFragmentDefinitions(document: seq<Definition>)
      requires fragmentDefinitions == map[] && fragmentNames == []
      modifies this`errors, this`fragmentDefinitions, this`fragmentNames
      ensures fragmentDefinitions == FragmentsOf(document) && fragmentNames == FragmentNames(document)
      ensures errors == old(errors) + CollectFragments(document, map[]).1
    {
      ghost var added: seq<Error> := [];
      assert document[0..] == document;
      for i := 0 to |document|
        invariant errors == old(errors) + added
        invariant CollectFragments(document[i..], fragmentDefinitions).0 == CollectFragments(document, map[]).0
        invariant added + CollectFragments(document[i..], fragmentDefinitions).1 == CollectFragments(document, map[]).1
        invariant CollectNames(document[i..], fragmentNames) == FragmentNames(document)
      {
        assert document[i..][1..] == document[i + 1..];
        if document[i].FragmentDefinition? {
          var fragment := document[i].fragment;
          fragmentNames := SetEmplace(ShorterOrLess, fragmentNames, fragment.name);
          if fragment.name in fragmentDefinitions {
            Report(DuplicateFragment(fragment.name));
            added := added + [DuplicateFragment(fragment.name)];
            assert [DuplicateFragment(fragment.name)] + CollectFragments(document[i + 1..], fragmentDefinitions).1 ==
                   CollectFragments(document[i..], fragmentDefinitions).1;
          } else {
            fragmentDefinitions := fragmentDefinitions[fragment.name := fragment];
          }
        }
      }
    }

    method CollectOperationDefinitions(document: seq<Definition>) returns (names: set<string>)
      modifies this`errors
      ensures names == CollectOperations(document, {}).0
      ensures errors == old(errors) + CollectOperations(document, {}).1
    {
      names := {};
      ghost var added: seq<Error> := [];
      assert document[0..] == document;
      for i := 0 to |document|
        invariant errors == old(errors) + added
        invariant CollectOperations(document[i..], names).0 == CollectOperations(document, {}).0
        invariant added + CollectOperations(document[i..], names).1 == CollectOperations(document, {}).1
      {
        assert document[i..][1..] == document[i + 1..];
        if document[i].OperationDefinition? {
          var name := document[i].operation.name;
          if name in names {
            Report(DuplicateOperation(name));
            added := added + [DuplicateOperation(name)];
          }
          names := names + {name};
        }
      }
    }

    method ReportUnusedFragments()
      modifies this`errors
      ensures errors == old(errors) + UnusedFragments(fragmentNames, referencedFragments)
    {
      for i := 0 to |fragmentNames|
        invariant errors + UnusedFragments(fragmentNames[i..], referencedFragments) ==
                  old(errors) + UnusedFragments(fragmentNames, referencedFragments)
      {
        assert fragmentNames[i..][1..] == fragmentNames[i + 1..];
        if fragmentNames[i] !in referencedFragments {
          Report(UnusedFragment(fragmentNames[i]));
        }
      }
    }

    /** visit(root): the whole document. */
    method VisitDocument(document: seq<Definition>)
      requires Valid() && fragmentDefinitions == map[] && fragmentNames == []
      modifies this
      ensures Valid() && fragmentDefinitions == map[] && fragmentNames == []
      ensures Current() == Validate(schema, old(Current()), document)
    {
      CollectFragmentDefinitions(document);
      var operationDefinitions := CollectOperationDefinitions(document);
      if |operationDefinitions| > 1 && "" in operationDefinitions {
        Report(AnonymousOperationNotAlone);
      }
      ghost var fragments := FragmentsOf(document);
      ghost var started := Current();
      assert started == old(Current()).(errors := old(errors) + DefinitionErrors(document));
      for i := 0 to |document|
        invariant Valid() && fragmentDefinitions == fragments && fragmentNames == FragmentNames(document)
        invariant VisitDefinitions(schema, fragments, started, document) ==
                  VisitDefinitions(schema, fragments, Current(), document[i..])
      {
        assert document[i..][1..] == document[i + 1..];
        VisitDefinition(document[i]);
      }
      ReportUnusedFragments();
      fragmentDefinitions, fragmentNames := map[], [];
    }

    /** Hands over the errors; what an unsupported operation left of its variables stays. */
    method GetStructuredErrors() returns (reported: seq<Error>)
      requires Valid()
      modifies this
      ensures Valid() && reported == old(errors)
      ensures Current() == AfterReport(old(Current()))
      ensures fragmentDefinitions == map[] && fragmentNames == []
      ensures Idle(old(Current())) ==> Ready(Current())
    {
      reported := errors;
      errors := [];
      fragmentDefinitions, fragmentNames := map[], [];
      referencedFragments := {};
      fragmentCycles := {};
    }
  }

  lemma RepeatedInBoth(before: seq<Error>, left: seq<string>, right: seq<string>)
    ensures before + RepeatedFields(left) + RepeatedFields(right) == before + RepeatedFields(left + right)
  {
    assert RepeatedFields(left + right) == RepeatedFields(left) + RepeatedFields(right);
  }

  /** What has been read of a list, and then the rest. */
  ghost function ItemsReadOn(values: seq<Literal>, repeated: seq<string>, items: seq<Literal>): ItemsReading {
    ItemsReading(values + ReadItems(items).items, repeated + ReadItems(items).repeated)
  }

  lemma ItemsReadNext(values: seq<Literal>, repeated: seq<string>, items: seq<Literal>)
    requires items != []
    ensures var first := Read(items[0]);
            ItemsReadOn(values, repeated, items) ==
            ItemsReadOn(values + [first.value], repeated + first.repeated, items[1..])
  {
    var first, rest := Read(items[0]), ReadItems(items[1..]);
    assert values + ([first.value] + rest.items) == values + [first.value] + rest.items;
    assert repeated + (first.repeated + rest.repeated) == repeated + first.repeated + rest.repeated;
  }

  ghost function FieldsReadOn(
    values: seq<Entry<Literal>>, repeated: seq<string>, fields: seq<Entry<Literal>>): FieldsReading
  {
    FieldsReading(ReadFields(values, fields).fields, repeated + ReadFields(values, fields).repeated)
  }

  lemma FieldsReadNext(values: seq<Entry<Literal>>, repeated: seq<string>, fields: seq<Entry<Literal>>)
    requires fields != []
    ensures var name, first := fields[0].name, Read(fields[0].value);
            FieldsReadOn(values, repeated, fields) ==
            if HasName(values, name) then FieldsReadOn(values, repeated + [name], fields[1..])
            else FieldsReadOn(EmplaceField(values, name, first.value), repeated + first.repeated, fields[1..])
  {
    var name, first := fields[0].name, Read(fields[0].value);
    if HasName(values, name) {
      var rest := ReadFields(values, fields[1..]).repeated;
      assert repeated + ([name] + rest) == repeated + [name] + rest;
    } else {
      var rest := ReadFields(EmplaceField(values, name, first.value), fields[1..]).repeated;
      assert repeated + (first.repeated + rest) == repeated + first.repeated + rest;
    }
  }

  ghost function ArgumentsCollectedOn(owner: Owner, done: Collected, arguments: seq<Entry<Literal>>): Collected {
    var rest := Spec.CollectArguments(owner, arguments, done.given);
    Collected(rest.given, done.names + rest.names, done.errors + rest.errors)
  }

  lemma ArgumentsCollectedNext(owner: Owner, done: Collected, arguments: seq<Entry<Literal>>)
    requires arguments != []
    ensures var name, reading := arguments[0].name, Read(arguments[0].value);
            ArgumentsCollectedOn(owner, done, arguments) ==
            if name in done.given then
              ArgumentsCollectedOn(
                owner, done.(errors := done.errors + [ConflictingArgument(owner, name)]), arguments[1..])
            else
              ArgumentsCollectedOn(
                owner,
                Collected(
                  done.given[name := reading.value], done.names + [name],
                  done.errors + RepeatedFields(reading.repeated)),
                arguments[1..])
  {
    var name, reading := arguments[0].name, Read(arguments[0].value);
    if name in done.given {
      var rest := Spec.CollectArguments(owner, arguments[1..], done.given);
      assert done.errors + ([ConflictingArgument(owner, name)] + rest.errors) ==
             done.errors + [ConflictingArgument(owner, name)] + rest.errors;
    } else {
      var rest := Spec.CollectArguments(owner, arguments[1..], done.given[name := reading.value]);
      assert done.names + ([name] + rest.names) == done.names + [name] + rest.names;
      assert done.errors + (RepeatedFields(reading.repeated) + rest.errors) ==
             done.errors + RepeatedFields(reading.repeated) + rest.errors;
    }
  }

  lemma DirectivesStep(
    schema: Schema, variables: Option<Variables>, location: Location, directives: seq<Directive>, seen: set<string>)
    requires directives != []
    ensures var name := directives[0].name;
            AllDirectiveFindings(schema, variables, location, directives, seen) ==
            DirectiveFindings(schema, variables, location, directives[0], name in seen && IsUnique(schema, name))
              .Then(AllDirectiveFindings(schema, variables, location, directives[1..], seen + {name}))
  {
  }

  lemma AddTwice(st: State, first: Findings, second: Findings)
    ensures st.Add(first).Add(second) == st.Add(first.Then(second))
  {
    assert st.errors + first.errors + second.errors == st.errors + (first.errors + second.errors);
  }

  lemma NamesOfPrefix(fields: seq<Entry<Literal>>, i: nat)
    requires i < |fields|
    ensures Names(fields[..i + 1]) == Names(fields[..i]) + {fields[i].name}
  {
    assert fields[..i + 1] == fields[..i] + [fields[i]];
    forall name | name in Names(fields[..i]) + {fields[i].name}
      ensures name in Names(fields[..i + 1])
    {
      if name == fields[i].name {
        assert fields[..i + 1][i].name == name;
      } else {
        var k :| 0 <= k < i && fields[..i][k].name == name;
        assert fields[..i + 1][k].name == name;
      }
    }
  }
}
