/**
 validateInputValue: does a literal of a document fit an input type?
 Variables stand for values supplied later; in a fragment definition (no operation
 variables) any variable is accepted.
 */
module InputValues {
  import opened Common
  import opened GraphQLTypes
  import opened SortedContainers
  import opened VariableUsage

  datatype Literal =
    | Variable(name: string)
    | Null
    | IntValue(number: int)
    | FloatValue(decimal: real)
    | StringValue(text: string)
    | BooleanValue(flag: bool)
    | EnumValue(symbol: string)
    | ListValue(items: seq<Literal>)
    | ObjectValue(fields: seq<Entry<Literal>>)

  /** ValidateArgument: an argument, an input field or an operation variable. */
  datatype Argument = Argument(defaultValue: bool, nonNullDefaultValue: bool, ofType: Option<Type>)

  type Arguments = seq<Entry<Argument>>

  type Variables = map<string, Argument>

  datatype InputSchema = InputSchema(
    inputObjects: map<string, Arguments>,
    enumValues: map<string, set<string>>,
    scalars: set<string>)

  datatype InputError =
    | UnknownType
    | UndefinedVariable(name: string)
    | Usage(usage: UsageError)
    | ExpectedNonNull
    | UnknownNonNullType
    | ExpectedList
    | UnknownListType
    | UnknownInputObject
    | ExpectedInputObject(name: string)
    | ExpectedInputObjectFields(name: string)
    | UndefinedField(typeName: string, name: string)
    | UnknownFieldType(typeName: string, name: string)
    | MissingField(typeName: string, name: string)
    | UnknownEnum
    | ExpectedEnum(name: string)
    | UndefinedEnumValue(name: string, symbol: string)
    | UnknownScalar
    | ExpectedScalar(name: string)
    | UndefinedScalar(name: string)
    | UnexpectedValueType

  // ---- What the source computes ----

  /** The one error validateInputValue reports, or None when it returns true. */
  function Check(s: InputSchema, vars: Option<Variables>, hasNonNullDefault: bool, v: Literal, t: Option<Type>)
    : Option<InputError>
    decreases v, t, 1
  {
    if t.None? then Some(UnknownType)
    else if v.Variable? then CheckVariable(vars, hasNonNullDefault, v.name, t)
    else if v.Null? then
      if t.value.NonNull? && !hasNonNullDefault then Some(ExpectedNonNull) else None
    else
      match t.value
      case NonNull(of) =>
        if of.None? then Some(UnknownNonNullType) else Check(s, vars, hasNonNullDefault, v, of)
      case List(of) =>
        if !v.ListValue? then Some(ExpectedList)
        else if of.None? then Some(UnknownListType)
        else CheckItems(s, vars, v.items, of)
      case Named(kind, name) =>
        if kind == InputObject then
          if name == "" then Some(UnknownInputObject)
          else if !v.ObjectValue? then Some(ExpectedInputObject(name))
          else if name !in s.inputObjects then Some(ExpectedInputObjectFields(name))
          else
            var field := CheckFields(s, vars, name, v.fields);
            if field.Some? then field
            else CheckRequired(name, v.fields, s.inputObjects[name])
        else if kind == Enum then CheckEnum(s, v, name)
        else if kind == Scalar then CheckScalar(s, v, name)
        else Some(UnexpectedValueType)
  }

  function CheckVariable(vars: Option<Variables>, hasNonNullDefault: bool, name: string, t: Option<Type>)
    : Option<InputError>
  {
    if vars.None? then None
    else if name !in vars.value then Some(UndefinedVariable(name))
    else
      var variable := vars.value[name];
      var usage := CheckVariableType(hasNonNullDefault || variable.nonNullDefaultValue, variable.ofType, t);
      if usage.Some? then Some(Usage(usage.value)) else None
  }

  function CheckItems(s: InputSchema, vars: Option<Variables>, items: seq<Literal>, t: Option<Type>)
    : Option<InputError>
    decreases items, t, 0
  {
    if items == [] then None
    else
      var first := Check(s, vars, false, items[0], t);
      if first.Some? then first else CheckItems(s, vars, items[1..], t)
  }

  function CheckFields(s: InputSchema, vars: Option<Variables>, typeName: string, fields: seq<Entry<Literal>>)
    : Option<InputError>
    requires typeName in s.inputObjects
    decreases fields
  {
    if fields == [] then None
    else
      var first := CheckField(s, vars, typeName, fields[0]);
      if first.Some? then first else CheckFields(s, vars, typeName, fields[1..])
  }

  function CheckField(s: InputSchema, vars: Option<Variables>, typeName: string, entry: Entry<Literal>)
    : Option<InputError>
    requires typeName in s.inputObjects
    decreases entry
  {
    var field := Lookup(s.inputObjects[typeName], entry.name);
    if field.None? then Some(UndefinedField(typeName, entry.name))
    else if entry.value.Null? && field.value.defaultValue then None
    else Check(s, vars, field.value.nonNullDefaultValue, entry.value, field.value.ofType)
  }

  function CheckRequired(typeName: string, fields: seq<Entry<Literal>>, declared: Arguments): Option<InputError> {
    if declared == [] then None
    else
      var field := declared[0];
      if field.value.defaultValue || HasName(fields, field.name) then CheckRequired(typeName, fields, declared[1..])
      else if field.value.ofType.None? then Some(UnknownFieldType(typeName, field.name))
      else if field.value.ofType.value.NonNull? then Some(MissingField(typeName, field.name))
      else CheckRequired(typeName, fields, declared[1..])
  }

  function CheckEnum(s: InputSchema, v: Literal, name: string): Option<InputError> {
    if name == "" then Some(UnknownEnum)
    else if !v.EnumValue? then Some(ExpectedEnum(name))
    else if name !in s.enumValues || v.symbol !in s.enumValues[name] then Some(UndefinedEnumValue(name, v.symbol))
    else None
  }

  predicate ScalarAccepts(name: string, v: Literal) {
    if name == "Int" then v.IntValue?
    else if name == "Float" then v.FloatValue? || v.IntValue?
    else if name == "String" || name == "ID" then v.StringValue?
    else if name == "Boolean" then v.BooleanValue?
    else true
  }

  /** Anything may be given for a custom scalar; the literals of a built-in one are told apart by LiteralValues. */
  lemma CustomScalarsAcceptAnything(name: string, v: Literal)
    requires name !in {"Int", "Float", "String", "ID", "Boolean"}
    ensures ScalarAccepts(name, v)
  {
  }

  function CheckScalar(s: InputSchema, v: Literal, name: string): Option<InputError> {
    if name == "" then Some(UnknownScalar)
    else if !ScalarAccepts(name, v) then Some(ExpectedScalar(name))
    else if name !in s.scalars then Some(UndefinedScalar(name))
    else None
  }

  // ---- What it means ----

  /** The literal is a value of the type under the strict rules: no single-value list coercion. */
  predicate Inhabits(s: InputSchema, vars: Option<Variables>, hasNonNullDefault: bool, v: Literal, t: Option<Type>)
    decreases v, t
  {
    if t.None? then false
    else if v.Variable? then
      vars.Some? ==>
        v.name in vars.value &&
        CheckVariableType(
          hasNonNullDefault || vars.value[v.name].nonNullDefaultValue, vars.value[v.name].ofType, t).None?
    else if v.Null? then t.value.NonNull? ==> hasNonNullDefault
    else if t.value.NonNull? then Inhabits(s, vars, hasNonNullDefault, v, t.value.ofType)
    else if t.value.List? then
      v.ListValue? && t.value.ofType.Some? &&
      forall item | item in v.items :: Inhabits(s, vars, false, item, t.value.ofType)
    else if t.value.name == "" then false
    else if t.value.kind == InputObject then
      && v.ObjectValue? && t.value.name in s.inputObjects
      && (forall entry | entry in v.fields :: FieldInhabits(s, vars, t.value.name, entry))
      && RequiredPresent(v.fields, s.inputObjects[t.value.name])
    else if t.value.kind == Enum then
      v.EnumValue? && t.value.name in s.enumValues && v.symbol in s.enumValues[t.value.name]
    else t.value.kind == Scalar && t.value.name in s.scalars && ScalarAccepts(t.value.name, v)
  }

  predicate FieldInhabits(s: InputSchema, vars: Option<Variables>, typeName: string, entry: Entry<Literal>)
    requires typeName in s.inputObjects
    decreases entry
  {
    var field := Lookup(s.inputObjects[typeName], entry.name);
    field.Some? &&
    ((entry.value.Null? && field.value.defaultValue) ||
     Inhabits(s, vars, field.value.nonNullDefaultValue, entry.value, field.value.ofType))
  }

  /** Every field without a default is given, unless its type is nullable. */
  predicate RequiredPresent(fields: seq<Entry<Literal>>, declared: Arguments) {
    forall field | field in declared ::
      field.value.defaultValue || HasName(fields, field.name) ||
      (field.value.ofType.Some? && !field.value.ofType.value.NonNull?)
  }

  lemma {:induction false} RequiredIsPresent(typeName: string, fields: seq<Entry<Literal>>, declared: Arguments)
    ensures CheckRequired(typeName, fields, declared).None? <==> RequiredPresent(fields, declared)
  {
    if declared != [] {
      assert declared == [declared[0]] + declared[1..];
      RequiredIsPresent(typeName, fields, declared[1..]);
    }
  }

  lemma {:induction false} ItemsInhabit(s: InputSchema, vars: Option<Variables>, items: seq<Literal>, t: Option<Type>)
    requires t.Some?
    ensures CheckItems(s, vars, items, t).None? <==> forall item | item in items :: Inhabits(s, vars, false, item, t)
    decreases items, t, 0
  {
    if items != [] {
      assert items == [items[0]] + items[1..];
      CheckIsInhabits(s, vars, false, items[0], t);
      ItemsInhabit(s, vars, items[1..], t);
    }
  }

  /** A property holds of all entries exactly when it holds of the first and of the rest. */
  lemma EveryFieldInhabits(s: InputSchema, vars: Option<Variables>, typeName: string, fields: seq<Entry<Literal>>)
    requires typeName in s.inputObjects && fields != []
    ensures (forall entry | entry in fields :: FieldInhabits(s, vars, typeName, entry)) <==>
            FieldInhabits(s, vars, typeName, fields[0]) &&
            forall entry | entry in fields[1..] :: FieldInhabits(s, vars, typeName, entry)
  {
    assert fields == [fields[0]] + fields[1..];
  }

  lemma {:induction false} FieldIsInhabits(
    s: InputSchema, vars: Option<Variables>, typeName: string, entry: Entry<Literal>)
    requires typeName in s.inputObjects
    ensures CheckField(s, vars, typeName, entry).None? <==> FieldInhabits(s, vars, typeName, entry)
    decreases entry
  {
    var field := Lookup(s.inputObjects[typeName], entry.name);
    if field.Some? {
      CheckIsInhabits(s, vars, field.value.nonNullDefaultValue, entry.value, field.value.ofType);
    }
  }

  lemma {:induction false} FieldsInhabit(
    s: InputSchema, vars: Option<Variables>, typeName: string, fields: seq<Entry<Literal>>)
    requires typeName in s.inputObjects
    ensures CheckFields(s, vars, typeName, fields).None? <==>
            forall entry | entry in fields :: FieldInhabits(s, vars, typeName, entry)
    decreases fields
  {
    if fields != [] {
      EveryFieldInhabits(s, vars, typeName, fields);
      FieldIsInhabits(s, vars, typeName, fields[0]);
      FieldsInhabit(s, vars, typeName, fields[1..]);
    }
  }

  /** validateInputValue is true exactly when the literal inhabits the type. */
  lemma {:induction false} CheckIsInhabits(
    s: InputSchema, vars: Option<Variables>, hasNonNullDefault: bool, v: Literal, t: Option<Type>)
    ensures Check(s, vars, hasNonNullDefault, v, t).None? <==> Inhabits(s, vars, hasNonNullDefault, v, t)
    decreases v, t, 1
  {
    if t.None? || v.Variable? || v.Null? {
    } else {
      match t.value
      case NonNull(of) => CheckIsInhabits(s, vars, hasNonNullDefault, v, of);
      case List(of) =>
        if v.ListValue? && of.Some? {
          ItemsInhabit(s, vars, v.items, of);
        }
      case Named(kind, name) =>
        if kind == InputObject && v.ObjectValue? && name in s.inputObjects {
          FieldsInhabit(s, vars, name, v.fields);
          RequiredIsPresent(name, v.fields, s.inputObjects[name]);
        }
    }
  }

  // ---- Supplying the variables ----

  /** No operation variable is defined, so only literals without variables are accepted. */
  const NO_VARIABLES: Option<Variables> := Some(map[])

  function Substitute(env: map<string, Literal>, v: Literal): Literal {
    match v
    case Variable(name) => if name in env then env[name] else v
    case ListValue(items) => ListValue(seq(|items|, i requires 0 <= i < |items| => Substitute(env, items[i])))
    case ObjectValue(fields) =>
      ObjectValue(seq(|fields|, i requires 0 <= i < |fields| =>
        Entry(fields[i].name, Substitute(env, fields[i].value))))
    case _ => v
  }

  /** Every variable has a value of its declared type, not null when its default is not null. */
  ghost predicate Supplies(s: InputSchema, vars: Variables, env: map<string, Literal>) {
    forall name | name in vars ::
      && name in env
      && Inhabits(s, NO_VARIABLES, false, env[name], vars[name].ofType)
      && (vars[name].nonNullDefaultValue ==> !env[name].Null?)
  }

  /** A value of a variable's type is a value of every type the variable may be used at. */
  lemma {:induction false} UsableKeepsInhabits(
    s: InputSchema, isNonNull: bool, hasNonNullDefault: bool, v: Literal,
    variableType: Option<Type>, inputType: Option<Type>)
    requires CheckVariableType(isNonNull, variableType, inputType).None?
    requires Inhabits(s, NO_VARIABLES, false, v, variableType)
    requires v.Null? && isNonNull ==> hasNonNullDefault
    ensures Inhabits(s, NO_VARIABLES, hasNonNullDefault, v, inputType)
    decreases variableType, inputType
  {
    if variableType.value.NonNull? {
      UsableKeepsInhabits(s, true, hasNonNullDefault, v, variableType.value.ofType, inputType);
    } else if inputType.value.NonNull? {
      if !v.Null? {
        UsableKeepsInhabits(s, false, hasNonNullDefault, v, variableType, inputType.value.ofType);
      }
    } else if inputType.value.List? && v.ListValue? {
      forall item | item in v.items
        ensures Inhabits(s, NO_VARIABLES, false, item, inputType.value.ofType)
      {
        UsableKeepsInhabits(s, false, false, item, variableType.value.ofType, inputType.value.ofType);
      }
    }
  }

  /** An accepted literal stays accepted whatever values the caller supplies for its variables. */
  lemma {:induction false} SubstitutionInhabits(
    s: InputSchema, vars: Variables, env: map<string, Literal>, hasNonNullDefault: bool, v: Literal, t: Option<Type>)
    requires Supplies(s, vars, env)
    requires Inhabits(s, Some(vars), hasNonNullDefault, v, t)
    ensures Inhabits(s, NO_VARIABLES, hasNonNullDefault, Substitute(env, v), t)
    decreases v, 1, t
  {
    if v.Variable? {
      var variable := vars[v.name];
      UsableKeepsInhabits(
        s, hasNonNullDefault || variable.nonNullDefaultValue, hasNonNullDefault, env[v.name], variable.ofType, t);
    } else if v.Null? {
    } else if t.value.NonNull? {
      SubstitutionInhabits(s, vars, env, hasNonNullDefault, v, t.value.ofType);
    } else if v.ListValue? && t.value.List? {
      var w := Substitute(env, v);
      forall item | item in w.items
        ensures Inhabits(s, NO_VARIABLES, false, item, t.value.ofType)
      {
        var i :| 0 <= i < |w.items| && item == w.items[i];
        assert v.items[i] in v.items;
        SubstitutionInhabits(s, vars, env, false, v.items[i], t.value.ofType);
      }
    } else if v.ObjectValue? && t.value.Named? && t.value.kind == InputObject {
      SubstitutedFieldsInhabit(s, vars, env, v, t.value.name);
    }
  }

  lemma {:induction false} SubstitutedFieldsInhabit(
    s: InputSchema, vars: Variables, env: map<string, Literal>, v: Literal, typeName: string)
    requires Supplies(s, vars, env)
    requires v.ObjectValue? && typeName in s.inputObjects
    requires forall entry | entry in v.fields :: FieldInhabits(s, Some(vars), typeName, entry)
    requires RequiredPresent(v.fields, s.inputObjects[typeName])
    ensures forall entry | entry in Substitute(env, v).fields :: FieldInhabits(s, NO_VARIABLES, typeName, entry)
    ensures RequiredPresent(Substitute(env, v).fields, s.inputObjects[typeName])
    decreases v, 0
  {
    var w := Substitute(env, v);
    forall entry | entry in w.fields
      ensures FieldInhabits(s, NO_VARIABLES, typeName, entry)
    {
      var i :| 0 <= i < |w.fields| && entry == w.fields[i];
      assert v.fields[i] in v.fields;
      assert entry == Entry(v.fields[i].name, Substitute(env, v.fields[i].value));
      var field := Lookup(s.inputObjects[typeName], v.fields[i].name);
      if !(v.fields[i].value.Null? && field.value.defaultValue) {
        SubstitutionInhabits(
          s, vars, env, field.value.nonNullDefaultValue, v.fields[i].value, field.value.ofType);
      }
    }
    forall field | field in s.inputObjects[typeName] && HasName(v.fields, field.name)
      ensures HasName(w.fields, field.name)
    {
      var i :| 0 <= i < |v.fields| && v.fields[i].name == field.name;
      assert w.fields[i].name == field.name;
    }
  }

  // ---- Which variables are referenced ----

  /** The variables of a literal that a check against the type looks at: none inside a custom scalar. */
  function CheckedVariables(s: InputSchema, v: Literal, t: Option<Type>): set<string>
    decreases v, t
  {
    if t.None? || v.Null? then {}
    else if v.Variable? then {v.name}
    else if t.value.NonNull? then CheckedVariables(s, v, t.value.ofType)
    else if t.value.List? then
      if v.ListValue? then CheckedInItems(s, v.items, t.value.ofType) else {}
    else if t.value.kind == InputObject && v.ObjectValue? && t.value.name in s.inputObjects then
      CheckedInFields(s, t.value.name, v.fields)
    else {}
  }

  function CheckedInItems(s: InputSchema, items: seq<Literal>, t: Option<Type>): set<string>
    decreases items, t
  {
    if items == [] then {}
    else CheckedVariables(s, items[0], t) + CheckedInItems(s, items[1..], t)
  }

  function CheckedInFields(s: InputSchema, typeName: string, fields: seq<Entry<Literal>>): set<string>
    requires typeName in s.inputObjects
    decreases fields
  {
    if fields == [] then {}
    else CheckedInField(s, typeName, fields[0]) + CheckedInFields(s, typeName, fields[1..])
  }

  function CheckedInField(s: InputSchema, typeName: string, entry: Entry<Literal>): set<string>
    requires typeName in s.inputObjects
    decreases entry
  {
    var field := Lookup(s.inputObjects[typeName], entry.name);
    if field.None? then {} else CheckedVariables(s, entry.value, field.value.ofType)
  }

  /** The variables validateInputValue marks as referenced before it returns, which may be early. */
  function Marked(s: InputSchema, vars: Option<Variables>, v: Literal, t: Option<Type>): set<string>
    decreases v, t
  {
    if t.None? || v.Null? then {}
    else if v.Variable? then (if vars.Some? && v.name in vars.value then {v.name} else {})
    else if t.value.NonNull? then Marked(s, vars, v, t.value.ofType)
    else if t.value.List? then
      if v.ListValue? && t.value.ofType.Some? then MarkedInItems(s, vars, v.items, t.value.ofType) else {}
    else if t.value.kind == InputObject && t.value.name != "" && v.ObjectValue? && t.value.name in s.inputObjects then
      MarkedInFields(s, vars, t.value.name, v.fields)
    else {}
  }

  function MarkedInItems(s: InputSchema, vars: Option<Variables>, items: seq<Literal>, t: Option<Type>): set<string>
    decreases items, t
  {
    if items == [] then {}
    else
      Marked(s, vars, items[0], t) +
      (if Check(s, vars, false, items[0], t).None? then MarkedInItems(s, vars, items[1..], t) else {})
  }

  function MarkedInFields(
    s: InputSchema, vars: Option<Variables>, typeName: string, fields: seq<Entry<Literal>>): set<string>
    requires typeName in s.inputObjects
    decreases fields
  {
    if fields == [] then {}
    else
      MarkedInField(s, vars, typeName, fields[0]) +
      (if CheckField(s, vars, typeName, fields[0]).None? then MarkedInFields(s, vars, typeName, fields[1..]) else {})
  }

  function MarkedInField(
    s: InputSchema, vars: Option<Variables>, typeName: string, entry: Entry<Literal>): set<string>
    requires typeName in s.inputObjects
    decreases entry
  {
    var field := Lookup(s.inputObjects[typeName], entry.name);
    if field.None? || (entry.value.Null? && field.value.defaultValue) then {}
    else Marked(s, vars, entry.value, field.value.ofType)
  }

  /** An accepted literal has marked every variable that was looked at; a rejected one no others. */
  lemma {:induction false} AcceptedMarksAllChecked(
    s: InputSchema, vars: Option<Variables>, hasNonNullDefault: bool, v: Literal, t: Option<Type>)
    ensures Marked(s, vars, v, t) <= CheckedVariables(s, v, t)
    ensures vars.Some? && Check(s, vars, hasNonNullDefault, v, t).None? ==>
            Marked(s, vars, v, t) == CheckedVariables(s, v, t)
    decreases v, t, 1
  {
    if t.None? || v.Variable? || v.Null? {
    } else {
      match t.value
      case NonNull(of) => AcceptedMarksAllChecked(s, vars, hasNonNullDefault, v, of);
      case List(of) =>
        if v.ListValue? && of.Some? {
          AcceptedItemsMarkAll(s, vars, v.items, of);
        }
      case Named(kind, name) =>
        if kind == InputObject && v.ObjectValue? && name in s.inputObjects {
          AcceptedFieldsMarkAll(s, vars, name, v.fields);
        }
    }
  }

  lemma {:induction false} AcceptedItemsMarkAll(
    s: InputSchema, vars: Option<Variables>, items: seq<Literal>, t: Option<Type>)
    requires t.Some?
    ensures MarkedInItems(s, vars, items, t) <= CheckedInItems(s, items, t)
    ensures vars.Some? && CheckItems(s, vars, items, t).None? ==>
            MarkedInItems(s, vars, items, t) == CheckedInItems(s, items, t)
    decreases items, t, 0
  {
    if items != [] {
      AcceptedMarksAllChecked(s, vars, false, items[0], t);
      AcceptedItemsMarkAll(s, vars, items[1..], t);
    }
  }

  lemma {:induction false} AcceptedFieldsMarkAll(
    s: InputSchema, vars: Option<Variables>, typeName: string, fields: seq<Entry<Literal>>)
    requires typeName in s.inputObjects
    ensures MarkedInFields(s, vars, typeName, fields) <= CheckedInFields(s, typeName, fields)
    ensures vars.Some? && CheckFields(s, vars, typeName, fields).None? ==>
            MarkedInFields(s, vars, typeName, fields) == CheckedInFields(s, typeName, fields)
    decreases fields
  {
    if fields != [] {
      var field := Lookup(s.inputObjects[typeName], fields[0].name);
      if field.Some? {
        AcceptedMarksAllChecked(s, vars, field.value.nonNullDefaultValue, fields[0].value, field.value.ofType);
      }
      AcceptedFieldsMarkAll(s, vars, typeName, fields[1..]);
    }
  }

  // ---- From the document's literals to the values that are checked ----

  /** A value as read, and the names of the object fields given more than once. */
  datatype Reading = Reading(value: Literal, repeated: seq<string>)

  datatype FieldsReading = FieldsReading(fields: seq<Entry<Literal>>, repeated: seq<string>)

  datatype ItemsReading = ItemsReading(items: seq<Literal>, repeated: seq<string>)

  /** ValidateArgumentValueVisitor: objects become maps in the order of their names, the first of each name. */
  function Read(v: Literal): Reading
    decreases v, 0
  {
    match v
    case ListValue(items) =>
      var reading := ReadItems(items);
      Reading(ListValue(reading.items), reading.repeated)
    case ObjectValue(fields) =>
      var reading := ReadFields([], fields);
      Reading(ObjectValue(reading.fields), reading.repeated)
    case _ => Reading(v, [])
  }

  function ReadItems(items: seq<Literal>): (reading: ItemsReading)
    ensures |reading.items| == |items|
    decreases items, 1
  {
    if items == [] then ItemsReading([], [])
    else
      var first, rest := Read(items[0]), ReadItems(items[1..]);
      ItemsReading([first.value] + rest.items, first.repeated + rest.repeated)
  }

  function ReadFields(done: seq<Entry<Literal>>, fields: seq<Entry<Literal>>): FieldsReading
    decreases fields, 1
  {
    if fields == [] then FieldsReading(done, [])
    else if HasName(done, fields[0].name) then
      var rest := ReadFields(done, fields[1..]);
      FieldsReading(rest.fields, [fields[0].name] + rest.repeated)
    else
      var first := Read(fields[0].value);
      var rest := ReadFields(EmplaceField(done, fields[0].name, first.value), fields[1..]);
      FieldsReading(rest.fields, first.repeated + rest.repeated)
  }

  function EmplaceField(fields: seq<Entry<Literal>>, name: string, value: Literal): seq<Entry<Literal>> {
    var at := UpperBound(ShorterOrLess, seq(|fields|, i requires 0 <= i < |fields| => fields[i].name), name);
    fields[..at] + [Entry(name, value)] + fields[at..]
  }

  /** No object of the literal has two fields of the same name. */
  predicate HasDistinctFields(v: Literal) {
    match v
    case ListValue(items) => forall item | item in items :: HasDistinctFields(item)
    case ObjectValue(fields) =>
      DistinctNames(fields) && forall field | field in fields :: HasDistinctFields(field.value)
    case _ => true
  }

  lemma EmplacedField(fields: seq<Entry<Literal>>, name: string, value: Literal)
    ensures forall entry ::
              entry in EmplaceField(fields, name, value) <==> entry in fields || entry == Entry(name, value)
    ensures forall other ::
              HasName(EmplaceField(fields, name, value), other) <==> HasName(fields, other) || other == name
  {
    var at := UpperBound(ShorterOrLess, seq(|fields|, i requires 0 <= i < |fields| => fields[i].name), name);
    var more := EmplaceField(fields, name, value);
    assert fields == fields[..at] + fields[at..];
    forall other
      ensures HasName(more, other) <==> HasName(fields, other) || other == name
    {
      NameOfMember(more, other);
      NameOfMember(fields, other);
    }
  }

  lemma NameOfMember(fields: seq<Entry<Literal>>, name: string)
    ensures HasName(fields, name) <==> exists entry :: entry in fields && entry.name == name
  {
    if HasName(fields, name) {
      var i :| 0 <= i < |fields| && fields[i].name == name;
      assert fields[i] in fields;
    }
  }

  function FieldNames(fields: seq<Entry<Literal>>): seq<string> {
    seq(|fields|, i requires 0 <= i < |fields| => fields[i].name)
  }

  /** The fields of an object that was read stand in the order of the map. */
  lemma {:induction false} ReadFieldsAreSorted(done: seq<Entry<Literal>>, fields: seq<Entry<Literal>>)
    requires Sorted(ShorterOrLess, FieldNames(done))
    ensures Sorted(ShorterOrLess, FieldNames(ReadFields(done, fields).fields))
    decreases fields
  {
    if fields != [] {
      ShorterOrLessIsStrictTotal();
      var name := fields[0].name;
      var names := FieldNames(done);
      var value := Read(fields[0].value).value;
      if HasName(done, name) {
        ReadFieldsAreSorted(done, fields[1..]);
      } else {
        NewNameKeepsOrder(done, name, value);
        ReadFieldsAreSorted(EmplaceField(done, name, value), fields[1..]);
      }
    }
  }

  lemma NewNameKeepsOrder(done: seq<Entry<Literal>>, name: string, value: Literal)
    requires Sorted(ShorterOrLess, FieldNames(done)) && !HasName(done, name)
    ensures Sorted(ShorterOrLess, FieldNames(EmplaceField(done, name, value)))
  {
    ShorterOrLessIsStrictTotal();
    var names := FieldNames(done);
    forall i | 0 <= i < |names|
      ensures names[i] != name
    {
      assert done[i].name == names[i];
    }
    InsertionKeepsOrder(ShorterOrLess, names, name);
    assert FieldNames(EmplaceField(done, name, value)) ==
           Inserted(names, UpperBound(ShorterOrLess, names, name), name);
  }

  lemma {:induction false} ReadItemAt(items: seq<Literal>, i: nat)
    requires i < |items|
    ensures ReadItems(items).items[i] == Read(items[i]).value
  {
    if i > 0 {
      ReadItemAt(items[1..], i - 1);
    }
  }

  /** An error exactly when some object of the literal repeats a field. */
  lemma {:induction false} RepeatedFieldsMean(v: Literal)
    ensures Read(v).repeated == [] <==> HasDistinctFields(v)
    decreases v, 0
  {
    match v
    case ListValue(items) => RepeatedInItems(items);
    case ObjectValue(fields) => RepeatedInFields([], fields);
    case _ =>
  }

  lemma {:induction false} RepeatedInItems(items: seq<Literal>)
    ensures ReadItems(items).repeated == [] <==> forall item | item in items :: HasDistinctFields(item)
    decreases items, 1
  {
    if items != [] {
      assert items == [items[0]] + items[1..];
      RepeatedFieldsMean(items[0]);
      RepeatedInItems(items[1..]);
    }
  }

  lemma {:induction false} RepeatedInFields(done: seq<Entry<Literal>>, fields: seq<Entry<Literal>>)
    ensures ReadFields(done, fields).repeated == [] <==>
            DistinctNames(fields) && (forall i | 0 <= i < |fields| :: !HasName(done, fields[i].name)) &&
            forall field | field in fields :: HasDistinctFields(field.value)
    decreases fields, 1
  {
    if fields != [] {
      var first, rest := fields[0], fields[1..];
      assert fields == [first] + rest;
      if !HasName(done, first.name) {
        var next := EmplaceField(done, first.name, Read(first.value).value);
        EmplacedField(done, first.name, Read(first.value).value);
        RepeatedFieldsMean(first.value);
        RepeatedInFields(next, rest);
        assert DistinctNames(fields) <==>
               DistinctNames(rest) && forall i | 0 <= i < |rest| :: rest[i].name != first.name by {
          assert forall i | 0 <= i < |rest| :: rest[i] == fields[i + 1];
        }
      }
    }
  }

  /** The entry is one of the fields with its value read. */
  predicate IsReadFrom(fields: seq<Entry<Literal>>, entry: Entry<Literal>) {
    exists i :: 0 <= i < |fields| && entry == Entry(fields[i].name, Read(fields[i].value).value)
  }

  lemma FirstOrRest(fields: seq<Entry<Literal>>, entry: Entry<Literal>, name: string)
    requires fields != []
    ensures IsReadFrom(fields, entry) <==>
            entry == Entry(fields[0].name, Read(fields[0].value).value) || IsReadFrom(fields[1..], entry)
    ensures HasName(fields, name) <==> name == fields[0].name || HasName(fields[1..], name)
  {
    var rest := fields[1..];
    assert forall i | 0 <= i < |rest| :: rest[i] == fields[i + 1];
    if i :| 0 <= i < |fields| && entry == Entry(fields[i].name, Read(fields[i].value).value) {
      assert i > 0 ==> rest[i - 1] == fields[i];
    }
    if i :| 0 <= i < |fields| && fields[i].name == name {
      assert i > 0 ==> rest[i - 1] == fields[i];
    }
  }

  /** Reading keeps every field, whatever order the map puts them in. */
  lemma {:induction false} FieldsAreRead(
    done: seq<Entry<Literal>>, fields: seq<Entry<Literal>>, entry: Entry<Literal>, name: string)
    requires ReadFields(done, fields).repeated == []
    ensures entry in ReadFields(done, fields).fields <==> entry in done || IsReadFrom(fields, entry)
    ensures HasName(ReadFields(done, fields).fields, name) <==> HasName(done, name) || HasName(fields, name)
    decreases fields
  {
    if fields != [] {
      var value := Read(fields[0].value).value;
      EmplacedField(done, fields[0].name, value);
      FieldsAreRead(EmplaceField(done, fields[0].name, value), fields[1..], entry, name);
      FirstOrRest(fields, entry, name);
    }
  }

  /** A literal without repeated fields means the same before and after it is read. */
  lemma {:induction false} ReadingKeepsMeaning(
    s: InputSchema, vars: Option<Variables>, hasNonNullDefault: bool, v: Literal, t: Option<Type>)
    requires HasDistinctFields(v)
    ensures Inhabits(s, vars, hasNonNullDefault, Read(v).value, t) <==> Inhabits(s, vars, hasNonNullDefault, v, t)
    decreases v, 1, t
  {
    if t.Some? && t.value.NonNull? {
      ReadingKeepsMeaning(s, vars, hasNonNullDefault, v, t.value.ofType);
    } else if t.Some? && t.value.List? && v.ListValue? && t.value.ofType.Some? {
      var read := ReadItems(v.items).items;
      forall i | 0 <= i < |v.items|
        ensures Inhabits(s, vars, false, read[i], t.value.ofType) <==>
                Inhabits(s, vars, false, v.items[i], t.value.ofType)
      {
        ReadItemAt(v.items, i);
        ReadingKeepsMeaning(s, vars, false, v.items[i], t.value.ofType);
      }
      assert forall i | 0 <= i < |v.items| :: v.items[i] in v.items && read[i] in read;
    } else if t.Some? && t.value.Named? && v.ObjectValue? && t.value.name in s.inputObjects {
      ReadingKeepsFields(s, vars, t.value.name, v);
    }
  }

  lemma {:induction false} ReadingKeepsFields(s: InputSchema, vars: Option<Variables>, typeName: string, v: Literal)
    requires v.ObjectValue? && HasDistinctFields(v) && typeName in s.inputObjects
    ensures (forall entry | entry in Read(v).value.fields :: FieldInhabits(s, vars, typeName, entry)) <==>
            forall entry | entry in v.fields :: FieldInhabits(s, vars, typeName, entry)
    ensures RequiredPresent(Read(v).value.fields, s.inputObjects[typeName]) <==>
            RequiredPresent(v.fields, s.inputObjects[typeName])
    decreases v, 0
  {
    var read := Read(v).value.fields;
    RepeatedFieldsMean(v);
    forall entry
      ensures entry in read <==> IsReadFrom(v.fields, entry)
    {
      FieldsAreRead([], v.fields, entry, "");
    }
    forall name
      ensures HasName(read, name) <==> HasName(v.fields, name)
    {
      FieldsAreRead([], v.fields, Entry("", Literal.Null), name);
    }
    forall i | 0 <= i < |v.fields|
      ensures Entry(v.fields[i].name, Read(v.fields[i].value).value) in read
      ensures FieldInhabits(s, vars, typeName, Entry(v.fields[i].name, Read(v.fields[i].value).value)) <==>
              FieldInhabits(s, vars, typeName, v.fields[i])
    {
      assert IsReadFrom(v.fields, Entry(v.fields[i].name, Read(v.fields[i].value).value));
      ReadingKeepsField(s, vars, typeName, v.fields[i]);
    }
    if forall entry | entry in read :: FieldInhabits(s, vars, typeName, entry) {
      forall entry | entry in v.fields
        ensures FieldInhabits(s, vars, typeName, entry)
      {
        var i :| 0 <= i < |v.fields| && v.fields[i] == entry;
      }
    }
    if forall entry | entry in v.fields :: FieldInhabits(s, vars, typeName, entry) {
      forall entry | entry in read
        ensures FieldInhabits(s, vars, typeName, entry)
      {
        assert IsReadFrom(v.fields, entry);
        var i :| 0 <= i < |v.fields| && entry == Entry(v.fields[i].name, Read(v.fields[i].value).value);
        assert v.fields[i] in v.fields;
      }
    }
  }

  lemma {:induction false} ReadingKeepsField(
    s: InputSchema, vars: Option<Variables>, typeName: string, entry: Entry<Literal>)
    requires HasDistinctFields(entry.value) && typeName in s.inputObjects
    ensures FieldInhabits(s, vars, typeName, Entry(entry.name, Read(entry.value).value)) <==>
            FieldInhabits(s, vars, typeName, entry)
    decreases entry
  {
    var field := Lookup(s.inputObjects[typeName], entry.name);
    if field.Some? {
      ReadingKeepsMeaning(s, vars, field.value.nonNullDefaultValue, entry.value, field.value.ofType);
    }
  }
}
