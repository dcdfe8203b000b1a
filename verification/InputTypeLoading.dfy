/**
 How the lists that InputTypeOrder sorts come about: from the input types of a schema, once their
 field types are checked, and from the input types a request refers to.
 */
module InputTypeLoading {
  import opened Common
  import opened TypeModifiers
  import opened InputTypeOrder

  // ---- SchemaLoader ----

  datatype SchemaKind = ScalarKind | EnumKind | InputKind | UnionKind | InterfaceKind | ObjectKind | OperationKind

  datatype LoadError =
    | UnknownArgumentType(typeName: string)
    | InvalidArgumentType(typeName: string)
    | InputObjectCycle(typeName: string)

  const BUILTIN_TYPES := {"Int", "Float", "String", "Boolean", "ID"}

  type Kinds = map<string, SchemaKind>

  /** An input type as declared: the types of its fields. */
  datatype Declared = Declared(name: string, fields: seq<TypeTree>)

  /** What a field of an input type may have as its type. */
  predicate IsInputTypeName(kinds: Kinds, typeName: string) {
    typeName in {"Int", "Float", "String", "Boolean", "ID"} ||
    (typeName in kinds && kinds[typeName] in {ScalarKind, EnumKind, InputKind})
  }

  function FieldError(kinds: Kinds, typeName: string): (error: Option<LoadError>)
    ensures error.None? <==> IsInputTypeName(kinds, typeName)
    ensures error.Some? ==>
              error.value ==
                if typeName in kinds then InvalidArgumentType(typeName) else UnknownArgumentType(typeName)
  {
    if typeName in BUILTIN_TYPES then None
    else if typeName !in kinds then Some(UnknownArgumentType(typeName))
    else if kinds[typeName].ScalarKind? || kinds[typeName].EnumKind? || kinds[typeName].InputKind? then None
    else Some(InvalidArgumentType(typeName))
  }

  predicate IsInput(kinds: Kinds, typeName: string) {
    typeName !in BUILTIN_TYPES && typeName in kinds && kinds[typeName].InputKind?
  }

  /** Only a plain Non-Null field needs the other type complete; anything wrapped can be announced. */
  predicate IsRequired(field: Field) {
    field.modifiers == [] || field.modifiers[0] == NoModifier
  }

  function FieldOf(t: TypeTree): Field {
    Field(NameOf(t), Modifiers(t, false))
  }

  function FieldsOf(types: seq<TypeTree>): seq<Field> {
    seq(|types|, i requires 0 <= i < |types| => FieldOf(types[i]))
  }

  function Dependencies(inputs: set<string>, fields: seq<Field>): set<string> {
    if fields == [] then {}
    else
      (if fields[0].typeName in inputs && IsRequired(fields[0]) then {fields[0].typeName} else {}) +
      Dependencies(inputs, fields[1..])
  }

  function Declarations(inputs: set<string>, fields: seq<Field>): seq<string> {
    if fields == [] then []
    else
      (if fields[0].typeName in inputs && !IsRequired(fields[0]) then [fields[0].typeName] else []) +
      Declarations(inputs, fields[1..])
  }

  function ToInputType(inputs: set<string>, d: Declared): InputType {
    var fields := FieldsOf(d.fields);
    InputType(d.name, fields, Dependencies(inputs, fields), Declarations(inputs, fields))
  }

  function ToInputTypes(inputs: set<string>, declared: seq<Declared>): seq<InputType> {
    seq(|declared|, i requires 0 <= i < |declared| => ToInputType(inputs, declared[i]))
  }

  lemma {:induction false} DependenciesAreRequiredFields(inputs: set<string>, fields: seq<Field>, name: string)
    ensures name in Dependencies(inputs, fields) <==>
            name in inputs && exists i :: 0 <= i < |fields| && fields[i].typeName == name && IsRequired(fields[i])
  {
    if fields != [] {
      DependenciesAreRequiredFields(inputs, fields[1..], name);
      if i :| 0 <= i < |fields[1..]| && fields[1..][i].typeName == name && IsRequired(fields[1..][i]) {
        assert fields[i + 1].typeName == name;
      }
      if i :| 0 <= i < |fields| && fields[i].typeName == name && IsRequired(fields[i]) {
        if i > 0 {
          assert fields[1..][i - 1] == fields[i];
        }
      }
    }
  }

  /** The references to other input types that may be wrapped or null, in the order of the fields. */
  lemma {:induction false} DeclarationsInOrder(inputs: set<string>, left: seq<Field>, right: seq<Field>)
    ensures Declarations(inputs, left + right) == Declarations(inputs, left) + Declarations(inputs, right)
  {
    if left == [] {
      assert left + right == right;
    } else {
      DeclarationsInOrder(inputs, left[1..], right);
      FirstField(inputs, left, 0, {}, []);
      FirstField(inputs, left + right, 0, {}, []);
      assert left[0..] == left && (left + right)[0..] == left + right && (left + right)[1..] == left[1..] + right;
    }
  }

  /** A reference to an input type is a dependency or a declaration, never both and never neither. */
  lemma ReferenceIsDependencyOrDeclaration(inputs: set<string>, t: TypeTree)
    requires WellFormed(t)
    ensures var name := NameOf(t);
            Dependencies(inputs, [FieldOf(t)]) ==
              (if name in inputs && t == NonNullOf(NamedTree(name)) then {name} else {}) &&
            Declarations(inputs, [FieldOf(t)]) ==
              (if name in inputs && t != NonNullOf(NamedTree(name)) then [name] else [])
  {
    RequiredMeansNonNullName(t);
    assert [FieldOf(t)][1..] == [];
  }

  /** A required dependency is a field whose type is written Name!. */
  lemma RequiredMeansNonNullName(t: TypeTree)
    requires WellFormed(t)
    ensures IsRequired(FieldOf(t)) <==> t == NonNullOf(NamedTree(NameOf(t)))
  {
    match t
    case NamedTree(_) =>
    case ListOf(of) =>
    case NonNullOf(of) =>
      match of
      case NamedTree(_) => assert Modifiers(of, true) == [];
      case ListOf(inner) => assert Modifiers(of, true) == [ListModifier] + Modifiers(inner, false);
  }

  /** The error of a field type, those before it being fine. */
  predicate IsFirstError(kinds: Kinds, fields: seq<TypeTree>, error: LoadError) {
    exists i :: 0 <= i < |fields| && FieldError(kinds, NameOf(fields[i])) == Some(error) &&
      forall k | 0 <= k < i :: FieldError(kinds, NameOf(fields[k])).None?
  }

  /** What the field at i adds to the dependencies and declarations of those before it. */
  lemma FirstField(
    inputs: set<string>, fields: seq<Field>, i: nat, dependencies: set<string>, declarations: seq<string>)
    requires i < |fields|
    ensures var name, rest := fields[i].typeName, fields[i + 1..];
            dependencies + Dependencies(inputs, fields[i..]) ==
              (if name in inputs && IsRequired(fields[i]) then dependencies + {name} else dependencies) +
              Dependencies(inputs, rest) &&
            declarations + Declarations(inputs, fields[i..]) ==
              (if name in inputs && !IsRequired(fields[i]) then declarations + [name] else declarations) +
              Declarations(inputs, rest)
  {
    assert fields[i..][0] == fields[i] && fields[i..][1..] == fields[i + 1..];
    var name, rest := fields[i].typeName, Declarations(inputs, fields[i + 1..]);
    assert declarations + ([name] + rest) == declarations + [name] + rest;
    assert declarations + ([] + rest) == declarations + rest;
  }

  class SchemaLoader {
    const kinds: Kinds
    var inputTypes: seq<InputType>

    constructor (kinds: Kinds)
      ensures this.kinds == kinds
    {
      this.kinds := kinds;
      inputTypes := [];
    }

    method CheckFields(fields: seq<TypeTree>) returns (error: Option<LoadError>)
      ensures error.None? <==> forall i | 0 <= i < |fields| :: FieldError(kinds, NameOf(fields[i])).None?
      ensures error.Some? ==> IsFirstError(kinds, fields, error.value)
    {
      for i := 0 to |fields|
        invariant forall k | 0 <= k < i :: FieldError(kinds, NameOf(fields[k])).None?
      {
        error := FieldError(kinds, NameOf(fields[i]));
        if error.Some? {
          return;
        }
      }
      error := None;
    }

    method BuildInputType(d: Declared, ghost inputs: set<string>) returns (t: InputType)
      requires forall name :: name in inputs <==> IsInput(kinds, name)
      ensures t == ToInputType(inputs, d)
    {
      var fields := FieldsOf(d.fields);
      var dependencies: set<string> := {};
      var declarations: seq<string> := [];
      for i := 0 to |fields|
        invariant dependencies + Dependencies(inputs, fields[i..]) == Dependencies(inputs, fields)
        invariant declarations + Declarations(inputs, fields[i..]) == Declarations(inputs, fields)
      {
        var field := fields[i];
        FirstField(inputs, fields, i, dependencies, declarations);
        if IsInput(kinds, field.typeName) {
          if field.modifiers != [] && field.modifiers[0] != NoModifier {
            declarations := declarations + [field.typeName];
          } else {
            dependencies := dependencies + {field.typeName};
          }
        }
      }
      t := InputType(d.name, fields, dependencies, declarations);
    }

    /**
     The input types of a schema in the order of their required dependencies; an error exactly for
     a bad field type or for a cycle of required dependencies.
     */
    method LoadInputTypes(declared: seq<Declared>) returns (error: Option<LoadError>)
      requires forall i, j | 0 <= i < j < |declared| :: declared[i].name != declared[j].name
      requires forall name :: IsInput(kinds, name) <==> exists i :: 0 <= i < |declared| && declared[i].name == name
      modifies this
      ensures var inputs := set i | 0 <= i < |declared| :: declared[i].name;
              var types := ToInputTypes(inputs, declared);
              var fieldsAreInputs := forall i, k | 0 <= i < |declared| && 0 <= k < |declared[i].fields| ::
                                       FieldError(kinds, NameOf(declared[i].fields[k])).None?;
              (error.None? <==> fieldsAreInputs && !HasCycle(types)) &&
              (error.Some? && !fieldsAreInputs ==>
                 exists i :: 0 <= i < |declared| && IsFirstError(kinds, declared[i].fields, error.value) &&
                   forall j, k | 0 <= j < i && 0 <= k < |declared[j].fields| ::
                     FieldError(kinds, NameOf(declared[j].fields[k])).None?) &&
              (error.Some? && fieldsAreInputs ==>
                 error.value.InputObjectCycle? && LeadsToCycle(types, error.value.typeName)) &&
              (error.None? ==> SameTypes(inputTypes, types) && DependenciesFirst(inputTypes))
    {
      ghost var inputs := set i | 0 <= i < |declared| :: declared[i].name;
      assert forall name :: name in inputs <==> IsInput(kinds, name);
      for i := 0 to |declared|
        invariant forall j, k | 0 <= j < i && 0 <= k < |declared[j].fields| ::
                    FieldError(kinds, NameOf(declared[j].fields[k])).None?
      {
        error := CheckFields(declared[i].fields);
        if error.Some? {
          var k :| 0 <= k < |declared[i].fields| && FieldError(kinds, NameOf(declared[i].fields[k])) == error;
          return;
        }
      }
      var types: seq<InputType> := [];
      for i := 0 to |declared|
        invariant |types| == i && forall k | 0 <= k < i :: types[k] == ToInputType(inputs, declared[k])
      {
        var t := BuildInputType(declared[i], inputs);
        types := types + [t];
      }
      assert types == ToInputTypes(inputs, declared);
      DeclaredListIsClosed(inputs, declared);
      var list := new InputTypeList(types);
      var stuck := list.Reorder();
      inputTypes := list.inputTypes;
      error := if stuck.Some? then Some(InputObjectCycle(stuck.value)) else None;
    }
  }

  lemma DeclaredListIsClosed(inputs: set<string>, declared: seq<Declared>)
    requires inputs == set i | 0 <= i < |declared| :: declared[i].name
    requires forall i, j | 0 <= i < j < |declared| :: declared[i].name != declared[j].name
    ensures Closed(ToInputTypes(inputs, declared)) && NamesDiffer(ToInputTypes(inputs, declared))
  {
    var types := ToInputTypes(inputs, declared);
    assert TypeNames(types) == inputs by {
      assert forall i | 0 <= i < |types| :: types[i].name == declared[i].name;
    }
    forall i, name | 0 <= i < |types| && name in types[i].dependencies
      ensures name in TypeNames(types)
    {
      DependenciesAreRequiredFields(inputs, FieldsOf(declared[i].fields), name);
    }
  }

  // ---- RequestLoader ----

  /** The input object types of a schema by name. */
  type InputObjects = map<string, seq<TypeTree>>

  /** Field types only name input objects of the schema, or types that are no input objects. */
  function References(inputs: InputObjects, name: string): set<string>
    requires name in inputs
  {
    set i | 0 <= i < |inputs[name]| && NameOf(inputs[name][i]) in inputs :: NameOf(inputs[name][i])
  }

  ghost predicate ReachedFrom(inputs: InputObjects, roots: set<string>, name: string, path: seq<string>) {
    |path| > 0 && path[0] in roots && path[|path| - 1] == name &&
    forall i | 0 <= i < |path| - 1 :: path[i] in inputs && path[i + 1] in References(inputs, path[i])
  }

  ghost predicate Reachable(inputs: InputObjects, roots: set<string>, name: string) {
    exists path :: ReachedFrom(inputs, roots, name, path)
  }

  lemma ReachableStep(inputs: InputObjects, roots: set<string>, name: string, next: string)
    requires Reachable(inputs, roots, name) && name in inputs && next in References(inputs, name)
    ensures Reachable(inputs, roots, next)
  {
    var path :| ReachedFrom(inputs, roots, name, path);
    var longer := path + [next];
    forall i | 0 <= i < |longer| - 1
      ensures longer[i] in inputs && longer[i + 1] in References(inputs, longer[i])
    {
      if i < |path| - 1 {
        assert longer[i] == path[i] && longer[i + 1] == path[i + 1];
      }
    }
    assert ReachedFrom(inputs, roots, next, longer);
  }

  /** A set that has the roots and is closed under references has everything reachable. */
  lemma ClosedHasReachable(inputs: InputObjects, roots: set<string>, names: set<string>, name: string)
    requires roots <= names <= inputs.Keys && forall other | other in names :: References(inputs, other) <= names
    requires Reachable(inputs, roots, name)
    ensures name in names
  {
    var path :| ReachedFrom(inputs, roots, name, path);
    PathStaysIn(inputs, names, path, |path| - 1);
  }

  lemma {:induction false} PathStaysIn(inputs: InputObjects, names: set<string>, path: seq<string>, i: nat)
    requires names <= inputs.Keys && forall other | other in names :: References(inputs, other) <= names
    requires i < |path| && path[0] in names
    requires forall k | 0 <= k < |path| - 1 :: path[k] in inputs && path[k + 1] in References(inputs, path[k])
    ensures path[i] in names
  {
    if i > 0 {
      PathStaysIn(inputs, names, path, i - 1);
      assert path[i - 1 + 1] in References(inputs, path[i - 1]);
    }
  }

  /** The input objects the variables of an operation name. */
  function Roots(inputs: InputObjects, variables: seq<TypeTree>): set<string> {
    set i | 0 <= i < |variables| && NameOf(variables[i]) in inputs :: NameOf(variables[i])
  }

  lemma RootsAreNamed(inputs: InputObjects, variables: seq<TypeTree>, name: string)
    ensures name in Roots(inputs, variables) <==>
            name in inputs && exists t :: t in variables && NameOf(t) == name
  {
    if t :| t in variables && NameOf(t) == name {
      var i :| 0 <= i < |variables| && variables[i] == t;
      assert NameOf(variables[i]) == name;
    }
  }

  class RequestOperation {
    const inputs: InputObjects
    var inputTypeNames: set<string>
    var referencedInputTypes: seq<string>

    /** The list holds each collected name once. */
    ghost predicate Valid()
      reads this
    {
      && inputTypeNames <= inputs.Keys
      && (forall name :: name in referencedInputTypes <==> name in inputTypeNames)
      && (forall i, j | 0 <= i < j < |referencedInputTypes| :: referencedInputTypes[i] != referencedInputTypes[j])
    }

    constructor (inputs: InputObjects)
      ensures Valid() && this.inputs == inputs && inputTypeNames == {}
    {
      this.inputs := inputs;
      inputTypeNames, referencedInputTypes := {}, [];
    }

    /** Collects the input object under the wrappers of a type, and everything new it refers to. */
    method CollectInputTypes(t: TypeTree, ghost roots: set<string>)
      requires Valid() && (NameOf(t) in inputs ==> Reachable(inputs, roots, NameOf(t)))
      modifies this
      ensures Valid() && old(inputTypeNames) <= inputTypeNames
      ensures NameOf(t) in inputs ==> NameOf(t) in inputTypeNames
      ensures forall name | name in inputTypeNames - old(inputTypeNames) ::
                References(inputs, name) <= inputTypeNames && Reachable(inputs, roots, name)
      decreases inputs.Keys - inputTypeNames, t
    {
      match t {
        case ListOf(of) => CollectInputTypes(of, roots);
        case NonNullOf(of) => CollectInputTypes(of, roots);
        case NamedTree(name) =>
          if name in inputs && name !in inputTypeNames {
            assert name in inputs.Keys - inputTypeNames;
            ghost var before := inputTypeNames;
            inputTypeNames := inputTypeNames + {name};
            referencedInputTypes := referencedInputTypes + [name];
            for i := 0 to |inputs[name]|
              invariant Valid() && before + {name} <= inputTypeNames
              invariant forall k | 0 <= k < i && NameOf(inputs[name][k]) in inputs ::
                          NameOf(inputs[name][k]) in inputTypeNames
              invariant forall other | other in inputTypeNames - before - {name} ::
                          References(inputs, other) <= inputTypeNames && Reachable(inputs, roots, other)
            {
              var field := inputs[name][i];
              if NameOf(field) in inputs {
                assert NameOf(field) in References(inputs, name);
                ReachableStep(inputs, roots, name, NameOf(field));
              }
              assert inputs.Keys - inputTypeNames < inputs.Keys - before by {
                assert name in inputs.Keys - before;
              }
              CollectInputTypes(field, roots);
            }
          }
      }
    }

    /** The list for the variables of an operation: closed under references and no larger than needed. */
    method CollectVariables(variables: seq<TypeTree>)
      requires Valid() && inputTypeNames == {}
      modifies this
      ensures Valid()
      ensures forall name | name in inputTypeNames :: References(inputs, name) <= inputTypeNames
      ensures Roots(inputs, variables) <= inputTypeNames
      ensures forall name | name in inputs ::
                name in inputTypeNames <==> Reachable(inputs, Roots(inputs, variables), name)
    {
      ghost var roots := Roots(inputs, variables);
      for i := 0 to |variables|
        invariant Valid()
        invariant forall k | 0 <= k < i && NameOf(variables[k]) in inputs :: NameOf(variables[k]) in inputTypeNames
        invariant forall name | name in inputTypeNames ::
                    References(inputs, name) <= inputTypeNames && Reachable(inputs, roots, name)
      {
        if NameOf(variables[i]) in inputs {
          assert ReachedFrom(inputs, roots, NameOf(variables[i]), [NameOf(variables[i])]);
        }
        CollectInputTypes(variables[i], roots);
      }
      forall name | name in inputs && Reachable(inputs, roots, name)
        ensures name in inputTypeNames
      {
        ClosedHasReachable(inputs, roots, inputTypeNames, name);
      }
    }

    /** The dependency lists of the collected types. */
    method BuildReferencedTypes() returns (types: seq<InputType>)
      requires Valid()
      ensures |types| == |referencedInputTypes|
      ensures forall k | 0 <= k < |types| ::
                referencedInputTypes[k] in inputs &&
                types[k] == ToInputType(inputs.Keys, Declared(referencedInputTypes[k], inputs[referencedInputTypes[k]]))
    {
      var names := referencedInputTypes;
      types := [];
      for i := 0 to |names|
        invariant |types| == i
        invariant forall k | 0 <= k < i ::
                    names[k] in inputs && types[k] == ToInputType(inputs.Keys, Declared(names[k], inputs[names[k]]))
      {
        assert names[i] in inputTypeNames;
        types := types + [ToInputType(inputs.Keys, Declared(names[i], inputs[names[i]]))];
      }
    }

    /** Ordering the collected types never fails for a schema whose own input types have no cycle. */
    method OrderReferencedTypes(ghost schemaTypes: seq<InputType>) returns (list: InputTypeList)
      requires Valid() && forall name | name in inputTypeNames :: References(inputs, name) <= inputTypeNames
      requires forall name | name in inputs ::
                 ToInputType(inputs.Keys, Declared(name, inputs[name])) in schemaTypes
      requires !HasCycle(schemaTypes)
      ensures fresh(list) && DependenciesFirst(list.inputTypes)
      ensures TypeNames(list.inputTypes) == inputTypeNames && |list.inputTypes| == |referencedInputTypes|
    {
      var names := referencedInputTypes;
      var types := BuildReferencedTypes();
      ReferencedListIsClosed(inputs, names, types);
      if HasCycle(types) {
        CycleOfPartIsCycle(types, schemaTypes);
      }
      list := new InputTypeList(types);
      var stuck := list.Reorder();
      OrderKeepsNames(inputs, names, types, list.inputTypes);
    }
  }

  lemma OrderKeepsNames(
    inputs: InputObjects, names: seq<string>, types: seq<InputType>, ordered: seq<InputType>)
    requires |types| == |names| && SameTypes(ordered, types)
    requires forall k | 0 <= k < |names| ::
               names[k] in inputs && types[k] == ToInputType(inputs.Keys, Declared(names[k], inputs[names[k]]))
    ensures |ordered| == |names| && forall name :: name in TypeNames(ordered) <==> name in names
  {
    SameTypesSameMembers(ordered, types);
    assert |multiset(ordered)| == |multiset(types)|;
    NamesOfReferenced(inputs, names, types);
  }

  lemma NamesOfReferenced(inputs: InputObjects, names: seq<string>, types: seq<InputType>)
    requires |types| == |names|
    requires forall k | 0 <= k < |names| ::
               names[k] in inputs && types[k] == ToInputType(inputs.Keys, Declared(names[k], inputs[names[k]]))
    ensures forall name :: name in TypeNames(types) <==> name in names
  {
    forall name
      ensures name in TypeNames(types) <==> name in names
    {
      if name in names {
        var k :| 0 <= k < |names| && names[k] == name;
        assert types[k].name == name;
      }
    }
  }

  lemma ReferencedListIsClosed(inputs: InputObjects, names: seq<string>, types: seq<InputType>)
    requires forall name | name in names ::
               name in inputs && forall other | other in References(inputs, name) :: other in names
    requires forall i, j | 0 <= i < j < |names| :: names[i] != names[j]
    requires |types| == |names|
    requires forall k | 0 <= k < |names| ::
               names[k] in names && types[k] == ToInputType(inputs.Keys, Declared(names[k], inputs[names[k]]))
    ensures Closed(types) && NamesDiffer(types)
  {
    forall i, name | 0 <= i < |types| && name in types[i].dependencies
      ensures name in TypeNames(types)
    {
      var fields := FieldsOf(inputs[names[i]]);
      DependenciesAreRequiredFields(inputs.Keys, fields, name);
      var f :| 0 <= f < |fields| && fields[f].typeName == name;
      assert NameOf(inputs[names[i]][f]) == name && name in References(inputs, names[i]);
      var k :| 0 <= k < |names| && names[k] == name;
      assert types[k].name == name;
    }
  }

  lemma CycleOfPartIsCycle(part: seq<InputType>, whole: seq<InputType>)
    requires forall i | 0 <= i < |part| :: part[i] in whole
    requires HasCycle(part)
    ensures HasCycle(whole)
  {
    var path :| |path| >= 2 && path[0] == path[|path| - 1] && IsDependencyPath(part, path);
    forall i | 0 <= i < |path| - 1
      ensures DependsOn(whole, path[i], path[i + 1])
    {
      assert DependsOn(part, path[i], path[i + 1]);
      var k :| 0 <= k < |part| && part[k].name == path[i] && path[i + 1] in part[k].dependencies;
      assert part[k] in whole;
    }
    assert IsDependencyPath(whole, path);
  }
}
