/**
 The schema loader checks every type against the interfaces one step away. This module proves that
 the checks of all types together decide chains of interfaces of any length.
 */
module InterfaceChecks {
  import opened Common

  /** An interface or object type, its interfaces and the names of its fields. */
  datatype TypeDefinition = TypeDefinition(name: string, interfaces: seq<string>, fields: seq<string>)

  /** Interface types by name, and the object types. */
  datatype Schema = Schema(interfaceTypes: seq<TypeDefinition>, objectTypes: seq<TypeDefinition>)

  datatype InterfaceError =
    | UnknownInterface(typeName: string, interfaceName: string)
    | InterfaceCycle(typeName: string)
    | MissingTransitiveInterfaces(typeName: string, interfaceNames: set<string>)
    | MissingInterfaceFields(typeName: string, interfaceName: string, fields: set<string>)

  function Find(types: seq<TypeDefinition>, name: string): (found: Option<TypeDefinition>)
    ensures found.Some? ==> found.value in types && found.value.name == name
    ensures found.None? ==> forall t | t in types :: t.name != name
  {
    if types == [] then None
    else if types[0].name == name then Some(types[0])
    else Find(types[1..], name)
  }

  function Elements(names: seq<string>): set<string> {
    set name | name in names
  }

  /** The interfaces an interface declares; none when it is unknown. */
  function InterfacesOf(s: Schema, name: string): set<string> {
    var found := Find(s.interfaceTypes, name);
    if found.Some? then Elements(found.value.interfaces) else {}
  }

  function FieldsOf(s: Schema, name: string): set<string> {
    var found := Find(s.interfaceTypes, name);
    if found.Some? then Elements(found.value.fields) else {}
  }

  predicate IsKnown(s: Schema, name: string) {
    Find(s.interfaceTypes, name).Some?
  }

  // ---- One step ----

  /** Everything declared by the type or by an interface it declares. */
  predicate OneStepAway(s: Schema, t: TypeDefinition, name: string) {
    name in t.interfaces || exists direct :: direct in t.interfaces && name in InterfacesOf(s, direct)
  }

  /** What validateTransitiveInterfaces accepts. */
  ghost predicate DeclaresOneStep(s: Schema, t: TypeDefinition) {
    && (forall direct | direct in t.interfaces :: IsKnown(s, direct))
    && !OneStepAway(s, t, t.name)
    && (forall name | OneStepAway(s, t, name) :: name in t.interfaces)
  }

  /** What validateInterfaceFields accepts. */
  predicate ImplementsFields(s: Schema, t: TypeDefinition, name: string) {
    IsKnown(s, name) && FieldsOf(s, name) <= Elements(t.fields)
  }

  ghost predicate PassesChecks(s: Schema, t: TypeDefinition) {
    DeclaresOneStep(s, t) && forall direct | direct in t.interfaces :: ImplementsFields(s, t, direct)
  }

  ghost predicate Accepted(s: Schema) {
    forall t | t in s.interfaceTypes || t in s.objectTypes :: PassesChecks(s, t)
  }

  // ---- Any number of steps ----

  /** A chain of declarations: each name is an interface of the one before, the first of the type. */
  predicate IsChain(s: Schema, t: TypeDefinition, chain: seq<string>) {
    |chain| > 0 && chain[0] in t.interfaces &&
    forall i | 0 <= i < |chain| - 1 :: chain[i + 1] in InterfacesOf(s, chain[i])
  }

  ghost predicate Reaches(s: Schema, t: TypeDefinition, name: string) {
    exists chain :: IsChain(s, t, chain) && chain[|chain| - 1] == name
  }

  /** What the checks are for, along chains of any length. */
  ghost predicate ImplementsAllReachable(s: Schema, t: TypeDefinition) {
    forall name | Reaches(s, t, name) ::
      name in t.interfaces && IsKnown(s, name) && name != t.name && FieldsOf(s, name) <= Elements(t.fields)
  }

  lemma {:induction false} ChainEndsInDeclared(s: Schema, t: TypeDefinition, chain: seq<string>)
    requires DeclaresOneStep(s, t) && IsChain(s, t, chain)
    ensures chain[|chain| - 1] in t.interfaces
    decreases |chain|
  {
    if |chain| > 1 {
      var shorter := chain[..|chain| - 1];
      assert IsChain(s, t, shorter) by {
        forall i | 0 <= i < |shorter| - 1
          ensures shorter[i + 1] in InterfacesOf(s, shorter[i])
        {
          assert shorter[i + 1] == chain[i + 1] && shorter[i] == chain[i];
        }
      }
      ChainEndsInDeclared(s, t, shorter);
      var last := chain[|chain| - 1];
      assert chain[|chain| - 2] in t.interfaces && last in InterfacesOf(s, chain[|chain| - 2]);
      assert OneStepAway(s, t, last);
    }
  }

  lemma OneStepIsReached(s: Schema, t: TypeDefinition, name: string)
    requires OneStepAway(s, t, name)
    ensures Reaches(s, t, name)
  {
    if name in t.interfaces {
      assert IsChain(s, t, [name]);
    } else {
      var direct :| direct in t.interfaces && name in InterfacesOf(s, direct);
      var chain := [direct, name];
      assert IsChain(s, t, chain) && chain[|chain| - 1] == name;
    }
  }

  /** For each type the one-step checks say as much as the chains do. */
  lemma OneStepDecidesChains(s: Schema, t: TypeDefinition)
    ensures PassesChecks(s, t) <==> ImplementsAllReachable(s, t)
  {
    if PassesChecks(s, t) {
      forall name | Reaches(s, t, name)
        ensures name in t.interfaces && IsKnown(s, name) && name != t.name && FieldsOf(s, name) <= Elements(t.fields)
      {
        var chain :| IsChain(s, t, chain) && chain[|chain| - 1] == name;
        ChainEndsInDeclared(s, t, chain);
        assert OneStepAway(s, t, name);
        assert ImplementsFields(s, t, name);
      }
    }
    if ImplementsAllReachable(s, t) {
      forall name | OneStepAway(s, t, name)
        ensures name in t.interfaces && name != t.name && ImplementsFields(s, t, name)
      {
        OneStepIsReached(s, t, name);
      }
      forall direct | direct in t.interfaces
        ensures ImplementsFields(s, t, direct)
      {
        assert OneStepAway(s, t, direct);
      }
    }
  }

  /**
   A schema is accepted exactly when every type declares and implements all interfaces on every
   chain from it, none of them unknown and none of them the type itself.
   */
  lemma AcceptedIsGlobal(s: Schema)
    ensures Accepted(s) <==>
            forall t | t in s.interfaceTypes || t in s.objectTypes :: ImplementsAllReachable(s, t)
  {
    forall t | t in s.interfaceTypes || t in s.objectTypes
      ensures PassesChecks(s, t) <==> ImplementsAllReachable(s, t)
    {
      OneStepDecidesChains(s, t);
    }
  }

  // ---- The checks ----

  /** An error names what is wrong with the type, and all of it that the failed check looks at. */
  ghost predicate Explains(s: Schema, t: TypeDefinition, error: InterfaceError) {
    match error
    case UnknownInterface(typeName, name) => typeName == t.name && name in t.interfaces && !IsKnown(s, name)
    case InterfaceCycle(typeName) => typeName == t.name && OneStepAway(s, t, t.name)
    case MissingTransitiveInterfaces(typeName, names) =>
      typeName == t.name && names != {} &&
      forall name :: name in names <==> OneStepAway(s, t, name) && name !in t.interfaces
    case MissingInterfaceFields(typeName, name, fields) =>
      typeName == t.name && name in t.interfaces && fields != {} &&
      fields == FieldsOf(s, name) - Elements(t.fields)
  }

  class SchemaLoader {
    const schema: Schema

    constructor (schema: Schema)
      ensures this.schema == schema
    {
      this.schema := schema;
    }

    method ValidateInterfaceFields(t: TypeDefinition, interfaceName: string) returns (error: Option<InterfaceError>)
      requires interfaceName in t.interfaces
      ensures error.None? <==> ImplementsFields(schema, t, interfaceName)
      ensures error.Some? ==> Explains(schema, t, error.value)
    {
      var found := Find(schema.interfaceTypes, interfaceName);
      if found.None? {
        return Some(UnknownInterface(t.name, interfaceName));
      }
      var unimplemented: set<string> := {};
      var required := found.value.fields;
      for i := 0 to |required|
        invariant unimplemented == Elements(required[..i])
      {
        assert required[..i + 1] == required[..i] + [required[i]];
        unimplemented := unimplemented + {required[i]};
      }
      assert required[..|required|] == required;
      for i := 0 to |t.fields|
        invariant unimplemented == Elements(required) - Elements(t.fields[..i])
      {
        assert t.fields[..i + 1] == t.fields[..i] + [t.fields[i]];
        unimplemented := unimplemented - {t.fields[i]};
      }
      assert t.fields[..|t.fields|] == t.fields;
      if unimplemented != {} {
        var missing :| missing in unimplemented;
        assert missing in FieldsOf(schema, interfaceName) && missing !in Elements(t.fields);
        return Some(MissingInterfaceFields(t.name, interfaceName, unimplemented));
      }
      error := None;
    }

    method ValidateTransitiveInterfaces(t: TypeDefinition) returns (error: Option<InterfaceError>)
      ensures error.None? <==> DeclaresOneStep(schema, t)
      ensures error.Some? ==> Explains(schema, t, error.value)
    {
      var unimplemented: set<string> := {};
      for i := 0 to |t.interfaces|
        invariant forall k | 0 <= k < i :: IsKnown(schema, t.interfaces[k])
        invariant forall name :: name in unimplemented <==> ReachedBy(schema, t.interfaces[..i], name)
      {
        var direct := t.interfaces[i];
        var found := Find(schema.interfaceTypes, direct);
        if found.None? {
          assert direct in t.interfaces && !IsKnown(schema, direct);
          return Some(UnknownInterface(t.name, direct));
        }
        var inherited := CollectNames(found.value.interfaces);
        ReachedByOneMore(schema, t.interfaces[..i], direct);
        assert t.interfaces[..i + 1] == t.interfaces[..i] + [direct];
        unimplemented := unimplemented + {direct} + inherited;
      }
      assert t.interfaces[..|t.interfaces|] == t.interfaces;
      assert forall name :: name in unimplemented <==> OneStepAway(schema, t, name);
      if t.name in unimplemented {
        return Some(InterfaceCycle(t.name));
      }
      var declared := CollectNames(t.interfaces);
      unimplemented := unimplemented - declared;
      if unimplemented != {} {
        var missing :| missing in unimplemented;
        assert OneStepAway(schema, t, missing) && missing !in t.interfaces;
        return Some(MissingTransitiveInterfaces(t.name, unimplemented));
      }
      forall name | OneStepAway(schema, t, name)
        ensures name in t.interfaces
      {
        assert name in unimplemented + declared;
      }
      error := None;
    }

    method CollectNames(names: seq<string>) returns (all: set<string>)
      ensures all == Elements(names)
    {
      all := {};
      for i := 0 to |names|
        invariant all == Elements(names[..i])
      {
        assert names[..i + 1] == names[..i] + [names[i]];
        all := all + {names[i]};
      }
      assert names[..|names|] == names;
    }

    method ValidateType(t: TypeDefinition) returns (error: Option<InterfaceError>)
      ensures error.None? <==> PassesChecks(schema, t)
      ensures error.Some? ==> Explains(schema, t, error.value)
    {
      error := ValidateTransitiveInterfaces(t);
      if error.Some? {
        return;
      }
      for i := 0 to |t.interfaces|
        invariant forall k | 0 <= k < i :: ImplementsFields(schema, t, t.interfaces[k])
      {
        error := ValidateInterfaceFields(t, t.interfaces[i]);
        if error.Some? {
          assert t.interfaces[i] in t.interfaces;
          return;
        }
      }
      error := None;
    }

    method ValidateTypes(types: seq<TypeDefinition>) returns (error: Option<InterfaceError>)
      ensures error.None? <==> forall t | t in types :: PassesChecks(schema, t)
      ensures error.Some? ==> exists t :: t in types && Explains(schema, t, error.value)
    {
      for i := 0 to |types|
        invariant forall k | 0 <= k < i :: PassesChecks(schema, types[k])
      {
        error := ValidateType(types[i]);
        if error.Some? {
          assert types[i] in types;
          return;
        }
      }
      error := None;
    }

    /** No error exactly when all types implement everything their chains of interfaces ask for. */
    method ValidateImplementedInterfaces() returns (error: Option<InterfaceError>)
      ensures error.None? <==>
        forall t | t in schema.interfaceTypes || t in schema.objectTypes :: ImplementsAllReachable(schema, t)
      ensures error.Some? ==>
        exists t :: (t in schema.interfaceTypes || t in schema.objectTypes) && Explains(schema, t, error.value)
    {
      AcceptedIsGlobal(schema);
      error := ValidateTypes(schema.interfaceTypes);
      if error.None? {
        error := ValidateTypes(schema.objectTypes);
      }
    }
  }

  predicate ReachedBy(s: Schema, interfaces: seq<string>, name: string) {
    name in interfaces || exists direct :: direct in interfaces && name in InterfacesOf(s, direct)
  }

  lemma ReachedByOneMore(s: Schema, interfaces: seq<string>, direct: string)
    ensures forall name :: ReachedBy(s, interfaces + [direct], name) <==>
              ReachedBy(s, interfaces, name) || name == direct || name in InterfacesOf(s, direct)
  {
    var longer := interfaces + [direct];
    assert forall other :: other in longer <==> other in interfaces || other == direct;
  }
}
