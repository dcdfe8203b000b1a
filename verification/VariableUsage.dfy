/**
 validateVariableType: may a variable of one type be used where another type is expected?
 The loop-free recursion of the source is compared with the rule of section 5.8.5 of the
 GraphQL specification (October 2021) and with inclusion of value sets.
 */
module VariableUsage {
  import opened Common
  import opened GraphQLTypes

  datatype UsageError =
    | UnknownVariableType
    | UnknownNonNullVariableType
    | UnknownInputType
    | ExpectedNonNullVariable
    | UnknownNonNullInputType
    | ExpectedListVariable
    | UnknownListVariableType
    | UnknownListInputType
    | ExpectedKindVariable(kind: Kind)
    | UnexpectedInputType
    | IncompatibleVariable(variableName: string, inputName: string)

  /** The error validateVariableType reports, or None when it returns true. */
  function CheckVariableType(isNonNull: bool, variableType: Option<Type>, inputType: Option<Type>): Option<UsageError>
    decreases variableType, inputType
  {
    if variableType.None? then Some(UnknownVariableType)
    else if variableType.value.NonNull? then
      var ofType := variableType.value.ofType;
      if ofType.None? then Some(UnknownNonNullVariableType)
      else CheckVariableType(true, ofType, inputType)
    else if inputType.None? then Some(UnknownInputType)
    else
      match inputType.value
      case NonNull(ofType) =>
        if !isNonNull then Some(ExpectedNonNullVariable)
        else if ofType.None? then Some(UnknownNonNullInputType)
        else CheckVariableType(false, variableType, ofType)
      case List(inputOf) =>
        if !variableType.value.List? then Some(ExpectedListVariable)
        else if variableType.value.ofType.None? then Some(UnknownListVariableType)
        else if inputOf.None? then Some(UnknownListInputType)
        else CheckVariableType(false, variableType.value.ofType, inputOf)
      case Named(inputKind, inputName) =>
        if !IsInputKind(inputKind) then Some(UnexpectedInputType)
        else if !variableType.value.Named? || variableType.value.kind != inputKind then
          Some(ExpectedKindVariable(inputKind))
        else if variableType.value.name == "" then Some(UnknownVariableType)
        else if inputName == "" then Some(UnknownInputType)
        else if variableType.value.name != inputName then
          Some(IncompatibleVariable(variableType.value.name, inputName))
        else None
  }

  predicate Usable(isNonNull: bool, variableType: Type, inputType: Type) {
    CheckVariableType(isNonNull, Some(variableType), Some(inputType)).None?
  }

  // ---- The rule of section 5.8.5 ----

  /** AreTypesCompatible(variableType, locationType). */
  predicate AreTypesCompatible(variableType: Type, locationType: Type)
    requires WellFormedInput(variableType) && WellFormedInput(locationType)
    decreases variableType, locationType
  {
    if locationType.NonNull? then
      variableType.NonNull? && AreTypesCompatible(variableType.ofType.value, locationType.ofType.value)
    else if variableType.NonNull? then AreTypesCompatible(variableType.ofType.value, locationType)
    else if locationType.List? then
      variableType.List? && AreTypesCompatible(variableType.ofType.value, locationType.ofType.value)
    else variableType == locationType
  }

  /** IsVariableUsageAllowed, the two default values given as flags. */
  predicate IsVariableUsageAllowed(
    hasNonNullVariableDefault: bool, hasLocationDefault: bool, variableType: Type, locationType: Type)
    requires WellFormedInput(variableType) && WellFormedInput(locationType)
  {
    if locationType.NonNull? && !variableType.NonNull? then
      (hasNonNullVariableDefault || hasLocationDefault) &&
      AreTypesCompatible(variableType, locationType.ofType.value)
    else AreTypesCompatible(variableType, locationType)
  }

  /** With no help from a default value, the recursion is AreTypesCompatible. */
  lemma {:induction false} UsableWithoutDefault(variableType: Type, locationType: Type)
    requires WellFormedInput(variableType) && WellFormedInput(locationType)
    ensures Usable(false, variableType, locationType) <==> AreTypesCompatible(variableType, locationType)
    decreases variableType, locationType
  {
    if variableType.NonNull? {
      UsableFromNonNull(variableType.ofType.value, locationType);
    } else if variableType.List? && locationType.List? {
      UsableWithoutDefault(variableType.ofType.value, locationType.ofType.value);
    }
  }

  /** Below a Non-Null variable type the flag is set; it only matters for a Non-Null location. */
  lemma {:induction false} UsableFromNonNull(nullable: Type, locationType: Type)
    requires WellFormedInput(nullable) && WellFormedInput(locationType) && !nullable.NonNull?
    ensures Usable(true, nullable, locationType) <==>
            AreTypesCompatible(nullable, if locationType.NonNull? then locationType.ofType.value else locationType)
    decreases nullable, locationType
  {
    if locationType.NonNull? {
      UsableWithoutDefault(nullable, locationType.ofType.value);
    } else if nullable.List? && locationType.List? {
      UsableWithoutDefault(nullable.ofType.value, locationType.ofType.value);
    }
  }

  /** validateVariableType decides exactly the rule of the specification. */
  lemma UsableMeetsSpecification(
    hasNonNullVariableDefault: bool, hasLocationDefault: bool, variableType: Type, locationType: Type)
    requires WellFormedInput(variableType) && WellFormedInput(locationType)
    ensures Usable(hasNonNullVariableDefault || hasLocationDefault, variableType, locationType) <==>
            IsVariableUsageAllowed(hasNonNullVariableDefault, hasLocationDefault, variableType, locationType)
  {
    var isNonNull := hasNonNullVariableDefault || hasLocationDefault;
    if variableType.NonNull? {
      UsableFromNonNull(variableType.ofType.value, locationType);
    } else if isNonNull {
      UsableFromNonNull(variableType, locationType);
    } else {
      UsableWithoutDefault(variableType, locationType);
    }
  }

  // ---- The value sets the types denote ----

  /** Values told apart by the named type they belong to. */
  datatype Val = Null | Items(items: seq<Val>) | Leaf(kind: Kind, typeName: string, id: int)

  predicate Denotes(t: Type, v: Val)
    requires WellFormedInput(t)
    decreases t
  {
    match t
    case NonNull(of) => v != Null && Denotes(of.value, v)
    case List(of) => v == Null || (v.Items? && forall item | item in v.items :: Denotes(of.value, item))
    case Named(kind, name) => v == Null || (v.Leaf? && v.kind == kind && v.typeName == name)
  }

  ghost predicate Included(isNonNull: bool, variableType: Type, inputType: Type)
    requires WellFormedInput(variableType) && WellFormedInput(inputType)
  {
    forall v | Denotes(variableType, v) && (isNonNull ==> v != Null) :: Denotes(inputType, v)
  }

  lemma {:induction false} UsableIsSound(isNonNull: bool, variableType: Type, inputType: Type, v: Val)
    requires WellFormedInput(variableType) && WellFormedInput(inputType)
    requires Usable(isNonNull, variableType, inputType)
    requires Denotes(variableType, v) && (isNonNull ==> v != Null)
    ensures Denotes(inputType, v)
    decreases variableType, inputType
  {
    if variableType.NonNull? {
      UsableIsSound(true, variableType.ofType.value, inputType, v);
    } else if inputType.NonNull? {
      UsableIsSound(false, variableType, inputType.ofType.value, v);
    } else if inputType.List? && v.Items? {
      forall item | item in v.items
        ensures Denotes(inputType.ofType.value, item)
      {
        UsableIsSound(false, variableType.ofType.value, inputType.ofType.value, item);
      }
    }
  }

  /** A rejected use has a value of the variable's type that the location cannot take. */
  lemma {:induction false} RejectionHasWitness(isNonNull: bool, variableType: Type, inputType: Type) returns (v: Val)
    requires WellFormedInput(variableType) && WellFormedInput(inputType)
    requires !Usable(isNonNull, variableType, inputType)
    ensures Denotes(variableType, v) && (isNonNull ==> v != Null) && !Denotes(inputType, v)
    decreases variableType, inputType
  {
    if variableType.NonNull? {
      v := RejectionHasWitness(true, variableType.ofType.value, inputType);
    } else if inputType.NonNull? {
      if isNonNull {
        v := RejectionHasWitness(false, variableType, inputType.ofType.value);
      } else {
        v := Null;
      }
    } else if variableType.List? && inputType.List? {
      var item := RejectionHasWitness(false, variableType.ofType.value, inputType.ofType.value);
      v := Items([item]);
      assert item in v.items;
    } else if variableType.List? {
      v := Items([]);
    } else {
      v := Leaf(variableType.kind, variableType.name, 0);
    }
  }

  /** A use is accepted exactly when every value of the variable is a value of the location. */
  lemma UsableIsInclusion(isNonNull: bool, variableType: Type, inputType: Type)
    requires WellFormedInput(variableType) && WellFormedInput(inputType)
    ensures Usable(isNonNull, variableType, inputType) <==> Included(isNonNull, variableType, inputType)
  {
    if Usable(isNonNull, variableType, inputType) {
      forall v | Denotes(variableType, v) && (isNonNull ==> v != Null)
        ensures Denotes(inputType, v)
      {
        UsableIsSound(isNonNull, variableType, inputType, v);
      }
    } else {
      var v := RejectionHasWitness(isNonNull, variableType, inputType);
    }
  }
}
