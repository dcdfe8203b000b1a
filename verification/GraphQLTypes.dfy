/**
 Type references of a schema: named types and the two kinds of wrapper.
 A wrapper holds a weak pointer to the type it wraps, so its target may be absent.
 */
module GraphQLTypes {
  import opened Common

  datatype Kind = Scalar | Object | Interface | Union | Enum | InputObject

  datatype Type =
    | Named(kind: Kind, name: string)
    | List(ofType: Option<Type>)
    | NonNull(ofType: Option<Type>)

  predicate IsInputKind(kind: Kind) {
    kind == Scalar || kind == Enum || kind == InputObject
  }

  /** isScalarType: everything that takes no selection set. */
  predicate IsLeafKind(kind: Kind) {
    kind != Object && kind != Interface && kind != Union
  }

  /** What takes no selection set is what may be given as input. */
  lemma LeafKindsAreInputKinds(kind: Kind)
    ensures IsLeafKind(kind) <==> IsInputKind(kind)
    ensures IsInputKind(kind) <==> kind in {Scalar, Enum, InputObject}
  {
  }

  /** The input types a document can write: live wrappers, no Non-Null directly below Non-Null. */
  predicate WellFormedInput(t: Type) {
    match t
    case Named(kind, name) => IsInputKind(kind) && name != ""
    case List(of) => of.Some? && WellFormedInput(of.value)
    case NonNull(of) => of.Some? && !of.value.NonNull? && WellFormedInput(of.value)
  }
}
