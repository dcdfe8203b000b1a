/**
 A literal of a document is checked by the validator and evaluated by the executor, which converts
 it for a resolver. This module proves that for the five built-in scalars, under any wrapping, the
 two agree: a literal without variables is accepted exactly when it can be converted.
 */
module LiteralValues {
  import opened Common
  import opened GraphQLTypes
  import opened TypeModifiers
  import opened InputValues
  import J = JsonValues
  import opened ModifiedValues

  /** The literal is a value by itself: no variables in it, and its integers in the range of int. */
  predicate IsConstant(v: Literal) {
    match v
    case Variable(_) => false
    case IntValue(number) => -0x8000_0000 <= number < 0x8000_0000
    case ListValue(items) => forall item | item in items :: IsConstant(item)
    case ObjectValue(fields) => forall field | field in fields :: IsConstant(field.value)
    case _ => true
  }

  /** ValueVisitor: the response value of a literal. */
  function Evaluate(v: Literal): J.Value
    requires IsConstant(v)
    decreases v, 0
  {
    match v
    case Null => J.NullValue
    case IntValue(number) => J.IntValue(number)
    case FloatValue(decimal) => J.FloatValue(decimal)
    case StringValue(text) => J.StringValue(text, false, true)
    case BooleanValue(flag) => J.BooleanValue(flag)
    case EnumValue(symbol) => J.EnumValue(symbol)
    case ListValue(items) => J.ListValue(seq(|items|, i requires 0 <= i < |items| => Evaluate(items[i])))
    case ObjectValue(fields) => J.MapValue(EvaluateFields([], fields))
  }

  function EvaluateFields(done: seq<Entry<J.Value>>, fields: seq<Entry<Literal>>): seq<Entry<J.Value>>
    requires forall field | field in fields :: IsConstant(field.value)
    decreases fields, 1
  {
    if fields == [] then done
    else EvaluateFields(J.EmplaceBack(done, fields[0].name, Evaluate(fields[0].value)), fields[1..])
  }

  function ScalarName(base: BaseType): string {
    match base
    case IntType => "Int"
    case FloatType => "Float"
    case StringType => "String"
    case BooleanType => "Boolean"
    case IdType => "ID"
  }

  /** The type as written, with the scalar at its end. */
  function InputTypeOf(t: TypeTree, base: BaseType): Type {
    match t
    case NamedTree(_) => Named(Scalar, ScalarName(base))
    case ListOf(of) => List(Some(InputTypeOf(of, base)))
    case NonNullOf(of) => NonNull(Some(InputTypeOf(of, base)))
  }

  lemma ScalarAcceptsExactlyConvertible(base: BaseType, v: Literal)
    requires IsConstant(v) && !v.Null?
    ensures ScalarAccepts(ScalarName(base), v) <==> Convert(base, Evaluate(v)).Success?
  {
    ConvertReads(base, Evaluate(v));
  }

  /** The validator accepts a literal for a type exactly when its value can be read along the type's modifiers. */
  lemma {:induction false} AcceptedExactlyWhenReadable(s: InputSchema, t: TypeTree, base: BaseType, v: Literal)
    requires WellFormed(t) && ScalarName(base) in s.scalars && IsConstant(v)
    ensures Inhabits(s, None, false, v, Some(InputTypeOf(t, base))) <==>
            IsReadable(Modifiers(t, false), base, Evaluate(v))
    decreases t, 1
  {
    if t.NonNullOf? {
      NonNullAcceptedExactlyWhenReadable(s, t.ofType, base, v);
      if v.Null? {
        NullIsNotReadable(t.ofType, base);
      }
    } else {
      NonNullAcceptedExactlyWhenReadable(s, t, base, v);
      assert Modifiers(t, false) == [Nullable] + Modifiers(t, true);
      assert ([Nullable] + Modifiers(t, true))[1..] == Modifiers(t, true);
      assert ([Nullable] + Modifiers(t, true))[0] in [Nullable] + Modifiers(t, true);
      EvaluatesToNullOnlyNull(v);
    }
  }

  lemma EvaluatesToNullOnlyNull(v: Literal)
    requires IsConstant(v)
    ensures Evaluate(v) == J.NullValue <==> v.Null?
  {
  }

  lemma NullIsNotReadable(t: TypeTree, base: BaseType)
    requires WellFormed(t) && !t.NonNullOf?
    ensures !IsReadable(Modifiers(t, true), base, J.NullValue)
  {
    if t.ListOf? {
      assert Modifiers(t, true)[0] == ListModifier && Modifiers(t, true)[0] in Modifiers(t, true);
    }
  }

  /** The same below a Non-Null, for everything but null. */
  lemma {:induction false} NonNullAcceptedExactlyWhenReadable(
    s: InputSchema, t: TypeTree, base: BaseType, v: Literal)
    requires WellFormed(t) && !t.NonNullOf? && ScalarName(base) in s.scalars && IsConstant(v)
    ensures !v.Null? ==>
              (Inhabits(s, None, false, v, Some(InputTypeOf(t, base))) <==>
               IsReadable(Modifiers(t, true), base, Evaluate(v)))
    decreases t, 0
  {
    if !v.Null? {
      match t
      case NamedTree(_) =>
        ScalarAcceptsExactlyConvertible(base, v);
        ConvertReads(base, Evaluate(v));
      case ListOf(of) =>
        var stack := Modifiers(t, true);
        assert stack == [ListModifier] + Modifiers(of, false);
        assert stack[0] in stack && stack[1..] == Modifiers(of, false);
        if v.ListValue? {
          var items := Evaluate(v).items;
          forall i | 0 <= i < |items|
            ensures IsReadable(Modifiers(of, false), base, items[i]) <==>
                    Inhabits(s, None, false, v.items[i], Some(InputTypeOf(of, base)))
          {
            assert v.items[i] in v.items;
            AcceptedExactlyWhenReadable(s, of, base, v.items[i]);
          }
        }
    }
  }

  /** So an accepted literal never fails to convert, and a rejected one never converts. */
  lemma AcceptedLiteralConverts(
    s: InputSchema, t: TypeTree, base: BaseType, v: Literal, name: string, arguments: seq<Entry<J.Value>>)
    requires WellFormed(t) && ScalarName(base) in s.scalars && IsConstant(v)
    requires Lookup(arguments, name) == Some(Evaluate(v))
    ensures Check(s, None, false, v, Some(InputTypeOf(t, base))).None? <==>
            Require(Modifiers(t, false), base, name, arguments).Success?
  {
    CheckIsInhabits(s, None, false, v, Some(InputTypeOf(t, base)));
    AcceptedExactlyWhenReadable(s, t, base, v);
    RequireAcceptsExactly(Modifiers(t, false), base, name, arguments, Evaluate(v));
  }
}
