/**
 Four translations between the syntax of a type, its stack of modifiers and its tree of wrappers.
 A stack records what is nullable, a tree what is not; both sides walk in opposite directions.
 */
module TypeModifiers {

  datatype Modifier = NoModifier | Nullable | ListModifier

  /** A type as written, and as a tree of introspection wrappers. */
  datatype TypeTree = NamedTree(name: string) | ListOf(ofType: TypeTree) | NonNullOf(ofType: TypeTree)

  /** The grammar allows no Non-Null directly below Non-Null. */
  predicate WellFormed(t: TypeTree) {
    match t
    case NamedTree(_) => true
    case ListOf(of) => WellFormed(of)
    case NonNullOf(of) => !of.NonNullOf? && WellFormed(of)
  }

  function NameOf(t: TypeTree): string {
    if t.NamedTree? then t.name else NameOf(t.ofType)
  }

  /** The stack of a type, outermost modifier first; nonNull when a Non-Null was just passed. */
  function Modifiers(t: TypeTree, nonNull: bool): seq<Modifier> {
    match t
    case NamedTree(_) => if nonNull then [] else [Nullable]
    case ListOf(of) => (if nonNull then [] else [Nullable]) + [ListModifier] + Modifiers(of, false)
    case NonNullOf(of) => Modifiers(of, true)
  }

  // ---- TypeVisitor: syntax to stack ----

  class TypeVisitor {
    var name: string
    var nonNull: bool
    var modifiers: seq<Modifier>

    constructor ()
      ensures modifiers == [] && !nonNull
    {
      name, nonNull, modifiers := "", false, [];
    }

    method Visit(t: TypeTree)
      modifies this
      ensures name == NameOf(t)
      ensures modifiers == old(modifiers) + Modifiers(t, old(nonNull))
      decreases t
    {
      match t {
        case NonNullOf(of) =>
          nonNull := true;
          Visit(of);
        case ListOf(of) =>
          if !nonNull {
            modifiers := modifiers + [Nullable];
          }
          nonNull := false;
          modifiers := modifiers + [ListModifier];
          Visit(of);
        case NamedTree(n) =>
          if !nonNull {
            modifiers := modifiers + [Nullable];
          }
          name := n;
      }
    }
  }

  // ---- getSchemaType: stack to tree, from the inside out ----

  datatype Partial = Partial(tree: TypeTree, nonNull: bool)
  {
    /** A pending Non-Null is wrapped around what there is so far. */
    function Closed(): TypeTree {
      if nonNull then NonNullOf(tree) else tree
    }
  }

  function WrapOutside(modifier: Modifier, inner: Partial): Partial {
    match modifier
    case NoModifier => Partial(inner.Closed(), true)
    case ListModifier => Partial(ListOf(inner.Closed()), true)
    case Nullable => Partial(inner.tree, false)
  }

  function InsideOut(modifiers: seq<Modifier>, innermost: Partial): Partial {
    if modifiers == [] then innermost
    else WrapOutside(modifiers[0], InsideOut(modifiers[1..], innermost))
  }

  function SchemaType(name: string, modifiers: seq<Modifier>): TypeTree {
    InsideOut(modifiers, Partial(NamedTree(name), true)).Closed()
  }

  method GetSchemaType(name: string, modifiers: seq<Modifier>) returns (introspectionType: TypeTree)
    ensures introspectionType == SchemaType(name, modifiers)
  {
    introspectionType := NamedTree(name);
    var nonNull := true;
    for i := |modifiers| downto 0
      invariant Partial(introspectionType, nonNull) == InsideOut(modifiers[i..], Partial(NamedTree(name), true))
    {
      assert modifiers[i..][1..] == modifiers[i + 1..];
      if nonNull {
        match modifiers[i] {
          case NoModifier => introspectionType := NonNullOf(introspectionType);
          case ListModifier => introspectionType := NonNullOf(introspectionType);
          case Nullable => nonNull := false;
        }
      }
      match modifiers[i] {
        case NoModifier => nonNull := true;
        case ListModifier =>
          nonNull := true;
          introspectionType := ListOf(introspectionType);
        case Nullable =>
      }
    }
    assert modifiers[0..] == modifiers;
    if nonNull {
      introspectionType := NonNullOf(introspectionType);
    }
  }

  lemma {:induction false} InsideOutRebuilds(t: TypeTree, nonNull: bool)
    requires WellFormed(t) && !t.NonNullOf?
    ensures InsideOut(Modifiers(t, nonNull), Partial(NamedTree(NameOf(t)), true)) == Partial(t, nonNull)
  {
    if t.ListOf? {
      var of := t.ofType;
      var innermost := Partial(NamedTree(NameOf(t)), true);
      var inner := if of.NonNullOf? then of.ofType else of;
      InsideOutRebuilds(inner, of.NonNullOf?);
      var rest := [ListModifier] + Modifiers(of, false);
      assert rest[0] == ListModifier && rest[1..] == Modifiers(of, false);
      assert NameOf(inner) == NameOf(of) == NameOf(t);
      assert InsideOut(Modifiers(of, false), innermost) == Partial(inner, of.NonNullOf?);
      assert InsideOut(rest, innermost) == WrapOutside(ListModifier, InsideOut(rest[1..], innermost));
      assert InsideOut(rest, innermost) == Partial(t, true);
      if nonNull {
        assert Modifiers(t, true) == rest;
      } else {
        assert Modifiers(t, false) == [Nullable] + rest;
        assert ([Nullable] + rest)[1..] == rest;
      }
    }
  }

  /** The schema type rebuilt from the stack of a parsed type is that type. */
  lemma SchemaTypeRebuildsParsedType(t: TypeTree)
    requires WellFormed(t)
    ensures SchemaType(NameOf(t), Modifiers(t, false)) == t
  {
    if t.NonNullOf? {
      InsideOutRebuilds(t.ofType, true);
    } else {
      InsideOutRebuilds(t, false);
    }
  }

  // ---- unwrapSchemaType: tree back to stack ----

  method UnwrapSchemaType(tree: TypeTree) returns (name: string, modifiers: seq<Modifier>)
    ensures name == NameOf(tree) && modifiers == Modifiers(tree, false)
  {
    var rest := tree;
    var wrapped, nonNull := true, false;
    modifiers := [];
    while wrapped
      invariant NameOf(rest) == NameOf(tree)
      invariant if wrapped then modifiers + Modifiers(rest, nonNull) == Modifiers(tree, false)
                else rest.NamedTree? && modifiers == Modifiers(tree, false)
      decreases wrapped, rest
    {
      match rest {
        case NonNullOf(of) =>
          nonNull := true;
          rest := of;
        case ListOf(of) =>
          if !nonNull {
            modifiers := modifiers + [Nullable];
          }
          nonNull := false;
          modifiers := modifiers + [ListModifier];
          rest := of;
        case NamedTree(_) =>
          if !nonNull {
            modifiers := modifiers + [Nullable];
          }
          nonNull := false;
          wrapped := false;
      }
    }
    name := rest.name;
  }

  /** Unwrapping undoes getSchemaType on every stack the parser produces. */
  lemma UnwrapUndoesSchemaType(t: TypeTree)
    requires WellFormed(t)
    ensures var rebuilt := SchemaType(NameOf(t), Modifiers(t, false));
            NameOf(rebuilt) == NameOf(t) && Modifiers(rebuilt, false) == Modifiers(t, false)
  {
    SchemaTypeRebuildsParsedType(t);
  }

  // ---- getIntrospectionType: stack to source text, from the outside in ----

  datatype Token = WrapNonNull | WrapList | LookupType(name: string) | Close

  function OpeningTokens(modifiers: seq<Modifier>, nonNull: bool): seq<Token> {
    if modifiers == [] then (if nonNull then [WrapNonNull] else [])
    else
      match modifiers[0]
      case NoModifier => (if nonNull then [WrapNonNull] else []) + OpeningTokens(modifiers[1..], true)
      case ListModifier =>
        (if nonNull then [WrapNonNull] else []) + [WrapList] + OpeningTokens(modifiers[1..], true)
      case Nullable => OpeningTokens(modifiers[1..], false)
  }

  function Closing(count: nat): seq<Token> {
    seq(count, _ => Close)
  }

  method GetIntrospectionType(name: string, modifiers: seq<Modifier>) returns (text: seq<Token>)
    ensures var opening := OpeningTokens(modifiers, true);
            text == opening + [LookupType(name)] + Closing(|opening|)
  {
    var wrapperCount := 0;
    var nonNull := true;
    text := [];
    for i := 0 to |modifiers|
      invariant wrapperCount == |text|
      invariant text + OpeningTokens(modifiers[i..], nonNull) == OpeningTokens(modifiers, true)
    {
      assert modifiers[i..][1..] == modifiers[i + 1..];
      var modifier := modifiers[i];
      if nonNull {
        match modifier {
          case NoModifier =>
            text := text + [WrapNonNull];
            wrapperCount := wrapperCount + 1;
          case ListModifier =>
            text := text + [WrapNonNull];
            wrapperCount := wrapperCount + 1;
          case Nullable => nonNull := false;
        }
      }
      match modifier {
        case NoModifier => nonNull := true;
        case ListModifier =>
          nonNull := true;
          text := text + [WrapList];
          wrapperCount := wrapperCount + 1;
        case Nullable =>
      }
    }
    if nonNull {
      text := text + [WrapNonNull];
      wrapperCount := wrapperCount + 1;
    }
    ghost var opening := text;
    assert opening == OpeningTokens(modifiers, true);
    text := text + [LookupType(name)];
    for i := 0 to wrapperCount
      invariant text == opening + [LookupType(name)] + Closing(i)
    {
      text := text + [Close];
    }
  }

  /** The nested calls that build a tree of wrappers. */
  function Text(t: TypeTree): seq<Token> {
    match t
    case NamedTree(name) => [LookupType(name)]
    case ListOf(of) => [WrapList] + Text(of) + [Close]
    case NonNullOf(of) => [WrapNonNull] + Text(of) + [Close]
  }

  function Opening(t: TypeTree): seq<Token> {
    match t
    case NamedTree(_) => []
    case ListOf(of) => [WrapList] + Opening(of)
    case NonNullOf(of) => [WrapNonNull] + Opening(of)
  }

  lemma {:induction false} TextNests(t: TypeTree)
    ensures Text(t) == Opening(t) + [LookupType(NameOf(t))] + Closing(|Opening(t)|)
  {
    if !t.NamedTree? {
      TextNests(t.ofType);
      assert Closing(|Opening(t)|) == Closing(|Opening(t.ofType)|) + [Close];
    }
  }

  /** Whatever the stack, walking outside in opens the wrappers that walking inside out closes. */
  lemma {:induction false} OutsideInOpens(name: string, modifiers: seq<Modifier>)
    ensures var partial := InsideOut(modifiers, Partial(NamedTree(name), true));
            OpeningTokens(modifiers, true) == Opening(partial.Closed()) &&
            OpeningTokens(modifiers, false) == Opening(partial.tree) && NameOf(partial.tree) == name
  {
    if modifiers != [] {
      OutsideInOpens(name, modifiers[1..]);
      var inner := InsideOut(modifiers[1..], Partial(NamedTree(name), true));
      assert Opening(inner.Closed()) == (if inner.nonNull then [WrapNonNull] else []) + Opening(inner.tree);
      assert [WrapNonNull] + ([WrapList] + Opening(inner.Closed())) ==
             [WrapNonNull] + [WrapList] + Opening(inner.Closed());
    }
  }

  /** The generated text builds the same wrappers as getSchemaType on every stack, although it walks the other way. */
  lemma IntrospectionTextBuildsSchemaType(name: string, modifiers: seq<Modifier>)
    ensures var opening := OpeningTokens(modifiers, true);
            opening + [LookupType(name)] + Closing(|opening|) == Text(SchemaType(name, modifiers))
  {
    OutsideInOpens(name, modifiers);
    var tree := SchemaType(name, modifiers);
    TextNests(tree);
    assert NameOf(tree) == name;
  }

  /** The text of a tree determines the tree. */
  lemma {:induction false} TextIsInjective(left: TypeTree, right: TypeTree)
    requires Text(left) == Text(right)
    ensures left == right
  {
    assert Text(left)[0] == Text(right)[0];
    if !left.NamedTree? {
      var l, r := Text(left), Text(right);
      assert Text(left.ofType) == l[1..|l| - 1] == r[1..|r| - 1] == Text(right.ofType);
      TextIsInjective(left.ofType, right.ofType);
    }
  }
}
