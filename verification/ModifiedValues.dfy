/**
 Typed values under a stack of modifiers: the client serializes variables and parses responses,
 the service requires arguments. The three recursions peel the same stack and have to agree.
 */
module ModifiedValues {
  import opened Common
  import opened TypeModifiers
  import opened Base64
  import opened Identifiers
  import opened JsonValues

  datatype BaseType = IntType | FloatType | StringType | BooleanType | IdType

  datatype Native =
    | NativeInt(number: Int32)
    | NativeFloat(decimal: real)
    | NativeString(text: string)
    | NativeBoolean(flag: bool)
    | NativeId(id: Id)

  /** A base value, an optional or a vector of them. */
  datatype Modified =
    | Base(native: Native)
    | Absent
    | Present(value: Modified)
    | Vector(items: seq<Modified>)

  datatype ConversionError = MissingMember(name: string) | WrongType(expected: BaseType) | NotAList

  type Conversion<T> = Result<T, ConversionError>

  predicate OfType(base: BaseType, native: Native) {
    match base
    case IntType => native.NativeInt?
    case FloatType => native.NativeFloat?
    case StringType => native.NativeString?
    case BooleanType => native.NativeBoolean?
    case IdType => native.NativeId?
  }

  /** The none modifier may only stand at the end of a stack. */
  predicate OnlyNone(modifiers: seq<Modifier>) {
    forall modifier | modifier in modifiers :: modifier == NoModifier
  }

  /** The C++ type of the stack: optional for Nullable, vector for List. */
  predicate HasShape(modifiers: seq<Modifier>, base: BaseType, v: Modified) {
    if OnlyNone(modifiers) then v.Base? && OfType(base, v.native)
    else
      match modifiers[0]
      case NoModifier => false
      case Nullable => v == Absent || (v.Present? && HasShape(modifiers[1..], base, v.value))
      case ListModifier => v.Vector? && forall item | item in v.items :: HasShape(modifiers[1..], base, item)
  }

  // ---- ModifiedVariable::serialize ----

  function SerializeBase(native: Native): Value {
    match native
    case NativeInt(number) => IntValue(number)
    case NativeFloat(decimal) => FloatValue(decimal)
    case NativeString(text) => StringValue(text, false, false)
    case NativeBoolean(flag) => BooleanValue(flag)
    case NativeId(id) => IdValue(id)
  }

  function Serialize(modifiers: seq<Modifier>, base: BaseType, v: Modified): Value
    requires HasShape(modifiers, base, v)
  {
    if OnlyNone(modifiers) then SerializeBase(v.native)
    else if modifiers[0] == Nullable then
      if v == Absent then NullValue else Serialize(modifiers[1..], base, v.value)
    else
      ListValue(seq(|v.items|, i requires 0 <= i < |v.items| => Serialize(modifiers[1..], base, v.items[i])))
  }

  // ---- Conversions of base types, the same on both sides ----

  function Convert(base: BaseType, value: Value): Conversion<Native> {
    match base
    case IntType => if value.IntValue? then Success(NativeInt(value.number)) else Failure(WrongType(base))
    case FloatType =>
      if value.FloatValue? then Success(NativeFloat(value.decimal))
      else if value.IntValue? then Success(NativeFloat(value.number as real))
      else Failure(WrongType(base))
    case StringType => if value.StringValue? then Success(NativeString(value.text)) else Failure(WrongType(base))
    case BooleanType => if value.BooleanValue? then Success(NativeBoolean(value.flag)) else Failure(WrongType(base))
    case IdType =>
      if value.IdValue? then Success(NativeId(value.id))
      else if value.StringValue? && (value.fromJson || value.fromInput) then Success(NativeId(Opaque(value.text)))
      else Failure(WrongType(base))
  }

  function ConvertBase(base: BaseType, value: Value): Conversion<Modified> {
    match Convert(base, value)
    case Success(native) => Success(Base(native))
    case Failure(error) => Failure(error)
  }

  function Prefixed(first: Conversion<Modified>, rest: Conversion<seq<Modified>>): Conversion<seq<Modified>> {
    if first.Failure? then Failure(first.error)
    else if rest.Failure? then rest
    else Success([first.value] + rest.value)
  }

  function Wrapped(converted: Conversion<Modified>): Conversion<Modified> {
    if converted.Failure? then converted else Success(Present(converted.value))
  }

  function Collected(converted: Conversion<seq<Modified>>): Conversion<Modified> {
    if converted.Failure? then Failure(converted.error) else Success(Vector(converted.value))
  }

  // ---- ModifiedArgument::require ----

  /** None modifiers other than at the end do not compile; they are treated as a base type here. */
  function Require(modifiers: seq<Modifier>, base: BaseType, name: string, arguments: seq<Entry<Value>>)
    : Conversion<Modified>
    decreases |modifiers|, 0, 0
  {
    var found := Lookup(arguments, name);
    if OnlyNone(modifiers) || modifiers[0] == NoModifier then
      if found.None? then Failure(MissingMember(name)) else ConvertBase(base, found.value)
    else if modifiers[0] == Nullable then
      if found.None? || found.value == NullValue then Success(Absent)
      else Wrapped(Require(modifiers[1..], base, name, arguments))
    else if found.None? then Failure(MissingMember(name))
    else if !found.value.ListValue? then Failure(NotAList)
    else Collected(RequireItems(modifiers[1..], base, name, found.value.items))
  }

  /** Every element is looked up again in a map of its own, under the name of the argument. */
  function RequireItems(modifiers: seq<Modifier>, base: BaseType, name: string, items: seq<Value>)
    : Conversion<seq<Modified>>
    decreases |modifiers|, 1, |items|
  {
    if items == [] then Success([])
    else
      Prefixed(
        Require(modifiers, base, name, [Entry(name, items[0])]), RequireItems(modifiers, base, name, items[1..]))
  }

  // ---- ModifiedResponse::parse ----

  /** A response that is no list parses as an empty one. */
  function ParseResponse(modifiers: seq<Modifier>, base: BaseType, response: Value): Conversion<Modified>
    decreases |modifiers|, 0, 0
  {
    if OnlyNone(modifiers) || modifiers[0] == NoModifier then ConvertBase(base, response)
    else if modifiers[0] == Nullable then
      if response == NullValue then Success(Absent) else Wrapped(ParseResponse(modifiers[1..], base, response))
    else if !response.ListValue? then Success(Vector([]))
    else Collected(ParseItems(modifiers[1..], base, response.items))
  }

  function ParseItems(modifiers: seq<Modifier>, base: BaseType, items: seq<Value>): Conversion<seq<Modified>>
    decreases |modifiers|, 1, |items|
  {
    if items == [] then Success([])
    else Prefixed(ParseResponse(modifiers, base, items[0]), ParseItems(modifiers, base, items[1..]))
  }

  /** The map around a list element is invisible: both sides read a value the same way. */
  lemma {:induction false} RequireIsParse(
    modifiers: seq<Modifier>, base: BaseType, name: string, arguments: seq<Entry<Value>>, value: Value)
    requires Lookup(arguments, name) == Some(value)
    requires HasLists(modifiers, value)
    ensures Require(modifiers, base, name, arguments) == ParseResponse(modifiers, base, value)
    decreases |modifiers|, 0, 0
  {
    if OnlyNone(modifiers) || modifiers[0] == NoModifier {
    } else if modifiers[0] == Nullable {
      if value != NullValue {
        RequireIsParse(modifiers[1..], base, name, arguments, value);
      }
    } else {
      RequireItemsIsParseItems(modifiers[1..], base, name, value.items);
    }
  }

  lemma {:induction false} RequireItemsIsParseItems(
    modifiers: seq<Modifier>, base: BaseType, name: string, items: seq<Value>)
    requires forall item | item in items :: HasLists(modifiers, item)
    ensures RequireItems(modifiers, base, name, items) == ParseItems(modifiers, base, items)
    decreases |modifiers|, 1, |items|
  {
    if items != [] {
      RequireIsParse(modifiers, base, name, [Entry(name, items[0])], items[0]);
      RequireItemsIsParseItems(modifiers, base, name, items[1..]);
    }
  }

  // ---- Missing arguments and values of the wrong type ----

  /** Without the argument only an optional can be required, and it reads like an explicit null. */
  lemma MissingArgumentIsNull(modifiers: seq<Modifier>, base: BaseType, name: string, arguments: seq<Entry<Value>>)
    requires Lookup(arguments, name).None?
    ensures var required := Require(modifiers, base, name, arguments);
            (required.Success? <==> HasShape(modifiers, base, Absent)) &&
            (required.Success? ==>
               required.value == Absent &&
               required == Require(modifiers, base, name, [Entry(name, NullValue)])) &&
            (required.Failure? ==> required.error == MissingMember(name))
  {
    assert Lookup([Entry(name, NullValue)], name) == Some(NullValue);
  }

  /** The value can be read: the base type where it stands, null where optional, lists all the way. */
  predicate IsReadable(modifiers: seq<Modifier>, base: BaseType, value: Value)
    decreases |modifiers|
  {
    if OnlyNone(modifiers) || modifiers[0] == NoModifier then IsOf(base, value)
    else if modifiers[0] == Nullable then value == NullValue || IsReadable(modifiers[1..], base, value)
    else value.ListValue? && forall item | item in value.items :: IsReadable(modifiers[1..], base, item)
  }

  /** Integers are numbers too, and a text from JSON or from a document may be an identifier. */
  predicate IsOf(base: BaseType, value: Value) {
    match value
    case IntValue(_) => base == IntType || base == FloatType
    case FloatValue(_) => base == FloatType
    case StringValue(_, fromJson, fromInput) => base == StringType || (base == IdType && (fromJson || fromInput))
    case BooleanValue(_) => base == BooleanType
    case IdValue(_) => base == IdType
    case _ => false
  }

  /** What a readable value of a base type is read as. */
  predicate ReadsAs(base: BaseType, value: Value, native: Native) {
    match native
    case NativeInt(number) => base == IntType && value == IntValue(number)
    case NativeFloat(decimal) =>
      base == FloatType && (value == FloatValue(decimal) || (value.IntValue? && decimal == value.number as real))
    case NativeString(text) => base == StringType && value.StringValue? && value.text == text
    case NativeBoolean(flag) => base == BooleanType && value == BooleanValue(flag)
    case NativeId(id) =>
      base == IdType && (value == IdValue(id) || (value.StringValue? && id == Opaque(value.text)))
  }

  lemma ConvertReads(base: BaseType, value: Value)
    ensures Convert(base, value).Success? <==> IsOf(base, value)
    ensures Convert(base, value).Success? ==> ReadsAs(base, value, Convert(base, value).value)
    ensures Convert(base, value).Failure? ==> Convert(base, value).error == WrongType(base)
  {
  }

  /** A given argument is accepted exactly when it can be read. */
  lemma {:induction false} RequireAcceptsExactly(
    modifiers: seq<Modifier>, base: BaseType, name: string, arguments: seq<Entry<Value>>, value: Value)
    requires Lookup(arguments, name) == Some(value)
    ensures Require(modifiers, base, name, arguments).Success? <==> IsReadable(modifiers, base, value)
    decreases |modifiers|, 0, 0
  {
    if OnlyNone(modifiers) || modifiers[0] == NoModifier {
      ConvertReads(base, value);
    } else if modifiers[0] == Nullable {
      if value != NullValue {
        RequireAcceptsExactly(modifiers[1..], base, name, arguments, value);
      }
    } else if value.ListValue? {
      RequireItemsAcceptsExactly(modifiers[1..], base, name, value.items);
    }
  }

  lemma {:induction false} RequireItemsAcceptsExactly(
    modifiers: seq<Modifier>, base: BaseType, name: string, items: seq<Value>)
    ensures RequireItems(modifiers, base, name, items).Success? <==>
            forall item | item in items :: IsReadable(modifiers, base, item)
    decreases |modifiers|, 1, |items|
  {
    if items != [] {
      RequireAcceptsExactly(modifiers, base, name, [Entry(name, items[0])], items[0]);
      RequireItemsAcceptsExactly(modifiers, base, name, items[1..]);
      assert items == [items[0]] + items[1..];
    }
  }

  /** A response that is no list where one is due parses as an empty one, where require fails. */
  lemma NonListsDiffer(
    modifiers: seq<Modifier>, base: BaseType, name: string, arguments: seq<Entry<Value>>, value: Value)
    requires Lookup(arguments, name) == Some(value) && !value.ListValue?
    requires modifiers != [] && modifiers[0] == ListModifier
    ensures ParseResponse(modifiers, base, value) == Success(Vector([]))
    ensures Require(modifiers, base, name, arguments) == Failure(NotAList)
  {
    assert modifiers[0] in modifiers;
  }

  /** Wherever the stack says list, the value has one. */
  predicate HasLists(modifiers: seq<Modifier>, value: Value)
    decreases |modifiers|
  {
    if OnlyNone(modifiers) || modifiers[0] == NoModifier then true
    else if modifiers[0] == Nullable then value == NullValue || HasLists(modifiers[1..], value)
    else value.ListValue? && forall item | item in value.items :: HasLists(modifiers[1..], item)
  }

  lemma {:induction false} SerializedHasLists(modifiers: seq<Modifier>, base: BaseType, v: Modified)
    requires HasShape(modifiers, base, v)
    ensures HasLists(modifiers, Serialize(modifiers, base, v))
    ensures HasLists(modifiers, Json(Serialize(modifiers, base, v)))
    decreases |modifiers|
  {
    if OnlyNone(modifiers) {
    } else if modifiers[0] == Nullable {
      if v.Present? {
        SerializedHasLists(modifiers[1..], base, v.value);
      }
    } else {
      forall i | 0 <= i < |v.items|
        ensures HasLists(modifiers[1..], Serialize(modifiers[1..], base, v.items[i]))
        ensures HasLists(modifiers[1..], Json(Serialize(modifiers[1..], base, v.items[i])))
      {
        SerializedHasLists(modifiers[1..], base, v.items[i]);
      }
    }
  }

  // ---- Round trips ----

  /** No optional of an optional. TypeVisitor never produces one. */
  predicate NullableOnce(modifiers: seq<Modifier>) {
    forall i | 0 <= i < |modifiers| - 1 :: !(modifiers[i] == Nullable && modifiers[i + 1] == Nullable)
  }

  /** How a reader sees a value: as it was, or identifiers as opaque strings after JSON text. */
  function Carried(viaJson: bool, v: Modified): Modified {
    match v
    case Base(native) =>
      if viaJson && native.NativeId? then Base(NativeId(Opaque(ReleaseText(native.id)))) else v
    case Absent => v
    case Present(value) => Present(Carried(viaJson, value))
    case Vector(items) => Vector(seq(|items|, i requires 0 <= i < |items| => Carried(viaJson, items[i])))
  }

  function Sent(viaJson: bool, value: Value): Value {
    if viaJson then Json(value) else value
  }

  lemma {:induction false} ParseUndoesSerialize(
    viaJson: bool, modifiers: seq<Modifier>, base: BaseType, v: Modified)
    requires HasShape(modifiers, base, v) && NullableOnce(modifiers)
    ensures ParseResponse(modifiers, base, Sent(viaJson, Serialize(modifiers, base, v))) == Success(Carried(viaJson, v))
    decreases |modifiers|, 0, 0
  {
    if OnlyNone(modifiers) {
    } else if modifiers[0] == Nullable {
      if v.Present? {
        assert NullableOnce(modifiers[1..]);
        ParseUndoesSerialize(viaJson, modifiers[1..], base, v.value);
        assert Serialize(modifiers[1..], base, v.value) != NullValue;
      }
    } else {
      assert NullableOnce(modifiers[1..]);
      var sent := Sent(viaJson, Serialize(modifiers, base, v));
      forall i | 0 <= i < |v.items|
        ensures sent.items[i] == Sent(viaJson, Serialize(modifiers[1..], base, v.items[i]))
      {
      }
      ParseUndoesSerializedItems(viaJson, modifiers[1..], base, v.items, sent.items);
    }
  }

  lemma {:induction false} ParseUndoesSerializedItems(
    viaJson: bool, modifiers: seq<Modifier>, base: BaseType, items: seq<Modified>, sent: seq<Value>)
    requires NullableOnce(modifiers) && |sent| == |items|
    requires forall i | 0 <= i < |items| ::
               HasShape(modifiers, base, items[i]) &&
               sent[i] == Sent(viaJson, Serialize(modifiers, base, items[i]))
    ensures ParseItems(modifiers, base, sent) == Success(Carried(viaJson, Vector(items)).items)
    decreases |modifiers|, 1, |items|
  {
    var carried := Carried(viaJson, Vector(items)).items;
    if items == [] {
      assert carried == [];
    } else {
      ParseUndoesSerialize(viaJson, modifiers, base, items[0]);
      ParseUndoesSerializedItems(viaJson, modifiers, base, items[1..], sent[1..]);
      assert carried == [Carried(viaJson, items[0])] + Carried(viaJson, Vector(items[1..])).items;
    }
  }

  lemma {:induction false} CarriedDirectly(v: Modified)
    ensures Carried(false, v) == v
  {
    match v
    case Base(_) =>
    case Absent =>
    case Present(value) => CarriedDirectly(value);
    case Vector(items) =>
      forall i | 0 <= i < |items|
        ensures Carried(false, items[i]) == items[i]
      {
        CarriedDirectly(items[i]);
      }
      assert Carried(false, v).items == items;
  }

  /** The service gets back every argument the client serialized, and so does the client's own parser. */
  lemma ArgumentRoundTrip(
    modifiers: seq<Modifier>, base: BaseType, name: string, arguments: seq<Entry<Value>>, v: Modified)
    requires HasShape(modifiers, base, v) && NullableOnce(modifiers)
    requires Lookup(arguments, name) == Some(Serialize(modifiers, base, v))
    ensures Require(modifiers, base, name, arguments) == Success(v)
    ensures ParseResponse(modifiers, base, Serialize(modifiers, base, v)) == Success(v)
  {
    SerializedHasLists(modifiers, base, v);
    RequireIsParse(modifiers, base, name, arguments, Serialize(modifiers, base, v));
    ParseUndoesSerialize(false, modifiers, base, v);
    CarriedDirectly(v);
  }

  /** A value of the stack, used to build a counterexample below other modifiers. */
  function Sample(modifiers: seq<Modifier>, base: BaseType): Modified
    requires forall i | 0 <= i < |modifiers| - 1 :: modifiers[i] != NoModifier
    ensures HasShape(modifiers, base, Sample(modifiers, base))
  {
    if OnlyNone(modifiers) then
      Base(match base
           case IntType => NativeInt(0)
           case FloatType => NativeFloat(0.0)
           case StringType => NativeString("")
           case BooleanType => NativeBoolean(false)
           case IdType => NativeId(Opaque("")))
    else if modifiers[0] == Nullable then Absent
    else Vector([])
  }

  /** An optional of an optional loses the difference between its two empty values. */
  lemma {:induction false} DoubleNullableLosesValue(modifiers: seq<Modifier>, base: BaseType) returns (v: Modified)
    requires forall i | 0 <= i < |modifiers| - 1 :: modifiers[i] != NoModifier
    requires !NullableOnce(modifiers)
    ensures HasShape(modifiers, base, v)
    ensures ParseResponse(modifiers, base, Serialize(modifiers, base, v)) != Success(v)
    decreases |modifiers|
  {
    if modifiers[0] == Nullable && modifiers[1] == Nullable {
      v := Present(Absent);
      assert modifiers[1] in modifiers && modifiers[1] in modifiers[1..];
      assert HasShape(modifiers[1..], base, Absent);
    } else {
      var rest := modifiers[1..];
      var i :| 0 <= i < |modifiers| - 1 && modifiers[i] == Nullable && modifiers[i + 1] == Nullable;
      assert rest[i - 1] == Nullable && rest[i] == Nullable;
      var inner := DoubleNullableLosesValue(rest, base);
      assert modifiers[i] in modifiers && modifiers[i] != NoModifier;
      if modifiers[0] == Nullable {
        v := Present(inner);
      } else {
        v := Vector([inner]);
        var serialized := Serialize(modifiers, base, v);
        assert serialized.items == [Serialize(rest, base, inner)];
        OneItemParses(rest, base, serialized.items[0]);
      }
    }
  }

  lemma OneItemParses(modifiers: seq<Modifier>, base: BaseType, item: Value)
    ensures ParseItems(modifiers, base, [item]) == Prefixed(ParseResponse(modifiers, base, item), Success([]))
  {
    assert [item][1..] == [];
  }

  /** Every value survives the trip exactly when no optional is wrapped in an optional. */
  lemma RoundTripExactlyWhenNullableOnce(modifiers: seq<Modifier>, base: BaseType)
    requires forall i | 0 <= i < |modifiers| - 1 :: modifiers[i] != NoModifier
    ensures NullableOnce(modifiers) <==>
            forall v | HasShape(modifiers, base, v) ::
              ParseResponse(modifiers, base, Serialize(modifiers, base, v)) == Success(v)
  {
    if NullableOnce(modifiers) {
      forall v | HasShape(modifiers, base, v)
        ensures ParseResponse(modifiers, base, Serialize(modifiers, base, v)) == Success(v)
      {
        ParseUndoesSerialize(false, modifiers, base, v);
        CarriedDirectly(v);
      }
    } else {
      var v := DoubleNullableLosesValue(modifiers, base);
    }
  }

  /** The parser of types never stacks two Nullable modifiers. */
  lemma {:induction false} ParsedStacksAreNullableOnce(t: TypeTree, nonNull: bool)
    ensures NullableOnce(Modifiers(t, nonNull))
    ensures forall modifier | modifier in Modifiers(t, nonNull) :: modifier != NoModifier
  {
    match t
    case NamedTree(_) =>
    case NonNullOf(of) => ParsedStacksAreNullableOnce(of, true);
    case ListOf(of) =>
      ParsedStacksAreNullableOnce(of, false);
      var rest := Modifiers(of, false);
      var front := if nonNull then [ListModifier] else [Nullable, ListModifier];
      var all := Modifiers(t, nonNull);
      assert all == front + rest;
      forall i | 0 <= i < |all| - 1
        ensures !(all[i] == Nullable && all[i + 1] == Nullable)
      {
        if i >= |front| {
          assert all[i] == rest[i - |front|] && all[i + 1] == rest[i + 1 - |front|];
        }
      }
  }

  // ---- The whole way: client, JSON text, service ----

  /** Equal as typed values, identifiers compared as identifiers. */
  predicate SameValue(left: Modified, right: Modified) {
    match left
    case Base(l) =>
      right.Base? &&
      if l.NativeId? then right.native.NativeId? && SameId(l.id, right.native.id) else l == right.native
    case Absent => right == Absent
    case Present(l) => right.Present? && SameValue(l, right.value)
    case Vector(l) =>
      right.Vector? && |l| == |right.items| && forall i | 0 <= i < |l| :: SameValue(l[i], right.items[i])
  }

  predicate NulFreeValue(v: Modified) {
    match v
    case Base(NativeString(text)) => NulFreeText(text)
    case Base(NativeId(Opaque(text))) => NulFreeText(text)
    case Base(_) => true
    case Absent => true
    case Present(value) => NulFreeValue(value)
    case Vector(items) => forall item | item in items :: NulFreeValue(item)
  }

  lemma {:induction false} CarriedIsSame(v: Modified)
    ensures SameValue(v, Carried(true, v))
  {
    match v
    case Base(native) =>
      if native.NativeId? {
        ReleasedTextIsSame(native.id);
      }
    case Absent =>
    case Present(value) => CarriedIsSame(value);
    case Vector(items) =>
      forall i | 0 <= i < |items|
        ensures SameValue(items[i], Carried(true, items[i]))
      {
        CarriedIsSame(items[i]);
      }
  }

  lemma {:induction false} SerializedIsNulFree(modifiers: seq<Modifier>, base: BaseType, v: Modified)
    requires HasShape(modifiers, base, v) && NulFreeValue(v)
    ensures HasDistinctNames(Serialize(modifiers, base, v)) && NulFree(Serialize(modifiers, base, v))
    decreases |modifiers|
  {
    if OnlyNone(modifiers) {
      if v.native.NativeId? && v.native.id.Bytes? {
        EncodeIsNulFree(v.native.id.bytes);
      }
    } else if modifiers[0] == Nullable {
      if v.Present? {
        SerializedIsNulFree(modifiers[1..], base, v.value);
      }
    } else {
      forall i | 0 <= i < |v.items|
        ensures HasDistinctNames(Serialize(modifiers[1..], base, v.items[i]))
        ensures NulFree(Serialize(modifiers[1..], base, v.items[i]))
      {
        SerializedIsNulFree(modifiers[1..], base, v.items[i]);
      }
    }
  }

  /**
   A typed value serialized by the client, written as JSON, read back and required by the service
   is the same value, whatever the modifiers.
   */
  lemma ArgumentSurvivesJson(
    modifiers: seq<Modifier>, base: BaseType, name: string, arguments: seq<Entry<Value>>, v: Modified)
    requires HasShape(modifiers, base, v) && NullableOnce(modifiers) && NulFreeValue(v)
    requires Lookup(arguments, name) == Some(ReadBack(Serialize(modifiers, base, v)))
    ensures Require(modifiers, base, name, arguments).Success?
    ensures SameValue(v, Require(modifiers, base, name, arguments).value)
  {
    var serialized := Serialize(modifiers, base, v);
    SerializedIsNulFree(modifiers, base, v);
    NulFreeReadsBackAsJson(serialized);
    SerializedHasLists(modifiers, base, v);
    RequireIsParse(modifiers, base, name, arguments, Json(serialized));
    ParseUndoesSerialize(true, modifiers, base, v);
    CarriedIsSame(v);
  }
}
