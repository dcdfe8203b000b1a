/**
 Response values, the events Writer emits for them, and the ResponseHandler that rebuilds a value
 from the events a JSON reader delivers.
 */
module JsonValues {
  import opened Common
  import opened Base64
  import opened Identifiers

  type Int32 = x: int | -0x8000_0000 <= x < 0x8000_0000

  datatype Value =
    | MapValue(members: seq<Entry<Value>>)
    | ListValue(items: seq<Value>)
    | StringValue(text: string, fromJson: bool, fromInput: bool)
    | NullValue
    | BooleanValue(flag: bool)
    | IntValue(number: Int32)
    | FloatValue(decimal: real)
    | EnumValue(symbol: string)
    | IdValue(id: Id)
    | ScalarValue(scalar: Value)

  // ---- Values ----

  /** Every map of the value has distinct names, as emplace_back keeps them. */
  predicate HasDistinctNames(v: Value) {
    match v
    case MapValue(members) =>
      DistinctNames(members) && forall member | member in members :: HasDistinctNames(member.value)
    case ListValue(items) => forall item | item in items :: HasDistinctNames(item)
    case ScalarValue(scalar) => HasDistinctNames(scalar)
    case _ => true
  }

  /** emplace_back of a map: a name already there keeps its value. */
  function EmplaceBack(members: seq<Entry<Value>>, name: string, value: Value): seq<Entry<Value>> {
    if HasName(members, name) then members else members + [Entry(name, value)]
  }

  // ---- Events ----

  datatype Event =
    | StartObject
    | Key(name: string)
    | EndObject
    | StartArray
    | EndArray
    | Null
    | Bool(flag: bool)
    | Int(number: int)
    | Uint(natural: nat)
    | Int64(wide: int)
    | Uint64(wideNatural: nat)
    | Double(decimal: real)
    | String(text: string)

  /** A string passed as a C string ends at its first NUL. */
  function CString(s: string): string {
    if s == "" || s[0] == '\0' then "" else [s[0]] + CString(s[1..])
  }

  predicate NulFreeText(s: string) {
    '\0' !in s
  }

  lemma {:induction false} CStringOfNulFree(s: string)
    ensures CString(s) == s <==> NulFreeText(s)
  {
    if s != "" {
      assert s == [s[0]] + s[1..];
      CStringOfNulFree(s[1..]);
      if s[0] != '\0' && CString(s) == s {
        assert CString(s)[1..] == CString(s[1..]) == s[1..];
      }
    }
  }

  /** What Writer::write emits. */
  function Events(v: Value): seq<Event>
    decreases v, 0
  {
    match v
    case MapValue(members) => [StartObject] + MemberEvents(members) + [EndObject]
    case ListValue(items) => [StartArray] + ItemEvents(items) + [EndArray]
    case StringValue(text, _, _) => [String(CString(text))]
    case NullValue => [Null]
    case BooleanValue(flag) => [Bool(flag)]
    case IntValue(number) => [Int(number)]
    case FloatValue(decimal) => [Double(decimal)]
    case EnumValue(symbol) => [String(CString(symbol))]
    case IdValue(id) => [String(CString(ReleaseText(id)))]
    case ScalarValue(scalar) => Events(scalar)
  }

  function MemberEvents(members: seq<Entry<Value>>): seq<Event>
    decreases members, 1
  {
    if members == [] then []
    else [Key(CString(members[0].name))] + Events(members[0].value) + MemberEvents(members[1..])
  }

  function ItemEvents(items: seq<Value>): seq<Event>
    decreases items, 1
  {
    if items == [] then [] else Events(items[0]) + ItemEvents(items[1..])
  }

  /** The event a reader delivers for the text of a written one: integers that are not negative are unsigned. */
  function Transported(e: Event): Event {
    if e.Int? && e.number >= 0 then Uint(e.number) else e
  }

  // ---- Reading ----

  /** keys and responses are stacks, the last element on top. */
  datatype Handler = Handler(keys: seq<string>, responses: seq<Value>)

  function Start(): Handler {
    Handler([], [NullValue])
  }

  function Top(h: Handler): Value
    requires h.responses != []
  {
    h.responses[|h.responses| - 1]
  }

  function WithTop(h: Handler, v: Value): Handler
    requires h.responses != []
  {
    h.(responses := h.responses[..|h.responses| - 1] + [v])
  }

  /** None when one of the stacks would be popped empty. */
  function SetValue(h: Handler, v: Value): Option<Handler> {
    if h.responses == [] then None
    else
      match Top(h)
      case MapValue(members) =>
        if h.keys == [] then None
        else
          var last := |h.keys| - 1;
          Some(WithTop(h.(keys := h.keys[..last]), MapValue(EmplaceBack(members, h.keys[last], v))))
      case ListValue(items) => Some(WithTop(h, ListValue(items + [v])))
      case _ => Some(WithTop(h, v))
  }

  function Push(h: Handler, v: Value): Handler {
    h.(responses := h.responses + [v])
  }

  /** A number in the range of int, delivered as a number. */
  function Number(i: int): Value {
    if -0x8000_0000 <= i < 0x8000_0000 then IntValue(i) else FloatValue(i as real)
  }

  function Handle(h: Handler, e: Event): Option<Handler> {
    match e
    case Null => SetValue(h, NullValue)
    case Bool(flag) => SetValue(h, BooleanValue(flag))
    case Int(number) => SetValue(h, Number(number))
    case Uint(natural) => SetValue(h, Number(natural))
    case Int64(wide) => SetValue(h, FloatValue(wide as real))
    case Uint64(wide) => SetValue(h, FloatValue(wide as real))
    case Double(decimal) => SetValue(h, FloatValue(decimal))
    case String(text) => SetValue(h, StringValue(CString(text), true, false))
    case StartObject => Some(Push(h, MapValue([])))
    case StartArray => Some(Push(h, ListValue([])))
    case Key(name) => Some(h.(keys := h.keys + [CString(name)]))
    case EndObject => SetTop(h)
    case EndArray => SetTop(h)
  }

  /** setValue(getResponse()): the finished value goes into the one below. */
  function SetTop(h: Handler): Option<Handler> {
    if h.responses == [] then None else SetValue(h.(responses := h.responses[..|h.responses| - 1]), Top(h))
  }

  function HandleAll(h: Handler, events: seq<Event>): Option<Handler>
    decreases events
  {
    if events == [] then Some(h)
    else
      var next := Handle(h, Transported(events[0]));
      if next.None? then None else HandleAll(next.value, events[1..])
  }

  lemma {:induction false} HandleInTwoParts(h: Handler, left: seq<Event>, right: seq<Event>)
    requires HandleAll(h, left).Some?
    ensures HandleAll(h, left + right) == HandleAll(HandleAll(h, left).value, right)
    decreases left
  {
    if left == [] {
      assert left + right == right;
    } else {
      assert (left + right)[1..] == left[1..] + right;
      HandleInTwoParts(Handle(h, Transported(left[0])).value, left[1..], right);
    }
  }

  /** The event a JSON reader delivers for an integer, by its size: up to 32, up to 64 bits, or more. */
  function IntegerEvent(i: int): Event {
    if i >= 0 then
      (if i < 0x1_0000_0000 then Uint(i) else if i < 0x1_0000_0000_0000_0000 then Uint64(i) else Double(i as real))
    else
      (if i >= -0x8000_0000 then Int(i) else if i >= -0x8000_0000_0000_0000 then Int64(i) else Double(i as real))
  }

  /** An integer is read as one exactly in the range of int, and as the float of its value beyond. */
  lemma IntegerIsRead(i: int)
    ensures HandleAll(Start(), [IntegerEvent(i)]) ==
            Some(Handler([], [if -0x8000_0000 <= i <= 0x7fff_ffff then IntValue(i) else FloatValue(i as real)]))
  {
    var e := IntegerEvent(i);
    assert Transported(e) == e || e.Int?;
    assert [e][1..] == [];
    var v := if -0x8000_0000 <= i <= 0x7fff_ffff then IntValue(i) else FloatValue(i as real);
    assert Handle(Start(), Transported(e)) == SetValue(Start(), v);
    assert Start().responses[..0] + [v] == [v];
  }

  // ---- What comes back ----

  /** The value that is read back: strings for enums and identifiers, scalars without their wrapper. */
  function ReadBack(v: Value): Value
    decreases v, 0
  {
    match v
    case MapValue(members) => MapValue(MembersReadBack([], members))
    case ListValue(items) => ListValue(seq(|items|, i requires 0 <= i < |items| => ReadBack(items[i])))
    case StringValue(text, _, _) => StringValue(CString(text), true, false)
    case EnumValue(symbol) => StringValue(CString(symbol), true, false)
    case IdValue(id) => StringValue(CString(ReleaseText(id)), true, false)
    case ScalarValue(scalar) => ReadBack(scalar)
    case _ => v
  }

  function MembersReadBack(done: seq<Entry<Value>>, members: seq<Entry<Value>>): seq<Entry<Value>>
    decreases members, 1
  {
    if members == [] then done
    else MembersReadBack(EmplaceBack(done, CString(members[0].name), ReadBack(members[0].value)), members[1..])
  }

  lemma {:induction false} CStringIsNulFree(s: string)
    ensures NulFreeText(CString(s)) && CString(CString(s)) == CString(s)
  {
    if s != "" && s[0] != '\0' {
      CStringIsNulFree(s[1..]);
    }
    CStringOfNulFree(CString(s));
  }

  /** The stacks can take a value: something to put it in, and a key when that is a map. */
  predicate Accepts(h: Handler) {
    h.responses != [] && (Top(h).MapValue? ==> h.keys != [])
  }

  /** Reading the events of any value puts what is read back where the value belongs; no stack underflows. */
  lemma {:induction false} EventsSetValue(v: Value, h: Handler)
    requires Accepts(h)
    ensures HandleAll(h, Events(v)) == SetValue(h, ReadBack(v))
    ensures SetValue(h, ReadBack(v)).Some?
    decreases v, 0
  {
    match v
    case MapValue(members) => MapEventsSetValue(members, h);
    case ListValue(items) => ListEventsSetValue(items, h);
    case ScalarValue(scalar) => EventsSetValue(scalar, h);
    case StringValue(text, _, _) => LeafEventSetsValue(h, String(CString(text)), ReadBack(v), text);
    case EnumValue(symbol) => LeafEventSetsValue(h, String(CString(symbol)), ReadBack(v), symbol);
    case IdValue(id) => LeafEventSetsValue(h, String(CString(ReleaseText(id))), ReadBack(v), ReleaseText(id));
    case _ => assert Events(v)[1..] == [];
  }

  lemma LeafEventSetsValue(h: Handler, e: Event, v: Value, text: string)
    requires Accepts(h) && e == String(CString(text)) && v == StringValue(CString(text), true, false)
    ensures HandleAll(h, [e]) == SetValue(h, v)
  {
    CStringIsNulFree(text);
    assert [e][1..] == [];
  }

  lemma {:induction false} MapEventsSetValue(members: seq<Entry<Value>>, h: Handler)
    requires Accepts(h)
    ensures HandleAll(h, [StartObject] + MemberEvents(members) + [EndObject]) ==
            SetValue(h, MapValue(MembersReadBack([], members)))
    decreases members, 2
  {
    var started := Push(h, MapValue([]));
    var closed := Push(h, MapValue(MembersReadBack([], members)));
    MembersFillMap([], members, started, h);
    HandleInTwoParts(started, MemberEvents(members), [EndObject]);
    assert [EndObject][1..] == [];
    assert closed.(responses := closed.responses[..|h.responses|]) == h;
    assert ([StartObject] + MemberEvents(members) + [EndObject])[1..] == MemberEvents(members) + [EndObject];
  }

  lemma {:induction false} MembersFillMap(
    done: seq<Entry<Value>>, members: seq<Entry<Value>>, h: Handler, outer: Handler)
    requires h == Push(outer, MapValue(done))
    ensures HandleAll(h, MemberEvents(members)) == Some(Push(outer, MapValue(MembersReadBack(done, members))))
    decreases members, 1
  {
    if members != [] {
      var name, value := CString(members[0].name), ReadBack(members[0].value);
      CStringIsNulFree(members[0].name);
      var keyed := h.(keys := h.keys + [name]);
      var filled := Push(outer, MapValue(EmplaceBack(done, name, value)));
      EventsSetValue(members[0].value, keyed);
      assert keyed.keys[..|keyed.keys| - 1] == h.keys;
      assert SetValue(keyed, value) == Some(filled);
      var rest := Events(members[0].value) + MemberEvents(members[1..]);
      HandleInTwoParts(keyed, Events(members[0].value), MemberEvents(members[1..]));
      MembersFillMap(EmplaceBack(done, name, value), members[1..], filled, outer);
      assert MemberEvents(members) == [Key(name)] + rest && ([Key(name)] + rest)[1..] == rest;
    }
  }

  lemma {:induction false} ListEventsSetValue(items: seq<Value>, h: Handler)
    requires Accepts(h)
    ensures HandleAll(h, [StartArray] + ItemEvents(items) + [EndArray]) == SetValue(h, ReadBack(ListValue(items)))
    decreases items, 2
  {
    var started := Push(h, ListValue([]));
    var closed := Push(h, ReadBack(ListValue(items)));
    ItemsFillList([], items, started, h);
    assert ReadBack(ListValue(items)).items == [] + ReadBack(ListValue(items)).items;
    HandleInTwoParts(started, ItemEvents(items), [EndArray]);
    assert [EndArray][1..] == [];
    assert closed.(responses := closed.responses[..|h.responses|]) == h;
    assert ([StartArray] + ItemEvents(items) + [EndArray])[1..] == ItemEvents(items) + [EndArray];
  }

  lemma {:induction false} ItemsFillList(done: seq<Value>, items: seq<Value>, h: Handler, outer: Handler)
    requires h == Push(outer, ListValue(done))
    ensures HandleAll(h, ItemEvents(items)) == Some(Push(outer, ListValue(done + ReadBack(ListValue(items)).items)))
    decreases items, 1
  {
    var all := ReadBack(ListValue(items)).items;
    if items == [] {
      assert done + all == done;
    } else {
      var value := ReadBack(items[0]);
      var filled := Push(outer, ListValue(done + [value]));
      EventsSetValue(items[0], h);
      assert SetValue(h, value) == Some(filled);
      HandleInTwoParts(h, Events(items[0]), ItemEvents(items[1..]));
      ItemsFillList(done + [value], items[1..], filled, outer);
      assert done + all == done + [value] + ReadBack(ListValue(items[1..])).items;
    }
  }

  /** A whole response: one value is left, and no key. */
  lemma ResponseIsReadBack(v: Value)
    ensures HandleAll(Start(), Events(v)) == Some(Handler([], [ReadBack(v)]))
  {
    EventsSetValue(v, Start());
    assert Start().responses[..0] + [ReadBack(v)] == [ReadBack(v)];
  }

  // ---- Values without NUL come back as they were ----

  predicate NulFree(v: Value) {
    match v
    case MapValue(members) => forall member | member in members :: NulFreeText(member.name) && NulFree(member.value)
    case ListValue(items) => forall item | item in items :: NulFree(item)
    case StringValue(text, _, _) => NulFreeText(text)
    case EnumValue(symbol) => NulFreeText(symbol)
    case IdValue(id) => NulFreeText(ReleaseText(id))
    case ScalarValue(scalar) => NulFree(scalar)
    case _ => true
  }

  /** The same tree in the same order, with JSON leaves. */
  function Json(v: Value): Value {
    match v
    case MapValue(members) =>
      MapValue(seq(|members|, i requires 0 <= i < |members| => Entry(members[i].name, Json(members[i].value))))
    case ListValue(items) => ListValue(seq(|items|, i requires 0 <= i < |items| => Json(items[i])))
    case StringValue(text, _, _) => StringValue(text, true, false)
    case EnumValue(symbol) => StringValue(symbol, true, false)
    case IdValue(id) => StringValue(ReleaseText(id), true, false)
    case ScalarValue(scalar) => Json(scalar)
    case _ => v
  }

  lemma {:induction false} NulFreeReadsBackAsJson(v: Value)
    requires HasDistinctNames(v) && NulFree(v)
    ensures ReadBack(v) == Json(v)
    decreases v, 1
  {
    match v
    case MapValue(members) =>
      MembersReadBackAsJson(v, |members|);
      assert members[..|members|] == members;
      MembersReadBackAppend([], members, []);
    case ListValue(items) =>
      forall i | 0 <= i < |items|
        ensures ReadBack(items[i]) == Json(items[i])
      {
        NulFreeReadsBackAsJson(items[i]);
      }
      assert ReadBack(v).items == Json(v).items;
    case StringValue(text, _, _) => CStringOfNulFree(text);
    case EnumValue(symbol) => CStringOfNulFree(symbol);
    case IdValue(id) => CStringOfNulFree(ReleaseText(id));
    case ScalarValue(scalar) => NulFreeReadsBackAsJson(scalar);
    case _ =>
  }

  lemma {:induction false} MembersReadBackAppend(
    done: seq<Entry<Value>>, left: seq<Entry<Value>>, right: seq<Entry<Value>>)
    ensures MembersReadBack(done, left + right) == MembersReadBack(MembersReadBack(done, left), right)
    decreases left
  {
    if left == [] {
      assert left + right == right;
    } else {
      assert (left + right)[1..] == left[1..] + right;
      MembersReadBackAppend(
        EmplaceBack(done, CString(left[0].name), ReadBack(left[0].value)), left[1..], right);
    }
  }

  lemma AppendsNextMember(v: Value, n: nat)
    requires v.MapValue? && DistinctNames(v.members) && n < |v.members|
    ensures EmplaceBack(Json(v).members[..n], v.members[n].name, Json(v.members[n].value)) == Json(v).members[..n + 1]
  {
    var json := Json(v).members;
    assert forall i | 0 <= i < |json| :: json[i].name == v.members[i].name;
    assert !HasName(json[..n], v.members[n].name);
    assert json[..n + 1] == json[..n] + [json[n]];
  }

  lemma {:induction false} MembersReadBackAsJson(v: Value, n: nat)
    requires v.MapValue? && HasDistinctNames(v) && NulFree(v) && n <= |v.members|
    ensures MembersReadBack([], v.members[..n]) == Json(v).members[..n]
    decreases v, 0, n
  {
    if n > 0 {
      var last := v.members[n - 1];
      assert last in v.members;
      MembersReadBackAsJson(v, n - 1);
      NulFreeReadsBackAsJson(last.value);
      CStringOfNulFree(last.name);
      assert v.members[..n] == v.members[..n - 1] + [last];
      MembersReadBackAppend([], v.members[..n - 1], [last]);
      OneMemberReadBack(Json(v).members[..n - 1], last);
      AppendsNextMember(v, n - 1);
    }
  }

  lemma OneMemberReadBack(done: seq<Entry<Value>>, member: Entry<Value>)
    ensures MembersReadBack(done, [member]) == EmplaceBack(done, CString(member.name), ReadBack(member.value))
  {
    assert [member][1..] == [];
  }

  /** The Base64 form of a binary identifier has no NUL. */
  lemma {:induction false} EncodeIsNulFree(bytes: seq<Byte>)
    ensures NulFreeText(Encode(bytes))
    decreases |bytes|
  {
    if |bytes| >= 3 {
      EncodeIsNulFree(bytes[3..]);
      ToCharIsNotNul(ToSextets(bytes[0], bytes[1], bytes[2]));
    } else if bytes != [] {
      ToCharIsNotNul(ToSextets(bytes[0], if |bytes| > 1 then bytes[1] else 0, 0));
    }
  }

  lemma ToCharIsNotNul(sextets: seq<nat>)
    ensures forall i | 0 <= i < |sextets| :: ToChar(sextets[i]) != '\0'
  {
  }

  /** Writing and reading any value without NUL gives the same tree. */
  lemma ResponseRoundTrip(v: Value)
    requires HasDistinctNames(v) && NulFree(v)
    ensures HandleAll(Start(), Events(v)) == Some(Handler([], [Json(v)]))
  {
    ResponseIsReadBack(v);
    NulFreeReadsBackAsJson(v);
  }

  // ---- Writer and ResponseHandler ----

  class Writer {
    var emitted: seq<Event>

    constructor ()
      ensures emitted == []
    {
      emitted := [];
    }

    method Emit(e: Event)
      modifies this
      ensures emitted == old(emitted) + [e]
    {
      emitted := emitted + [e];
    }

    method Write(response: Value)
      modifies this
      ensures emitted == old(emitted) + Events(response)
      decreases response, 0
    {
      match response {
        case MapValue(members) =>
          Emit(StartObject);
          WriteMembers(members);
          Emit(EndObject);
          assert emitted == old(emitted) + ([StartObject] + MemberEvents(members) + [EndObject]);
        case ListValue(items) =>
          Emit(StartArray);
          WriteItems(items);
          Emit(EndArray);
          assert emitted == old(emitted) + ([StartArray] + ItemEvents(items) + [EndArray]);
        case StringValue(text, _, _) => Emit(String(CString(text)));
        case EnumValue(symbol) => Emit(String(CString(symbol)));
        case IdValue(id) => Emit(String(CString(ReleaseText(id))));
        case NullValue => Emit(Null);
        case BooleanValue(flag) => Emit(Bool(flag));
        case IntValue(number) => Emit(Int(number));
        case FloatValue(decimal) => Emit(Double(decimal));
        case ScalarValue(scalar) => Write(scalar);
      }
    }

    method WriteMembers(members: seq<Entry<Value>>)
      modifies this
      ensures emitted == old(emitted) + MemberEvents(members)
      decreases members, 1
    {
      for i := 0 to |members|
        invariant emitted + MemberEvents(members[i..]) == old(emitted) + MemberEvents(members)
      {
        assert members[i..][1..] == members[i + 1..];
        Emit(Key(CString(members[i].name)));
        Write(members[i].value);
      }
    }

    method WriteItems(items: seq<Value>)
      modifies this
      ensures emitted == old(emitted) + ItemEvents(items)
      decreases items, 1
    {
      for i := 0 to |items|
        invariant emitted + ItemEvents(items[i..]) == old(emitted) + ItemEvents(items)
      {
        assert items[i..][1..] == items[i + 1..];
        Write(items[i]);
      }
    }
  }

  class ResponseHandler {
    var keyStack: seq<string>
    var responseStack: seq<Value>

    function Current(): Handler
      reads this
    {
      Handler(keyStack, responseStack)
    }

    constructor ()
      ensures Current() == Start()
    {
      keyStack, responseStack := [], [NullValue];
    }

    method GetResponse() returns (response: Value)
      requires responseStack != []
      modifies this`responseStack
      ensures response == old(Top(Current()))
      ensures responseStack == old(responseStack)[..|old(responseStack)| - 1]
    {
      response := responseStack[|responseStack| - 1];
      responseStack := responseStack[..|responseStack| - 1];
    }

    method PutValue(v: Value)
      requires SetValue(Current(), v).Some?
      modifies this
      ensures Current() == old(SetValue(Current(), v).value)
    {
      var top := |responseStack| - 1;
      match responseStack[top] {
        case MapValue(members) =>
          var last := |keyStack| - 1;
          responseStack := responseStack[top := MapValue(EmplaceBack(members, keyStack[last], v))];
          keyStack := keyStack[..last];
        case ListValue(items) => responseStack := responseStack[top := ListValue(items + [v])];
        case _ => responseStack := responseStack[top := v];
      }
    }

    /** One callback of the reader. */
    method Receive(e: Event)
      requires Handle(Current(), e).Some?
      modifies this
      ensures Current() == old(Handle(Current(), e).value)
    {
      match e {
        case Null => PutValue(NullValue);
        case Bool(flag) => PutValue(BooleanValue(flag));
        case Int(number) => PutValue(Number(number));
        case Uint(natural) =>
          PutValue(if natural > 0x7fff_ffff then FloatValue(natural as real) else IntValue(natural));
        case Int64(wide) => PutValue(FloatValue(wide as real));
        case Uint64(wide) => PutValue(FloatValue(wide as real));
        case Double(decimal) => PutValue(FloatValue(decimal));
        case String(text) => PutValue(StringValue(CString(text), true, false));
        case StartObject => responseStack := responseStack + [MapValue([])];
        case StartArray => responseStack := responseStack + [ListValue([])];
        case Key(name) => keyStack := keyStack + [CString(name)];
        case EndObject =>
          var finished := GetResponse();
          PutValue(finished);
        case EndArray =>
          var finished := GetResponse();
          PutValue(finished);
      }
    }
  }

  /** parseJSON, the text standing for the events in it. */
  method Parse(events: seq<Event>, ghost final: Handler) returns (response: Value)
    requires HandleAll(Start(), events) == Some(final) && final.responses != []
    ensures response == Top(final)
  {
    var handler := new ResponseHandler();
    for i := 0 to |events|
      invariant HandleAll(handler.Current(), events[i..]) == Some(final)
    {
      assert events[i..][1..] == events[i + 1..];
      handler.Receive(Transported(events[i]));
    }
    assert handler.Current() == final;
    response := handler.GetResponse();
  }

  /** parseJSON(toJSON(v)) */
  method WriteAndParse(v: Value) returns (response: Value)
    ensures response == ReadBack(v)
    ensures HasDistinctNames(v) && NulFree(v) ==> response == Json(v)
  {
    if HasDistinctNames(v) && NulFree(v) {
      NulFreeReadsBackAsJson(v);
    }
    ResponseIsReadBack(v);
    var writer := new Writer();
    writer.Write(v);
    var events := writer.emitted;
    assert events == Events(v);
    response := Parse(events, Handler([], [ReadBack(v)]));
  }
}
