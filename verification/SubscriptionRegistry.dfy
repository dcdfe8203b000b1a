/**
 The subscription registry of Request: registrations by key, and the keys listening on each field.
 Keys are recycled: after a removal the next key is one more than the largest live key.
 */
module SubscriptionRegistry {
  import opened Common
  import opened SortedContainers

  type Key = nat

  /** id stands for the identity of the shared registration object. */
  datatype Registration<V> = Registration(
    field: string, arguments: seq<Entry<V>>, directives: seq<Entry<V>>, id: nat)

  datatype Registry<V> = Registry(
    subscriptions: map<Key, Registration<V>>,
    listeners: map<string, seq<Key>>,
    nextKey: Key)

  function Empty<V>(): Registry<V> {
    Registry(map[], map[], 0)
  }

  // ---- addSubscription and removeSubscription ----

  function Listeners<V>(r: Registry<V>, field: string): seq<Key> {
    if field in r.listeners then r.listeners[field] else []
  }

  /** The key handed out is r.nextKey. */
  function Add<V>(r: Registry<V>, registration: Registration<V>): Registry<V> {
    var listeners := SetEmplace(NatLess, Listeners(r, registration.field), r.nextKey);
    Registry(
      if r.nextKey in r.subscriptions then r.subscriptions else r.subscriptions[r.nextKey := registration],
      r.listeners[registration.field := listeners],
      r.nextKey + 1)
  }

  function Largest(keys: set<Key>): (largest: Key)
    requires keys != {}
    ensures largest in keys && forall key | key in keys :: key <= largest
  {
    LargestExists(keys);
    var largest :| largest in keys && forall key | key in keys :: key <= largest;
    largest
  }

  lemma {:induction false} LargestExists(keys: set<Key>)
    requires keys != {}
    ensures exists largest :: largest in keys && forall key | key in keys :: key <= largest
  {
    var some :| some in keys;
    var rest := keys - {some};
    if rest == {} {
      assert keys == {some};
    } else {
      LargestExists(rest);
      var largest :| largest in rest && forall key | key in rest :: key <= largest;
      var winner := if some < largest then largest else some;
      assert forall key | key in keys :: key == some || key in rest;
      assert winner in keys && forall key | key in keys :: key <= winner;
    }
  }

  function Remove<V>(r: Registry<V>, key: Key): Registry<V> {
    if key !in r.subscriptions then r
    else
      var field := r.subscriptions[key].field;
      var listeners := SetErase(NatLess, Listeners(r, field), key);
      var subscriptions := r.subscriptions - {key};
      Registry(
        subscriptions,
        if listeners == [] then r.listeners - {field} else r.listeners[field := listeners],
        if subscriptions == map[] then 0 else Largest(subscriptions.Keys) + 1)
  }

  /** Listener sets are in order and never empty. */
  ghost predicate Ordered<V>(r: Registry<V>) {
    forall field | field in r.listeners :: Sorted(NatLess, r.listeners[field]) && r.listeners[field] != []
  }

  /** A key listens on a field exactly when its registration is on that field. */
  predicate Agree<V>(r: Registry<V>, field: string, key: Key) {
    key in Listeners(r, field) <==> key in r.subscriptions && r.subscriptions[key].field == field
  }

  /** The listener sets are the inverse of the subscription map. */
  ghost predicate Inverse<V>(r: Registry<V>) {
    forall field, key :: Agree(r, field, key)
  }

  /** The next key is one past the largest live key, and 0 when none is live. */
  ghost predicate NextFollowsLargest<V>(r: Registry<V>) {
    && (forall key | key in r.subscriptions :: key < r.nextKey)
    && (r.nextKey > 0 ==> r.nextKey - 1 in r.subscriptions)
  }

  ghost predicate Valid<V>(r: Registry<V>) {
    Ordered(r) && Inverse(r) && NextFollowsLargest(r)
  }

  lemma KeyEmplaced(keys: seq<Key>, key: Key)
    requires Sorted(NatLess, keys)
    ensures var more := SetEmplace(NatLess, keys, key);
            Sorted(NatLess, more) && forall k :: k in more <==> k in keys || k == key
  {
    SetEmplaceAdds(NatLess, keys, key);
    var more := SetEmplace(NatLess, keys, key);
    forall k
      ensures k in more <==> k in keys || k == key
    {
      assert k in more <==> k in Members(more);
      assert k in keys <==> k in Members(keys);
    }
  }

  lemma KeyErased(keys: seq<Key>, key: Key)
    requires Sorted(NatLess, keys)
    ensures var rest := SetErase(NatLess, keys, key);
            Sorted(NatLess, rest) && forall k :: k in rest <==> k in keys && k != key
  {
    SetEraseRemoves(NatLess, keys, key);
    var rest := SetErase(NatLess, keys, key);
    forall k
      ensures k in rest <==> k in keys && k != key
    {
      assert k in rest <==> k in Members(rest);
      assert k in keys <==> k in Members(keys);
    }
  }

  lemma AddKeepsOrdered<V>(r: Registry<V>, registration: Registration<V>)
    requires Ordered(r)
    ensures Ordered(Add(r, registration))
  {
    KeyEmplaced(Listeners(r, registration.field), r.nextKey);
    assert r.nextKey in SetEmplace(NatLess, Listeners(r, registration.field), r.nextKey);
  }

  lemma AddKeepsInverse<V>(r: Registry<V>, registration: Registration<V>)
    requires Valid(r)
    ensures Inverse(Add(r, registration))
  {
    var r' := Add(r, registration);
    KeyEmplaced(Listeners(r, registration.field), r.nextKey);
    forall field, key
      ensures Agree(r', field, key)
    {
      assert Agree(r, field, key);
    }
  }

  lemma AddKeepsValid<V>(r: Registry<V>, registration: Registration<V>)
    requires Valid(r)
    ensures Valid(Add(r, registration))
    ensures r.nextKey !in r.subscriptions
    ensures Add(r, registration).subscriptions == r.subscriptions[r.nextKey := registration]
    ensures Add(r, registration).nextKey == r.nextKey + 1
  {
    AddKeepsOrdered(r, registration);
    AddKeepsInverse(r, registration);
  }

  /** Only the field of the removed registration loses a listener. */
  lemma RemoveChangesOneListener<V>(r: Registry<V>, key: Key, field: string)
    requires Valid(r) && key in r.subscriptions
    ensures Listeners(Remove(r, key), field) ==
            if field == r.subscriptions[key].field then SetErase(NatLess, Listeners(r, field), key)
            else Listeners(r, field)
  {
    assert Agree(r, r.subscriptions[key].field, key);
  }

  lemma RemoveKeepsOrdered<V>(r: Registry<V>, key: Key)
    requires Valid(r)
    ensures Ordered(Remove(r, key))
  {
    if key in r.subscriptions {
      var changed := r.subscriptions[key].field;
      assert Agree(r, changed, key);
      KeyErased(Listeners(r, changed), key);
    }
  }

  lemma RemoveKeepsInverse<V>(r: Registry<V>, key: Key)
    requires Valid(r)
    ensures Inverse(Remove(r, key))
  {
    if key in r.subscriptions {
      forall field, k
        ensures Agree(Remove(r, key), field, k)
      {
        RemoveChangesOneListener(r, key, field);
        assert Agree(r, field, k);
        if field == r.subscriptions[key].field {
          KeyErased(Listeners(r, field), key);
        }
      }
    }
  }

  lemma RemoveKeepsNextKey<V>(r: Registry<V>, key: Key)
    requires NextFollowsLargest(r)
    ensures NextFollowsLargest(Remove(r, key))
  {
    var r' := Remove(r, key);
    forall k | k in r'.subscriptions
      ensures k < r'.nextKey
    {
      assert k in r'.subscriptions.Keys;
    }
  }

  lemma RemoveKeepsValid<V>(r: Registry<V>, key: Key)
    requires Valid(r)
    ensures Valid(Remove(r, key))
    ensures Remove(r, key).subscriptions == r.subscriptions - {key}
  {
    RemoveKeepsOrdered(r, key);
    RemoveKeepsInverse(r, key);
    RemoveKeepsNextKey(r, key);
    assert key !in r.subscriptions ==> r.subscriptions - {key} == r.subscriptions;
  }

  // ---- Interleavings ----

  /** A registration as its subscriber knows it. */
  datatype Token = Token(key: Key, id: nat)

  /**
   Subscribe and unsubscribe drop the lock while a resolver runs. A call in that window is in
   subscribing or unsubscribing; granted holds the keys returned and not yet given back.
   */
  datatype System<V> = System(
    registry: Registry<V>,
    subscribing: set<Token>,
    unsubscribing: set<Token>,
    granted: set<Token>,
    nextId: nat)

  datatype Event<V> =
    /** addSubscription; with a subscription object the resolver is notified before returning. */
    | Subscribe(field: string, arguments: seq<Entry<V>>, directives: seq<Entry<V>>, notified: bool)
    | SubscribeReturns(token: Token)
    | SubscribeFails(token: Token)
    /** With a subscription object the resolver is notified before the removal. */
    | Unsubscribe(token: Token, notified: bool)
    | UnsubscribeRemoves(token: Token)
    /** The resolver itself threw: the call ends without removing anything. */
    | UnsubscribeThrows(token: Token)

  function Start<V>(): System<V> {
    System(Empty(), {}, {}, {}, 0)
  }

  /** What can happen next, when every returned key is given back at most once. */
  predicate Enabled<V>(s: System<V>, e: Event<V>) {
    match e
    case Subscribe(_, _, _, _) => true
    case SubscribeReturns(token) => token in s.subscribing
    case SubscribeFails(token) => token in s.subscribing
    case Unsubscribe(token, _) => token in s.granted
    case UnsubscribeRemoves(token) => token in s.unsubscribing
    case UnsubscribeThrows(token) => token in s.unsubscribing
  }

  function Apply<V>(s: System<V>, e: Event<V>): System<V> {
    match e
    case Subscribe(field, arguments, directives, notified) =>
      var registry := Add(s.registry, Registration(field, arguments, directives, s.nextId));
      var token := Token(s.registry.nextKey, s.nextId);
      var s' := s.(registry := registry, nextId := s.nextId + 1);
      if notified then s'.(subscribing := s.subscribing + {token}) else s'.(granted := s.granted + {token})
    case SubscribeReturns(token) =>
      s.(subscribing := s.subscribing - {token}, granted := s.granted + {token})
    case SubscribeFails(token) =>
      s.(registry := Remove(s.registry, token.key), subscribing := s.subscribing - {token})
    case Unsubscribe(token, notified) =>
      var s' := s.(granted := s.granted - {token});
      if !notified then s'.(registry := Remove(s.registry, token.key))
      else if token.key in s.registry.subscriptions then s'.(unsubscribing := s.unsubscribing + {token})
      else s'
    case UnsubscribeRemoves(token) =>
      s.(registry := Remove(s.registry, token.key), unsubscribing := s.unsubscribing - {token})
    case UnsubscribeThrows(token) =>
      s.(unsubscribing := s.unsubscribing - {token})
  }

  function Outstanding<V>(s: System<V>): set<Token> {
    s.subscribing + s.unsubscribing + s.granted
  }

  ghost predicate IsLive<V>(r: Registry<V>, token: Token) {
    token.key in r.subscriptions && r.subscriptions[token.key].id == token.id
  }

  /** Every outstanding call or key owns a live registration of its own. */
  ghost predicate Consistent<V>(s: System<V>) {
    && Valid(s.registry)
    && s.subscribing !! s.unsubscribing !! s.granted
    && (forall token | token in Outstanding(s) :: IsLive(s.registry, token))
    && (forall key | key in s.registry.subscriptions :: s.registry.subscriptions[key].id < s.nextId)
  }

  lemma SubscribeKeepsConsistent<V>(s: System<V>, e: Event<V>)
    requires Consistent(s) && e.Subscribe?
    ensures Consistent(Apply(s, e))
  {
    var registration := Registration(e.field, e.arguments, e.directives, s.nextId);
    AddKeepsValid(s.registry, registration);
    forall token | token in Outstanding(s)
      ensures token.id < s.nextId && IsLive(Add(s.registry, registration), token)
    {
      assert IsLive(s.registry, token);
    }
  }

  lemma StepKeepsConsistent<V>(s: System<V>, e: Event<V>)
    requires Consistent(s) && Enabled(s, e)
    ensures Consistent(Apply(s, e))
  {
    match e
    case Subscribe(_, _, _, _) => SubscribeKeepsConsistent(s, e);
    case SubscribeReturns(token) =>
    case SubscribeFails(token) => RemovalLeavesOthers(s, token);
    case Unsubscribe(token, notified) => RemovalLeavesOthers(s, token);
    case UnsubscribeRemoves(token) => RemovalLeavesOthers(s, token);
    case UnsubscribeThrows(token) =>
  }

  lemma RemovalLeavesOthers<V>(s: System<V>, token: Token)
    requires Consistent(s) && token in Outstanding(s)
    ensures Valid(Remove(s.registry, token.key))
    ensures Remove(s.registry, token.key).subscriptions == s.registry.subscriptions - {token.key}
    ensures forall other | other in Outstanding(s) && other != token :: IsLive(Remove(s.registry, token.key), other)
  {
    RemoveKeepsValid(s.registry, token.key);
    forall other | other in Outstanding(s) && other != token
      ensures IsLive(Remove(s.registry, token.key), other)
    {
      assert IsLive(s.registry, other) && IsLive(s.registry, token);
    }
  }

  function Run<V>(s: System<V>, events: seq<Event<V>>): System<V>
    decreases events
  {
    if events == [] then s else Run(Apply(s, events[0]), events[1..])
  }

  predicate Legal<V>(s: System<V>, events: seq<Event<V>>)
    decreases events
  {
    events == [] || (Enabled(s, events[0]) && Legal(Apply(s, events[0]), events[1..]))
  }

  lemma {:induction false} RunStaysConsistent<V>(s: System<V>, events: seq<Event<V>>)
    requires Consistent(s) && Legal(s, events)
    ensures Consistent(Run(s, events))
    decreases events
  {
    if events != [] {
      StepKeepsConsistent(s, events[0]);
      RunStaysConsistent(Apply(s, events[0]), events[1..]);
    }
  }

  /**
   In every interleaving from the start: both maps stay inverse, no key is issued twice while live,
   and the key to be issued is one past the largest live one.
   */
  lemma EveryRunIsConsistent<V>(events: seq<Event<V>>)
    requires Legal(Start<V>(), events)
    ensures Consistent(Run(Start<V>(), events))
    ensures Run(Start<V>(), events).registry.nextKey !in Run(Start<V>(), events).registry.subscriptions
    ensures NextFollowsLargest(Run(Start<V>(), events).registry)
  {
    assert Consistent(Start<V>());
    RunStaysConsistent(Start<V>(), events);
  }

  // ---- Every call by itself ----

  /** Where the calls for one registration stand: never made or over, or in one of their windows. */
  datatype Phase = NotOutstanding | InSubscribe | InHand | InUnsubscribe

  /** The phase after the events so far, from the events about that registration alone. */
  function PhaseOf<V>(events: seq<Event<V>>, token: Token): Phase {
    if events == [] then NotOutstanding
    else
      var front, e := events[..|events| - 1], events[|events| - 1];
      var s := Run(Start<V>(), front);
      match e
      case Subscribe(_, _, _, notified) =>
        if token != Token(s.registry.nextKey, s.nextId) then PhaseOf(front, token)
        else if notified then InSubscribe
        else InHand
      case SubscribeReturns(t) => if t == token then InHand else PhaseOf(front, token)
      case SubscribeFails(t) => if t == token then NotOutstanding else PhaseOf(front, token)
      case Unsubscribe(t, notified) =>
        if t != token then PhaseOf(front, token) else if notified then InUnsubscribe else NotOutstanding
      case UnsubscribeRemoves(t) => if t == token then NotOutstanding else PhaseOf(front, token)
      case UnsubscribeThrows(t) => if t == token then NotOutstanding else PhaseOf(front, token)
  }

  /** What may happen next to a registration in its phase; a new one may always be made. */
  predicate MayFollow<V>(events: seq<Event<V>>, e: Event<V>) {
    match e
    case Subscribe(_, _, _, _) => true
    case SubscribeReturns(token) => PhaseOf(events, token) == InSubscribe
    case SubscribeFails(token) => PhaseOf(events, token) == InSubscribe
    case Unsubscribe(token, _) => PhaseOf(events, token) == InHand
    case UnsubscribeRemoves(token) => PhaseOf(events, token) == InUnsubscribe
    case UnsubscribeThrows(token) => PhaseOf(events, token) == InUnsubscribe
  }

  predicate StandsAt<V>(s: System<V>, token: Token, phase: Phase) {
    && (token in s.subscribing <==> phase == InSubscribe)
    && (token in s.granted <==> phase == InHand)
    && (token in s.unsubscribing <==> phase == InUnsubscribe)
  }

  lemma {:induction false} LegalInTwoParts<V>(s: System<V>, events: seq<Event<V>>, e: Event<V>)
    ensures Legal(s, events + [e]) <==> Legal(s, events) && Enabled(Run(s, events), e)
    ensures Run(s, events + [e]) == Apply(Run(s, events), e)
    decreases events
  {
    if events == [] {
      assert (events + [e])[1..] == [];
    } else {
      LegalInTwoParts(Apply(s, events[0]), events[1..], e);
      assert (events + [e])[1..] == events[1..] + [e];
    }
  }

  lemma StepMovesOne<V>(s: System<V>, e: Event<V>, token: Token, before: Phase)
    requires Consistent(s) && Enabled(s, e) && StandsAt(s, token, before)
    ensures var after :=
              match e
              case Subscribe(_, _, _, notified) =>
                if token != Token(s.registry.nextKey, s.nextId) then before
                else if notified then InSubscribe else InHand
              case SubscribeReturns(t) => if t == token then InHand else before
              case SubscribeFails(t) => if t == token then NotOutstanding else before
              case Unsubscribe(t, notified) =>
                if t != token then before else if notified then InUnsubscribe else NotOutstanding
              case UnsubscribeRemoves(t) => if t == token then NotOutstanding else before
              case UnsubscribeThrows(t) => if t == token then NotOutstanding else before;
            StandsAt(Apply(s, e), token, after)
  {
    assert token in Outstanding(s) ==> IsLive(s.registry, token);
  }

  /** In every interleaving each registration goes through the phases of its own calls, and may do nothing else. */
  lemma {:induction false} EveryCallHasItsPhases<V>(events: seq<Event<V>>)
    requires Legal(Start<V>(), events)
    ensures forall token :: StandsAt(Run(Start<V>(), events), token, PhaseOf(events, token))
    ensures forall e :: Legal(Start<V>(), events + [e]) <==> MayFollow(events, e)
    decreases |events|
  {
    var s := Run(Start<V>(), events);
    if events != [] {
      var front, last := events[..|events| - 1], events[|events| - 1];
      assert events == front + [last];
      LegalInTwoParts(Start<V>(), front, last);
      EveryCallHasItsPhases(front);
      EveryRunIsConsistent(front);
      forall token
        ensures StandsAt(s, token, PhaseOf(events, token))
      {
        StepMovesOne(Run(Start<V>(), front), last, token, PhaseOf(front, token));
      }
    }
    forall e
      ensures Legal(Start<V>(), events + [e]) <==> MayFollow(events, e)
    {
      LegalInTwoParts(Start<V>(), events, e);
      NextIsDecidedByPhase(s, events, e);
    }
  }

  lemma NextIsDecidedByPhase<V>(s: System<V>, events: seq<Event<V>>, e: Event<V>)
    requires forall token :: StandsAt(s, token, PhaseOf(events, token))
    ensures Enabled(s, e) <==> MayFollow(events, e)
  {
    if !e.Subscribe? {
      assert StandsAt(s, e.token, PhaseOf(events, e.token));
    }
  }

  /** The call that may remove a registration, if the event is one. */
  function Removes<V>(e: Event<V>): Option<Token> {
    match e
    case SubscribeFails(token) => Some(token)
    case Unsubscribe(token, notified) => if notified then None else Some(token)
    case UnsubscribeRemoves(token) => Some(token)
    case _ => None
  }

  /** In every interleaving a registration disappears only by its own unsubscribe or failed subscribe. */
  lemma RemovedOnlyByItsOwnCall<V>(events: seq<Event<V>>, e: Event<V>, key: Key)
    requires Legal(Start<V>(), events) && Enabled(Run(Start<V>(), events), e)
    requires key in Run(Start<V>(), events).registry.subscriptions
    ensures var s := Run(Start<V>(), events);
            var s' := Apply(s, e);
            if Removes(e) == Some(Token(key, s.registry.subscriptions[key].id))
            then s'.registry.subscriptions == s.registry.subscriptions - {key}
            else key in s'.registry.subscriptions && s'.registry.subscriptions[key] == s.registry.subscriptions[key]
  {
    var s := Run(Start<V>(), events);
    EveryRunIsConsistent(events);
    if e.Subscribe? {
      AddKeepsValid(s.registry, Registration(e.field, e.arguments, e.directives, s.nextId));
    } else if Removes(e).Some? {
      var token := Removes(e).value;
      assert token in Outstanding(s);
      assert IsLive(s.registry, token);
      RemovalLeavesOthers(s, token);
    }
  }

  /** Giving a key back twice may remove somebody else's registration: the discipline is needed. */
  lemma KeyGivenBackTwice<V>(first: Registration<V>, second: Registration<V>)
    ensures var r1 := Add(Empty<V>(), first);
            var r2 := Remove(r1, 0);
            var r3 := Add(r2, second);
            r1.subscriptions == map[0 := first] && r3.subscriptions == map[0 := second] &&
            Remove(r3, 0).subscriptions == map[]
  {
    var r0 := Empty<V>();
    AddKeepsValid(r0, first);
    var r1 := Add(r0, first);
    RemoveKeepsValid(r1, 0);
    var r2 := Remove(r1, 0);
    assert r2.subscriptions == map[];
    AddKeepsValid(r2, second);
    RemoveKeepsValid(Add(r2, second), 0);
  }

  // ---- When a key is given back more than once ----

  /** The state before event i, whatever keys the callers give back and how often. */
  function At<V>(events: seq<Event<V>>, i: nat): System<V>
    requires i <= |events|
  {
    Run(Start<V>(), events[..i])
  }

  predicate Issues<V>(events: seq<Event<V>>, i: nat, key: Key)
    requires i < |events|
  {
    events[i].Subscribe? && At(events, i).registry.nextKey == key
  }

  predicate GivesBack<V>(e: Event<V>, key: Key) {
    Removes(e).Some? && Removes(e).value.key == key
  }

  predicate NotGivenBack<V>(events: seq<Event<V>>, from: nat, key: Key) {
    forall i | from <= i < |events| :: !GivesBack(events[i], key)
  }

  /** After the given event the key was given back, then issued again, and not given back since. */
  predicate ReissuedSince<V>(events: seq<Event<V>>, issued: nat, key: Key) {
    exists back, again ::
      issued < back < again < |events| && GivesBack(events[back], key) && Issues(events, again, key) &&
      NotGivenBack(events, again + 1, key)
  }

  lemma {:induction false} RunAppends<V>(s: System<V>, events: seq<Event<V>>, e: Event<V>)
    ensures Run(s, events + [e]) == Apply(Run(s, events), e)
    decreases events
  {
    if events == [] {
      assert (events + [e])[1..] == [];
    } else {
      RunAppends(Apply(s, events[0]), events[1..], e);
      assert (events + [e])[1..] == events[1..] + [e];
    }
  }

  lemma NextState<V>(events: seq<Event<V>>, i: nat)
    requires i < |events|
    ensures At(events, i + 1) == Apply(At(events, i), events[i])
  {
    RunAppends(Start<V>(), events[..i], events[i]);
    assert events[..i + 1] == events[..i] + [events[i]];
  }

  /** Whatever is given back, the registry stays valid and identities are used once. */
  ghost predicate StaysValid<V>(s: System<V>) {
    Valid(s.registry) && forall key | key in s.registry.subscriptions :: s.registry.subscriptions[key].id < s.nextId
  }

  lemma {:induction false} EveryStateStaysValid<V>(events: seq<Event<V>>, i: nat)
    requires i <= |events|
    ensures StaysValid(At(events, i))
  {
    if i > 0 {
      EveryStateStaysValid(events, i - 1);
      NextState(events, i - 1);
      EventChanges(At(events, i - 1), events[i - 1]);
    }
  }

  /** An event issues the next key, gives one back, or leaves the registrations alone. */
  lemma EventChanges<V>(s: System<V>, e: Event<V>)
    requires StaysValid(s)
    ensures StaysValid(Apply(s, e)) && s.nextId <= Apply(s, e).nextId
    ensures Apply(s, e).registry.subscriptions ==
            (if e.Subscribe? then
               s.registry.subscriptions[
                 s.registry.nextKey := Registration(e.field, e.arguments, e.directives, s.nextId)]
             else if Removes(e).Some? then s.registry.subscriptions - {Removes(e).value.key}
             else s.registry.subscriptions)
    ensures e.Subscribe? ==> s.registry.nextKey !in s.registry.subscriptions && s.nextId < Apply(s, e).nextId
  {
    if e.Subscribe? {
      AddKeepsValid(s.registry, Registration(e.field, e.arguments, e.directives, s.nextId));
    } else if Removes(e).Some? {
      RemoveKeepsValid(s.registry, Removes(e).value.key);
    }
  }

  /** One step of a run, and what it changes. */
  lemma EventAt<V>(events: seq<Event<V>>, i: nat)
    requires i < |events|
    ensures StaysValid(At(events, i)) && At(events, i).nextId <= At(events, i + 1).nextId
    ensures var s, s', e := At(events, i), At(events, i + 1), events[i];
            (e.Subscribe? ==>
               s.registry.nextKey !in s.registry.subscriptions && s.nextId < s'.nextId &&
               s'.registry.subscriptions == s.registry.subscriptions[
                 s.registry.nextKey := Registration(e.field, e.arguments, e.directives, s.nextId)]) &&
            (!e.Subscribe? && Removes(e).Some? ==>
               s'.registry.subscriptions == s.registry.subscriptions - {Removes(e).value.key}) &&
            (!e.Subscribe? && Removes(e).None? ==> s'.registry.subscriptions == s.registry.subscriptions)
  {
    EveryStateStaysValid(events, i);
    EventChanges(At(events, i), events[i]);
    NextState(events, i);
  }

  /** Whatever happened before, a subscribe gets 0 when nothing is live, and else one past the largest live key. */
  lemma IssuedKeyFollowsLargest<V>(events: seq<Event<V>>, i: nat, key: Key)
    requires i < |events| && events[i].Subscribe?
    ensures var live := At(events, i).registry.subscriptions;
            Issues(events, i, key) <==>
            (forall other | other in live :: other < key) && (key > 0 ==> key - 1 in live)
  {
    EveryStateStaysValid(events, i);
    var next := At(events, i).registry.nextKey;
    assert key > next ==> key - 1 >= next;
  }

  /** The registration issued with the key is found under it right after. */
  lemma IssuedKeyIsLive<V>(events: seq<Event<V>>, i: nat, key: Key)
    requires i < |events| && Issues(events, i, key)
    ensures key !in At(events, i).registry.subscriptions
    ensures At(events, i + 1).registry.subscriptions ==
            At(events, i).registry.subscriptions[
              key := Registration(
                events[i].field, events[i].arguments, events[i].directives, At(events, i).nextId)]
    ensures At(events, i + 1).registry.nextKey == key + 1
  {
    EventAt(events, i);
    NextState(events, i);
  }

  lemma {:induction false} IdsGrow<V>(events: seq<Event<V>>, i: nat, j: nat)
    requires i <= j <= |events|
    ensures At(events, i).nextId <= At(events, j).nextId
    decreases j
  {
    if i < j {
      IdsGrow(events, i, j - 1);
      EventAt(events, j - 1);
    }
  }

  /** A registration stays, unchanged, until its key is given back. */
  lemma {:induction false} StaysUntilGivenBack<V>(events: seq<Event<V>>, i: nat, j: nat, key: Key)
    requires i <= j <= |events| && key in At(events, i).registry.subscriptions
    requires forall k | i <= k < j :: !GivesBack(events[k], key)
    ensures key in At(events, j).registry.subscriptions
    ensures At(events, j).registry.subscriptions[key] == At(events, i).registry.subscriptions[key]
    decreases j
  {
    if i < j {
      StaysUntilGivenBack(events, i, j - 1, key);
      EventAt(events, j - 1);
      assert !GivesBack(events[j - 1], key);
    }
  }

  /** A live key was issued to its registration and not given back since. */
  lemma {:induction false} LiveWasIssued<V>(events: seq<Event<V>>, n: nat, key: Key) returns (issued: nat)
    requires n <= |events| && key in At(events, n).registry.subscriptions
    ensures issued < n && Issues(events, issued, key)
    ensures At(events, issued).nextId == At(events, n).registry.subscriptions[key].id
    ensures forall k | issued < k < n :: !GivesBack(events[k], key)
  {
    assert n > 0;
    EventAt(events, n - 1);
    if Issues(events, n - 1, key) {
      issued := n - 1;
    } else {
      issued := LiveWasIssued(events, n - 1, key);
    }
  }

  /** An issued key that is live under another registration was given back and issued again. */
  lemma OtherOwnerMeansReissued<V>(events: seq<Event<V>>, issued: nat, key: Key)
    requires issued < |events| && Issues(events, issued, key)
    requires key in At(events, |events|).registry.subscriptions
    requires At(events, |events|).registry.subscriptions[key].id != At(events, issued).nextId
    ensures ReissuedSince(events, issued, key)
  {
    var again := LiveWasIssued(events, |events|, key);
    EventAt(events, again);
    EventAt(events, issued);
    if again < issued {
      StaysUntilGivenBack(events, again + 1, issued, key);
      assert false;
    }
    if forall k | issued < k < again :: !GivesBack(events[k], key) {
      StaysUntilGivenBack(events, issued + 1, again, key);
      assert false;
    }
    var back :| issued < back < again && GivesBack(events[back], key);
    assert NotGivenBack(events, again + 1, key);
  }

  lemma ReissuedMeansOtherOwner<V>(events: seq<Event<V>>, issued: nat, key: Key)
    requires issued < |events| && events[issued].Subscribe? && ReissuedSince(events, issued, key)
    ensures key in At(events, |events|).registry.subscriptions
    ensures At(events, |events|).registry.subscriptions[key].id != At(events, issued).nextId
  {
    var back, again :|
      issued < back < again < |events| && GivesBack(events[back], key) && Issues(events, again, key) &&
      NotGivenBack(events, again + 1, key);
    EventAt(events, again);
    EventAt(events, issued);
    IdsGrow(events, issued + 1, again);
    StaysUntilGivenBack(events, again + 1, |events|, key);
  }

  /** The event removes a registration that is not the one its caller was given the key for. */
  ghost predicate RemovesStranger<V>(s: System<V>, e: Event<V>, id: nat) {
    exists key :: key in s.registry.subscriptions && s.registry.subscriptions[key].id != id &&
      key !in Apply(s, e).registry.subscriptions
  }

  /**
   In any run, with keys given back any number of times: giving back a key removes a stranger's
   registration exactly when the key had been given back before and has been issued again since.
   */
  lemma StrangerIsRemovedExactlyWhen<V>(events: seq<Event<V>>, issued: nat, e: Event<V>)
    requires issued < |events| && events[issued].Subscribe?
    requires Removes(e) == Some(Token(At(events, issued).registry.nextKey, At(events, issued).nextId))
    ensures RemovesStranger(At(events, |events|), e, At(events, issued).nextId) <==>
            ReissuedSince(events, issued, At(events, issued).registry.nextKey)
  {
    var s, token := At(events, |events|), Removes(e).value;
    EveryStateStaysValid(events, |events|);
    EventChanges(s, e);
    if ReissuedSince(events, issued, token.key) {
      ReissuedMeansOtherOwner(events, issued, token.key);
    }
    if RemovesStranger(s, e, token.id) {
      assert token.key in s.registry.subscriptions && s.registry.subscriptions[token.key].id != token.id;
      OtherOwnerMeansReissued(events, issued, token.key);
    }
  }

  /** Three calls suffice: subscribe, unsubscribe, and somebody else subscribes. */
  lemma ReissueOccurs<V>(first: Event<V>, second: Event<V>)
    requires first.Subscribe? && second.Subscribe? && !first.notified
    ensures var giveBack := Unsubscribe(Token(0, 0), false);
            var events := [first, giveBack, second];
            ReissuedSince(events, 0, 0) && RemovesStranger(At(events, 3), giveBack, 0)
  {
    var giveBack := Event<V>.Unsubscribe(Token(0, 0), false);
    var events := [first, giveBack, second];
    assert At(events, 0) == Start<V>();
    EventAt(events, 0);
    EventAt(events, 1);
    NextState(events, 1);
    assert At(events, 2).registry.subscriptions == map[];
    assert GivesBack(events[1], 0) && Issues(events, 2, 0) && NotGivenBack(events, 3, 0);
    StrangerIsRemovedExactlyWhen(events, 0, giveBack);
  }

  // ---- collectRegistrations ----

  /** What an event offers for the arguments or directives of a registration. */
  datatype Matcher<!V> = Given(values: seq<Entry<V>>) | Callback(accepts: Entry<V> -> bool)

  datatype Filter<!V> =
    | Everything
    | ByKey(key: Key)
    | ByMatch(arguments: Option<Matcher<V>>, directives: Option<Matcher<V>>)

  predicate Matches<V(==)>(matcher: Option<Matcher<V>>, required: Entry<V>) {
    match matcher
    case None => true
    case Some(Given(values)) => Lookup(values, required.name) == Some(required.value)
    case Some(Callback(accepts)) => accepts(required)
  }

  /** Every argument and directive of the registration is matched. */
  predicate Satisfies<V(==)>(filter: Filter<V>, key: Key, registration: Registration<V>) {
    match filter
    case Everything => true
    case ByKey(wanted) => key == wanted
    case ByMatch(arguments, directives) =>
      && (forall required | required in registration.arguments :: Matches(arguments, required))
      && (forall required | required in registration.directives :: Matches(directives, required))
  }

  /** Among offered values of different names, a required one is matched exactly when it is there. */
  lemma GivenMatchesExactly<V>(values: seq<Entry<V>>, required: Entry<V>)
    requires DistinctNames(values)
    ensures Matches(Some(Given(values)), required) <==> required in values
  {
    if i :| 0 <= i < |values| && values[i] == required {
      LookupFindsFirst(values, i);
    }
  }

  /** Arguments and directives are offered as values: every one of the registration is among them. */
  lemma SatisfiesMeansIncluded<V>(
    arguments: seq<Entry<V>>, directives: seq<Entry<V>>, key: Key, registration: Registration<V>)
    requires DistinctNames(arguments) && DistinctNames(directives)
    ensures Satisfies(ByMatch(Some(Given(arguments)), Some(Given(directives))), key, registration) <==>
            (forall required | required in registration.arguments :: required in arguments) &&
            (forall required | required in registration.directives :: required in directives)
    ensures Satisfies(ByMatch(None, None), key, registration) && Satisfies(Everything, key, registration)
    ensures forall wanted :: Satisfies(ByKey(wanted), key, registration) <==> wanted == key
  {
    forall required | required in registration.arguments
      ensures Matches(Some(Given(arguments)), required) <==> required in arguments
    {
      GivenMatchesExactly(arguments, required);
    }
    forall required | required in registration.directives
      ensures Matches(Some(Given(directives)), required) <==> required in directives
    {
      GivenMatchesExactly(directives, required);
    }
  }

  /** keys are, in increasing order, the live registrations on the field that satisfy the filter. */
  ghost predicate Selects<V>(r: Registry<V>, field: string, filter: Filter<V>, keys: seq<Key>) {
    && (forall i, j | 0 <= i < j < |keys| :: keys[i] < keys[j])
    && (forall key :: key in keys <==>
          key in r.subscriptions && r.subscriptions[key].field == field &&
          Satisfies(filter, key, r.subscriptions[key]))
  }

  /** Keys taken from the front of a listener set stay in order when a later one is added. */
  lemma LaterKeyFollows(listener: seq<Key>, i: nat, keys: seq<Key>)
    requires i < |listener| && Sorted(NatLess, listener) && Sorted(NatLess, keys)
    requires forall key | key in keys :: key in listener[..i]
    ensures Sorted(NatLess, keys + [listener[i]])
  {
    forall k | 0 <= k < |keys|
      ensures NatLess(keys[k], listener[i])
    {
      assert keys[k] in listener[..i];
      var at :| 0 <= at < i && listener[..i][at] == keys[k];
      assert NatLess(listener[at], listener[i]);
    }
  }

  /** The registrations under the keys; None stands for a null pointer. */
  function Registered<V>(r: Registry<V>, keys: seq<Key>): (registrations: seq<Option<Registration<V>>>)
    ensures |registrations| == |keys|
  {
    seq(|keys|, i requires 0 <= i < |keys| =>
      if keys[i] in r.subscriptions then Some(r.subscriptions[keys[i]]) else None)
  }

  // ---- The registry of a Request ----

  class Request<V(==)> {
    var subscriptions: map<Key, Registration<V>>
    var listeners: map<string, seq<Key>>
    var nextKey: Key

    function Current(): Registry<V>
      reads this
    {
      Registry(subscriptions, listeners, nextKey)
    }

    constructor ()
      ensures Current() == Empty()
    {
      subscriptions, listeners, nextKey := map[], map[], 0;
    }

    method AddSubscription(registration: Registration<V>) returns (key: Key)
      modifies this
      ensures key == old(nextKey)
      ensures Current() == Add(old(Current()), registration)
    {
      key := nextKey;
      nextKey := nextKey + 1;
      var listener := if registration.field in listeners then listeners[registration.field] else [];
      listeners := listeners[registration.field := SetEmplace(NatLess, listener, key)];
      if key !in subscriptions {
        subscriptions := subscriptions[key := registration];
      }
    }

    method RemoveSubscription(key: Key)
      requires Valid(Current())
      modifies this
      ensures Current() == Remove(old(Current()), key)
      ensures Valid(Current())
    {
      RemoveKeepsValid(Current(), key);
      if key !in subscriptions {
        return;
      }
      var listenerKey := subscriptions[key].field;
      assert Agree(Current(), listenerKey, key);
      var listener := SetErase(NatLess, listeners[listenerKey], key);
      listeners := listeners[listenerKey := listener];
      if listener == [] {
        listeners := listeners - {listenerKey};
      }
      subscriptions := subscriptions - {key};
      if subscriptions == map[] {
        nextKey := 0;
      } else {
        nextKey := Largest(subscriptions.Keys) + 1;
      }
    }

    /** The selected registrations in the order of their keys, never a null one. */
    method CollectRegistrations(field: string, filter: Filter<V>) returns (registrations: seq<Option<Registration<V>>>)
      requires Valid(Current())
      ensures exists keys :: Selects(Current(), field, filter, keys) && registrations == Registered(Current(), keys)
      ensures forall registration | registration in registrations :: registration.Some?
    {
      registrations := [];
      ghost var keys: seq<Key> := [];
      ghost var r := Current();
      forall key
        ensures key in Listeners(r, field) <==> key in r.subscriptions && r.subscriptions[key].field == field
      {
        assert Agree(r, field, key);
      }
      if field !in listeners {
        assert Selects(Current(), field, filter, keys);
        assert registrations == Registered(Current(), keys);
        return;
      }
      match filter {
        case Everything =>
          for i := 0 to |listeners[field]|
            invariant keys == listeners[field][..i] && |registrations| == i
            invariant forall k | 0 <= k < i ::
                        keys[k] in subscriptions && registrations[k] == Some(subscriptions[keys[k]])
          {
            var key := listeners[field][i];
            registrations := registrations + [if key in subscriptions then Some(subscriptions[key]) else None];
            keys := keys + [key];
          }
        case ByKey(wanted) =>
          if wanted in subscriptions && subscriptions[wanted].field == field {
            registrations, keys := [Some(subscriptions[wanted])], [wanted];
          }
        case ByMatch(arguments, directives) =>
          for i := 0 to |listeners[field]|
            invariant |registrations| == |keys|
            invariant forall k | 0 <= k < |keys| ::
                        keys[k] in subscriptions && registrations[k] == Some(subscriptions[keys[k]])
            invariant Sorted(NatLess, keys)
            invariant forall key :: key in keys <==>
                        key in listeners[field][..i] && Satisfies(filter, key, subscriptions[key])
          {
            var key := listeners[field][i];
            assert key in Listeners(r, field);
            assert listeners[field][..i + 1] == listeners[field][..i] + [key];
            var argumentsMatch := AllMatch(arguments, subscriptions[key].arguments);
            if argumentsMatch {
              var directivesMatch := AllMatch(directives, subscriptions[key].directives);
              if directivesMatch {
                LaterKeyFollows(listeners[field], i, keys);
                registrations := registrations + [Some(subscriptions[key])];
                keys := keys + [key];
              }
            }
          }
          assert listeners[field][..|listeners[field]|] == listeners[field];
      }
      assert Selects(Current(), field, filter, keys);
      assert registrations == Registered(Current(), keys);
    }

    method AllMatch(matcher: Option<Matcher<V>>, required: seq<Entry<V>>) returns (matched: bool)
      ensures matched <==> forall entry | entry in required :: Matches(matcher, entry)
    {
      if matcher.None? {
        return true;
      }
      for i := 0 to |required|
        invariant forall k | 0 <= k < i :: Matches(matcher, required[k])
      {
        if !Matches(matcher, required[i]) {
          return false;
        }
      }
      matched := true;
    }
  }
}
