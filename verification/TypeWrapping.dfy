/**
 Schema::WrapType keeps one wrapper object per kind and wrapped object. A call looks the wrapper
 up under a shared lock and, on a miss, drops that lock before it inserts under a unique lock.
 The validator compares types by address; this module proves that this is structural equality.
 */
module TypeWrapping {
  import opened Common
  import opened GraphQLTypes

  /** An address: objects are numbered as they are allocated. */
  type Ref = nat

  datatype WrapperKind = ListWrapper | NonNullWrapper

  /** The arguments of WrapType; the wrapped pointer may be null. */
  datatype WrapKey = WrapKey(kind: WrapperKind, ofType: Option<Ref>)

  datatype Node = BaseNode(kind: Kind, name: string) | WrapperNode(key: WrapKey)

  /**
   wrappers is the pair of wrapper maps, told apart by the kind in the key. missed holds the calls
   between their two locks, returned the results so far.
   */
  datatype Schema = Schema(
    objects: seq<Node>,
    types: map<string, Ref>,
    wrappers: map<WrapKey, Ref>,
    missed: multiset<WrapKey>,
    returned: seq<(WrapKey, Ref)>)

  datatype Step =
    | AddType(kind: Kind, name: string)
    | Find(key: WrapKey)
    | Insert(key: WrapKey)

  function Start(): Schema {
    Schema([], map[], map[], multiset{}, [])
  }

  /** What LookupType and WrapType hand out. */
  ghost predicate Shared(s: Schema, ref: Ref) {
    (exists name :: name in s.types && s.types[name] == ref) ||
    (exists key :: key in s.wrappers && s.wrappers[key] == ref)
  }

  /** Type names are distinct, and only types obtained from the schema are wrapped. */
  ghost predicate Enabled(s: Schema, step: Step) {
    match step
    case AddType(_, name) => name !in s.types
    case Find(key) => key.ofType.Some? ==> Shared(s, key.ofType.value)
    case Insert(key) => key in s.missed
  }

  function Apply(s: Schema, step: Step): Schema {
    match step
    case AddType(kind, name) =>
      s.(objects := s.objects + [BaseNode(kind, name)], types := s.types[name := |s.objects|])
    case Find(key) =>
      if key in s.wrappers then s.(returned := s.returned + [(key, s.wrappers[key])])
      else s.(missed := s.missed + multiset{key})
    case Insert(key) =>
      // The new object is made before the map is asked, and dropped if the key is there already.
      var made := |s.objects|;
      var wrappers := if key in s.wrappers then s.wrappers else s.wrappers[key := made];
      s.(
        objects := s.objects + [WrapperNode(key)],
        wrappers := wrappers,
        missed := s.missed - multiset{key},
        returned := s.returned + [(key, wrappers[key])])
  }

  ghost predicate Consistent(s: Schema) {
    && (forall ref | 0 <= ref < |s.objects| :: NodeIsGrounded(s.objects, ref))
    && (forall name | name in s.types :: TypeIsStored(s, name))
    && (forall key | key in s.wrappers :: WrapperIsStored(s, key) && WrapsShared(s, key))
    && (forall key | key in s.missed :: WrapsShared(s, key))
    && (forall i | 0 <= i < |s.returned| :: WasStored(s, s.returned[i]))
  }

  predicate TypeIsStored(s: Schema, name: string)
    requires name in s.types
  {
    s.types[name] < |s.objects| && s.objects[s.types[name]].BaseNode? && s.objects[s.types[name]].name == name
  }

  predicate WrapperIsStored(s: Schema, key: WrapKey)
    requires key in s.wrappers
  {
    s.wrappers[key] < |s.objects| && s.objects[s.wrappers[key]] == WrapperNode(key)
  }

  ghost predicate WrapsShared(s: Schema, key: WrapKey) {
    key.ofType.Some? ==> Shared(s, key.ofType.value)
  }

  predicate WasStored(s: Schema, call: (WrapKey, Ref)) {
    call.0 in s.wrappers && s.wrappers[call.0] == call.1
  }

  /** A wrapper is younger than what it wraps. */
  predicate NodeIsGrounded(objects: seq<Node>, ref: Ref)
    requires ref < |objects|
  {
    objects[ref].WrapperNode? && objects[ref].key.ofType.Some? ==> objects[ref].key.ofType.value < ref
  }

  lemma SharedIsAllocated(s: Schema, ref: Ref)
    requires Consistent(s) && Shared(s, ref)
    ensures ref < |s.objects|
  {
  }

  lemma StepKeepsShared(s: Schema, step: Step, ref: Ref)
    requires Consistent(s) && Enabled(s, step) && Shared(s, ref)
    ensures Shared(Apply(s, step), ref)
  {
    var s' := Apply(s, step);
    if name :| name in s.types && s.types[name] == ref {
      assert name in s'.types && s'.types[name] == ref;
    } else {
      var key :| key in s.wrappers && s.wrappers[key] == ref;
      assert key in s'.wrappers && s'.wrappers[key] == ref;
    }
  }

  lemma StepKeepsGrounded(s: Schema, step: Step, ref: Ref)
    requires Consistent(s) && Enabled(s, step) && ref < |Apply(s, step).objects|
    ensures NodeIsGrounded(Apply(s, step).objects, ref)
  {
    if ref < |s.objects| {
      assert NodeIsGrounded(s.objects, ref);
    } else if step.Insert? && step.key.ofType.Some? {
      SharedIsAllocated(s, step.key.ofType.value);
    }
  }

  lemma StepKeepsWrapper(s: Schema, step: Step, key: WrapKey)
    requires Consistent(s) && Enabled(s, step) && key in Apply(s, step).wrappers
    ensures WrapperIsStored(Apply(s, step), key) && WrapsShared(Apply(s, step), key)
  {
    assert key in s.wrappers ==> WrapperIsStored(s, key);
    if key.ofType.Some? {
      StepKeepsShared(s, step, key.ofType.value);
    }
  }

  lemma StepKeepsMissed(s: Schema, step: Step, key: WrapKey)
    requires Consistent(s) && Enabled(s, step) && key in Apply(s, step).missed
    ensures WrapsShared(Apply(s, step), key)
  {
    if key.ofType.Some? {
      StepKeepsShared(s, step, key.ofType.value);
    }
  }

  lemma StepKeepsReturned(s: Schema, step: Step, i: nat)
    requires Consistent(s) && Enabled(s, step) && i < |Apply(s, step).returned|
    ensures WasStored(Apply(s, step), Apply(s, step).returned[i])
  {
    if i < |s.returned| {
      assert WasStored(s, s.returned[i]);
    }
  }

  lemma StepKeepsConsistent(s: Schema, step: Step)
    requires Consistent(s) && Enabled(s, step)
    ensures Consistent(Apply(s, step))
    ensures forall key | key in s.wrappers ::
              key in Apply(s, step).wrappers && Apply(s, step).wrappers[key] == s.wrappers[key]
  {
    var s' := Apply(s, step);
    forall ref | 0 <= ref < |s'.objects|
      ensures NodeIsGrounded(s'.objects, ref)
    {
      StepKeepsGrounded(s, step, ref);
    }
    forall name | name in s'.types
      ensures TypeIsStored(s', name)
    {
      assert name in s.types ==> TypeIsStored(s, name);
    }
    forall key | key in s'.wrappers
      ensures WrapperIsStored(s', key) && WrapsShared(s', key)
    {
      StepKeepsWrapper(s, step, key);
    }
    forall key | key in s'.missed
      ensures WrapsShared(s', key)
    {
      StepKeepsMissed(s, step, key);
    }
    forall i | 0 <= i < |s'.returned|
      ensures WasStored(s', s'.returned[i])
    {
      StepKeepsReturned(s, step, i);
    }
  }

  ghost predicate Legal(s: Schema, steps: seq<Step>)
    decreases steps
  {
    steps == [] || (Enabled(s, steps[0]) && Legal(Apply(s, steps[0]), steps[1..]))
  }

  function Run(s: Schema, steps: seq<Step>): Schema
    decreases steps
  {
    if steps == [] then s else Run(Apply(s, steps[0]), steps[1..])
  }

  /** In every interleaving entries never change once made. */
  lemma {:induction false} RunKeepsEntries(s: Schema, steps: seq<Step>)
    requires Consistent(s) && Legal(s, steps)
    ensures Consistent(Run(s, steps))
    ensures forall key | key in s.wrappers ::
              key in Run(s, steps).wrappers && Run(s, steps).wrappers[key] == s.wrappers[key]
    ensures s.returned <= Run(s, steps).returned
    decreases steps
  {
    if steps != [] {
      StepKeepsConsistent(s, steps[0]);
      RunKeepsEntries(Apply(s, steps[0]), steps[1..]);
    }
  }

  // ---- Addresses and structure ----

  /** The type an object stands for. */
  function Denote(objects: seq<Node>, ref: Ref): Type
    requires forall r | 0 <= r < |objects| :: NodeIsGrounded(objects, r)
    requires ref < |objects|
    decreases ref
  {
    match objects[ref]
    case BaseNode(kind, name) => Named(kind, name)
    case WrapperNode(WrapKey(kind, ofType)) =>
      assert NodeIsGrounded(objects, ref);
      var inner := if ofType.Some? then Some(Denote(objects, ofType.value)) else None;
      if kind == ListWrapper then List(inner) else NonNull(inner)
  }

  /** ValidateType's operator==: both absent, or both present at the same address. */
  predicate SameType(left: Option<Ref>, right: Option<Ref>) {
    if left.Some? then right.Some? && left.value == right.value else right.None?
  }

  /** Among shared objects, equal structure means the same object. */
  lemma {:induction false} SharedStructureIsIdentity(s: Schema, left: Ref, right: Ref)
    requires Consistent(s) && Shared(s, left) && Shared(s, right)
    requires left < |s.objects| && right < |s.objects|
    requires Denote(s.objects, left) == Denote(s.objects, right)
    ensures left == right
    decreases left
  {
    if s.objects[left].BaseNode? {
      OwnName(s, left);
      OwnName(s, right);
    } else {
      var l, r := s.objects[left].key, s.objects[right].key;
      OwnKey(s, left);
      OwnKey(s, right);
      assert NodeIsGrounded(s.objects, left) && NodeIsGrounded(s.objects, right);
      if l.ofType.Some? && r.ofType.Some? {
        SharedStructureIsIdentity(s, l.ofType.value, r.ofType.value);
      }
      assert l == r;
    }
  }

  lemma OwnName(s: Schema, ref: Ref)
    requires Consistent(s) && Shared(s, ref) && ref < |s.objects| && s.objects[ref].BaseNode?
    ensures s.objects[ref].name in s.types && s.types[s.objects[ref].name] == ref
  {
  }

  lemma OwnKey(s: Schema, ref: Ref)
    requires Consistent(s) && Shared(s, ref) && ref < |s.objects| && s.objects[ref].WrapperNode?
    ensures s.objects[ref].key in s.wrappers && s.wrappers[s.objects[ref].key] == ref
    ensures s.objects[ref].key.ofType.Some? ==> Shared(s, s.objects[ref].key.ofType.value)
  {
  }

  /** Calls with equal arguments return one object, however the calls interleave. */
  lemma EqualCallsReturnOneObject(steps: seq<Step>, i: nat, j: nat)
    requires Legal(Start(), steps)
    requires i < |Run(Start(), steps).returned| && j < |Run(Start(), steps).returned|
    requires Run(Start(), steps).returned[i].0 == Run(Start(), steps).returned[j].0
    ensures Run(Start(), steps).returned[i].1 == Run(Start(), steps).returned[j].1
  {
    RunKeepsEntries(Start(), steps);
  }

  /** In every run the validator's address comparison is structural equality of types. */
  lemma AddressEqualityIsStructural(steps: seq<Step>, left: Option<Ref>, right: Option<Ref>)
    requires Legal(Start(), steps)
    requires left.Some? ==> Shared(Run(Start(), steps), left.value)
    requires right.Some? ==> Shared(Run(Start(), steps), right.value)
    ensures Consistent(Run(Start(), steps))
    ensures left.Some? ==> left.value < |Run(Start(), steps).objects|
    ensures right.Some? ==> right.value < |Run(Start(), steps).objects|
    ensures SameType(left, right) <==>
            DenoteOption(Run(Start(), steps).objects, left) == DenoteOption(Run(Start(), steps).objects, right)
  {
    RunKeepsEntries(Start(), steps);
    var s := Run(Start(), steps);
    if left.Some? && right.Some? && Denote(s.objects, left.value) == Denote(s.objects, right.value) {
      SharedStructureIsIdentity(s, left.value, right.value);
    }
  }

  function DenoteOption(objects: seq<Node>, ref: Option<Ref>): Option<Type>
    requires forall r | 0 <= r < |objects| :: NodeIsGrounded(objects, r)
    requires ref.Some? ==> ref.value < |objects|
  {
    if ref.Some? then Some(Denote(objects, ref.value)) else None
  }

  lemma StoredWrapperWraps(s: Schema, key: WrapKey)
    requires Consistent(s) && key in s.wrappers
    ensures Shared(s, s.wrappers[key]) && s.wrappers[key] < |s.objects|
    ensures key.ofType.Some? ==> key.ofType.value < |s.objects|
    ensures Denote(s.objects, s.wrappers[key]) ==
            (if key.kind == ListWrapper then List(DenoteOption(s.objects, key.ofType))
             else NonNull(DenoteOption(s.objects, key.ofType)))
  {
    assert WrapperIsStored(s, key) && WrapsShared(s, key);
    assert NodeIsGrounded(s.objects, s.wrappers[key]);
  }

  /** Objects never change, and a name stays with its object. */
  lemma {:induction false} RunKeepsObjects(s: Schema, steps: seq<Step>)
    requires Consistent(s) && Legal(s, steps)
    ensures s.objects <= Run(s, steps).objects
    ensures forall name | name in s.types :: name in Run(s, steps).types && Run(s, steps).types[name] == s.types[name]
    decreases steps
  {
    if steps != [] {
      StepKeepsConsistent(s, steps[0]);
      RunKeepsObjects(Apply(s, steps[0]), steps[1..]);
    }
  }

  /** After a type was added, whatever follows, its name stands for the type as it was added. */
  lemma AddedTypeIsFound(before: seq<Step>, kind: Kind, name: string, after: seq<Step>)
    requires Legal(Start(), before)
    requires Enabled(Run(Start(), before), AddType(kind, name))
    requires Legal(Apply(Run(Start(), before), AddType(kind, name)), after)
    ensures var last := Run(Apply(Run(Start(), before), AddType(kind, name)), after);
            Consistent(last) && name in last.types && last.types[name] < |last.objects| &&
            Denote(last.objects, last.types[name]) == Named(kind, name)
  {
    RunKeepsEntries(Start(), before);
    var s := Run(Start(), before);
    StepKeepsConsistent(s, AddType(kind, name));
    var added := Apply(s, AddType(kind, name));
    RunKeepsEntries(added, after);
    RunKeepsObjects(added, after);
    assert added.objects[|s.objects|] == BaseNode(kind, name);
  }

  /** The arguments of the calls that began. */
  function Asked(steps: seq<Step>): multiset<WrapKey> {
    if steps == [] then multiset{}
    else (if steps[0].Find? then multiset{steps[0].key} else multiset{}) + Asked(steps[1..])
  }

  function Answered(returned: seq<(WrapKey, Ref)>): multiset<WrapKey> {
    if returned == [] then multiset{}
    else Answered(returned[..|returned| - 1]) + multiset{returned[|returned| - 1].0}
  }

  lemma OneMoreAnswer(returned: seq<(WrapKey, Ref)>, call: (WrapKey, Ref))
    ensures Answered(returned + [call]) == Answered(returned) + multiset{call.0}
  {
    assert (returned + [call])[..|returned|] == returned;
  }

  /** Every call that began has returned or is between its two locks; none is lost and none answered twice. */
  lemma {:induction false} EveryCallIsAnswered(s: Schema, steps: seq<Step>)
    requires Consistent(s) && Legal(s, steps)
    ensures Answered(Run(s, steps).returned) + Run(s, steps).missed == Answered(s.returned) + s.missed + Asked(steps)
    decreases steps
  {
    if steps != [] {
      var step, next := steps[0], Apply(s, steps[0]);
      StepKeepsConsistent(s, step);
      StepAnswers(s, step);
      EveryCallIsAnswered(next, steps[1..]);
    }
  }

  lemma StepAnswers(s: Schema, step: Step)
    requires Enabled(s, step)
    ensures Answered(Apply(s, step).returned) + Apply(s, step).missed ==
            Answered(s.returned) + s.missed + (if step.Find? then multiset{step.key} else multiset{})
  {
    if step.Find? && step.key in s.wrappers {
      OneMoreAnswer(s.returned, (step.key, s.wrappers[step.key]));
    } else if step.Insert? {
      OneMoreAnswer(s.returned, (step.key, Apply(s, step).wrappers[step.key]));
    }
  }

  /** Every object a call returned, in any interleaving, stands for the wrapper that was asked for. */
  lemma EveryReturnedWraps(steps: seq<Step>, i: nat)
    requires Legal(Start(), steps) && i < |Run(Start(), steps).returned|
    ensures var s := Run(Start(), steps);
            var (key, ref) := s.returned[i];
            Consistent(s) && ref < |s.objects| && (key.ofType.Some? ==> key.ofType.value < |s.objects|) &&
            Denote(s.objects, ref) ==
              (if key.kind == ListWrapper then List(DenoteOption(s.objects, key.ofType))
               else NonNull(DenoteOption(s.objects, key.ofType)))
  {
    RunKeepsEntries(Start(), steps);
    var s := Run(Start(), steps);
    assert WasStored(s, s.returned[i]);
    StoredWrapperWraps(s, s.returned[i].0);
  }

  // ---- The schema object ----

  class SchemaTypes {
    var objects: seq<Node>
    var types: map<string, Ref>
    var wrappers: map<WrapKey, Ref>
    ghost var missed: multiset<WrapKey>
    ghost var returned: seq<(WrapKey, Ref)>

    ghost function Current(): Schema
      reads this
    {
      Schema(objects, types, wrappers, missed, returned)
    }

    constructor ()
      ensures Current() == Start()
    {
      objects, types, wrappers := [], map[], map[];
      missed, returned := multiset{}, [];
    }

    method AddType(kind: Kind, name: string)
      modifies this
      ensures Current() == Apply(old(Current()), Step.AddType(kind, name))
    {
      types := types[name := |objects|];
      objects := objects + [BaseNode(kind, name)];
    }

    /** The section under the shared lock. */
    method FindWrapper(key: WrapKey) returns (found: Option<Ref>)
      modifies this`missed, this`returned
      ensures Current() == Apply(old(Current()), Find(key))
      ensures found == if key in wrappers then Some(wrappers[key]) else None
    {
      if key in wrappers {
        found := Some(wrappers[key]);
        returned := returned + [(key, wrappers[key])];
      } else {
        found := None;
        missed := missed + multiset{key};
      }
    }

    /** The section under the unique lock. */
    method InsertWrapper(key: WrapKey) returns (ref: Ref)
      modifies this
      ensures Current() == Apply(old(Current()), Insert(key))
      ensures key in wrappers && ref == wrappers[key]
    {
      var made := |objects|;
      objects := objects + [WrapperNode(key)];
      if key !in wrappers {
        wrappers := wrappers[key := made];
      }
      ref := wrappers[key];
      missed := missed - multiset{key};
      returned := returned + [(key, ref)];
    }

    /** Uninterrupted: the result stands for the wrapper around what the argument stands for. */
    method WrapType(kind: WrapperKind, ofType: Option<Ref>) returns (ref: Ref)
      requires Consistent(Current())
      requires ofType.Some? ==> Shared(Current(), ofType.value)
      modifies this
      ensures Consistent(Current()) && Shared(Current(), ref) && ref < |objects|
      ensures old(objects) <= objects
      ensures ofType.Some? ==> ofType.value < |objects|
      ensures Denote(objects, ref) ==
        if kind == ListWrapper then List(DenoteOption(objects, ofType)) else NonNull(DenoteOption(objects, ofType))
      ensures WrapKey(kind, ofType) in old(wrappers) ==> ref == old(wrappers)[WrapKey(kind, ofType)]
    {
      var key := WrapKey(kind, ofType);
      StepKeepsConsistent(Current(), Find(key));
      var found := FindWrapper(key);
      if found.Some? {
        ref := found.value;
      } else {
        StepKeepsConsistent(Current(), Insert(key));
        ref := InsertWrapper(key);
      }
      StoredWrapperWraps(Current(), key);
    }
  }
}
