/**
 Input types are declared dependencies first: a stable partition is repeated until no type waits
 for another, or none of the waiting types can be handled.
 */
module InputTypeOrder {
  import opened Common
  import opened TypeModifiers

  datatype Field = Field(typeName: string, modifiers: seq<Modifier>)

  /** dependencies have to be complete before the type, declarations only announced. */
  datatype InputType = InputType(
    name: string, fields: seq<Field>, dependencies: set<string>, declarations: seq<string>)

  // ---- The graph of required dependencies ----

  predicate DependsOn(types: seq<InputType>, source: string, target: string) {
    exists i :: 0 <= i < |types| && types[i].name == source && target in types[i].dependencies
  }

  predicate IsDependencyPath(types: seq<InputType>, path: seq<string>) {
    forall i | 0 <= i < |path| - 1 :: DependsOn(types, path[i], path[i + 1])
  }

  ghost predicate HasCycle(types: seq<InputType>) {
    exists path :: |path| >= 2 && path[0] == path[|path| - 1] && IsDependencyPath(types, path)
  }

  /** Following dependencies from the name, some name comes up twice. */
  ghost predicate LeadsToCycle(types: seq<InputType>, name: string) {
    exists path: seq<string>, i: nat :: i < |path| - 1 && path[0] == name && path[i] == path[|path| - 1] &&
      IsDependencyPath(types, path)
  }

  predicate NamesDiffer(types: seq<InputType>) {
    forall i, j | 0 <= i < j < |types| :: types[i].name != types[j].name
  }

  function TypeNames(types: seq<InputType>): set<string> {
    set i | 0 <= i < |types| :: types[i].name
  }

  /** Every dependency is one of the types. */
  predicate Closed(types: seq<InputType>) {
    forall i | 0 <= i < |types| :: types[i].dependencies <= TypeNames(types)
  }

  /** Every dependency stands before the type that needs it. */
  predicate DependenciesFirst(types: seq<InputType>) {
    forall i | 0 <= i < |types| :: types[i].dependencies <= TypeNames(types[..i])
  }

  // ---- An ordered list has no cycle ----

  lemma {:induction false} PathGoesBack(types: seq<InputType>, path: seq<string>, first: nat, last: nat)
    requires NamesDiffer(types) && DependenciesFirst(types)
    requires |path| >= 2 && IsDependencyPath(types, path)
    requires first < |types| && types[first].name == path[0]
    requires last < |types| && types[last].name == path[|path| - 1]
    ensures last < first
    decreases |path|
  {
    assert DependsOn(types, path[0], path[1]);
    assert path[1] in TypeNames(types[..first]);
    var next :| 0 <= next < first && types[..first][next].name == path[1];
    if |path| > 2 {
      var rest := path[1..];
      forall i | 0 <= i < |rest| - 1
        ensures DependsOn(types, rest[i], rest[i + 1])
      {
        assert rest[i] == path[i + 1] && rest[i + 1] == path[i + 2];
      }
      PathGoesBack(types, rest, next, last);
    }
  }

  lemma OrderedHasNoCycle(types: seq<InputType>)
    requires NamesDiffer(types) && DependenciesFirst(types)
    ensures !HasCycle(types)
  {
    if HasCycle(types) {
      var path :| |path| >= 2 && path[0] == path[|path| - 1] && IsDependencyPath(types, path);
      assert DependsOn(types, path[0], path[1]);
      var i :| 0 <= i < |types| && types[i].name == path[0];
      PathGoesBack(types, path, i, i);
    }
  }

  // ---- Types that all wait for each other have a cycle ----

  ghost predicate Waits(types: seq<InputType>, waiting: set<string>, name: string) {
    exists next :: next in waiting && DependsOn(types, name, next)
  }

  /** Every one of the names depends on another of them. */
  ghost predicate AllWait(types: seq<InputType>, waiting: set<string>) {
    forall name {:trigger Waits(types, waiting, name)} | name in waiting :: Waits(types, waiting, name)
  }

  lemma LongerPath(types: seq<InputType>, path: seq<string>, next: string)
    requires |path| > 0 && IsDependencyPath(types, path) && DependsOn(types, path[|path| - 1], next)
    ensures IsDependencyPath(types, path + [next])
  {
    var longer := path + [next];
    forall i | 0 <= i < |longer| - 1
      ensures DependsOn(types, longer[i], longer[i + 1])
    {
      if i < |path| - 1 {
        assert longer[i] == path[i] && longer[i + 1] == path[i + 1];
      }
    }
  }

  lemma PathEnd(types: seq<InputType>, path: seq<string>, i: nat)
    requires i <= |path| && IsDependencyPath(types, path)
    ensures IsDependencyPath(types, path[i..])
  {
    forall k | 0 <= k < |path[i..]| - 1
      ensures DependsOn(types, path[i..][k], path[i..][k + 1])
    {
      assert path[i..][k] == path[i + k] && path[i..][k + 1] == path[i + k + 1];
    }
  }

  function Seen(path: seq<string>): set<string> {
    set i | 0 <= i < |path| :: path[i]
  }

  lemma SeenNext(path: seq<string>, next: string)
    ensures Seen(path + [next]) == Seen(path) + {next}
  {
    var longer := path + [next];
    assert longer[|path|] == next;
    assert forall i | 0 <= i < |path| :: longer[i] == path[i];
  }

  lemma LeadingToCycleMeansCycle(types: seq<InputType>, name: string)
    requires LeadsToCycle(types, name)
    ensures HasCycle(types)
  {
    var path: seq<string>, i: nat :| i < |path| - 1 && path[0] == name && path[i] == path[|path| - 1] &&
      IsDependencyPath(types, path);
    PathEnd(types, path, i);
    assert path[i..][0] == path[i..][|path[i..]| - 1];
  }

  lemma {:induction false} WaitingPathFindsCycle(types: seq<InputType>, waiting: set<string>, path: seq<string>)
    requires AllWait(types, waiting)
    requires |path| > 0 && IsDependencyPath(types, path) && Seen(path) <= waiting
    ensures LeadsToCycle(types, path[0])
    decreases waiting - Seen(path)
  {
    var last := path[|path| - 1];
    assert last in Seen(path) && Waits(types, waiting, last);
    var next :| next in waiting && DependsOn(types, last, next);
    LongerPath(types, path, next);
    if next in Seen(path) {
      var i :| 0 <= i < |path| && path[i] == next;
      var longer := path + [next];
      assert longer[0] == path[0] && longer[i] == longer[|longer| - 1];
    } else {
      SeenNext(path, next);
      assert waiting - Seen(path + [next]) < waiting - Seen(path) by {
        assert next in waiting - Seen(path);
      }
      WaitingPathFindsCycle(types, waiting, path + [next]);
    }
  }

  // ---- The partition ----

  predicate IsReady(handled: set<string>, t: InputType) {
    t.dependencies <= handled
  }

  /** The ready or the waiting types, in their order. */
  function Select(types: seq<InputType>, handled: set<string>, ready: bool): seq<InputType> {
    if types == [] then []
    else (if IsReady(handled, types[0]) == ready then [types[0]] else []) + Select(types[1..], handled, ready)
  }

  lemma {:induction false} SelectionsMakeWhole(types: seq<InputType>, handled: set<string>)
    ensures multiset(Select(types, handled, true)) + multiset(Select(types, handled, false)) == multiset(types)
    ensures forall t | t in Select(types, handled, true) :: IsReady(handled, t)
    ensures forall t | t in Select(types, handled, false) :: !IsReady(handled, t) && t in types
  {
    if types != [] {
      assert types == [types[0]] + types[1..];
      SelectionsMakeWhole(types[1..], handled);
    }
  }

  lemma FirstSelected(types: seq<InputType>, handled: set<string>, ready: bool)
    requires types != []
    ensures Select(types, handled, ready) == Select(types[..1], handled, ready) + Select(types[1..], handled, ready)
  {
    assert types[..1] == [types[0]] && types[..1][1..] == [];
    assert Select([], handled, ready) == [];
  }

  lemma Associate(a: seq<InputType>, b: seq<InputType>, c: seq<InputType>)
    ensures (a + b) + c == a + (b + c)
  {
  }

  lemma FrontOfBoth(left: seq<InputType>, right: seq<InputType>)
    requires left != []
    ensures left + right != [] && (left + right)[..1] == left[..1] && (left + right)[1..] == left[1..] + right
  {
  }

  /** Both parts of the partition keep the order of the types. */
  lemma {:induction false} SelectKeepsOrder(
    left: seq<InputType>, right: seq<InputType>, handled: set<string>, ready: bool)
    ensures Select(left + right, handled, ready) == Select(left, handled, ready) + Select(right, handled, ready)
  {
    if left == [] {
      assert left + right == right && Select(left, handled, ready) == [];
    } else {
      FrontOfBoth(left, right);
      FirstSelected(left + right, handled, ready);
      FirstSelected(left, handled, ready);
      SelectKeepsOrder(left[1..], right, handled, ready);
      Associate(
        Select(left[..1], handled, ready), Select(left[1..], handled, ready), Select(right, handled, ready));
    }
  }

  lemma SelectOne(t: InputType, handled: set<string>, ready: bool)
    ensures Select([t], handled, ready) ==
            (if (forall name | name in t.dependencies :: name in handled) == ready then [t] else [])
  {
    assert [t][1..] == [];
  }

  lemma {:induction false} NothingReadyIsWhole(types: seq<InputType>, handled: set<string>)
    requires Select(types, handled, true) == []
    ensures Select(types, handled, false) == types
  {
    if types != [] {
      NothingReadyIsWhole(types[1..], handled);
    }
  }

  method StablePartition(types: seq<InputType>, handled: set<string>)
    returns (ready: seq<InputType>, waiting: seq<InputType>)
    ensures ready == Select(types, handled, true) && waiting == Select(types, handled, false)
  {
    ready, waiting := [], [];
    for i := 0 to |types|
      invariant ready + Select(types[i..], handled, true) == Select(types, handled, true)
      invariant waiting + Select(types[i..], handled, false) == Select(types, handled, false)
    {
      assert types[i..][1..] == types[i + 1..];
      if IsReady(handled, types[i]) {
        ready := ready + [types[i]];
      } else {
        waiting := waiting + [types[i]];
      }
    }
  }

  // ---- What a permutation keeps ----

  predicate SameTypes(left: seq<InputType>, right: seq<InputType>) {
    multiset(left) == multiset(right)
  }

  lemma SameTypesSameMembers(left: seq<InputType>, right: seq<InputType>)
    requires SameTypes(left, right)
    ensures forall t :: t in left <==> t in right
    ensures TypeNames(left) == TypeNames(right)
    ensures Closed(left) <==> Closed(right)
    ensures forall source, target :: DependsOn(left, source, target) <==> DependsOn(right, source, target)
  {
    assert forall t :: t in left <==> t in multiset(left);
    assert forall t :: t in right <==> t in multiset(right);
    MembersDecide(left, right);
    MembersDecide(right, left);
  }

  lemma MembersDecide(left: seq<InputType>, right: seq<InputType>)
    requires forall t | t in left :: t in right
    ensures TypeNames(left) <= TypeNames(right)
    ensures TypeNames(left) == TypeNames(right) && Closed(right) ==> Closed(left)
    ensures forall source, target | DependsOn(left, source, target) :: DependsOn(right, source, target)
  {
    forall i | 0 <= i < |left|
      ensures left[i].name in TypeNames(right)
      ensures exists j :: 0 <= j < |right| && right[j] == left[i]
    {
      assert left[i] in right;
    }
  }

  lemma SameTypesSameCycles(left: seq<InputType>, right: seq<InputType>)
    requires SameTypes(left, right)
    ensures HasCycle(left) <==> HasCycle(right)
    ensures forall name :: LeadsToCycle(left, name) <==> LeadsToCycle(right, name)
  {
    SameTypesSameMembers(left, right);
    assert forall path :: IsDependencyPath(left, path) <==> IsDependencyPath(right, path);
  }

  lemma SameTypesNamesDiffer(left: seq<InputType>, right: seq<InputType>)
    requires SameTypes(left, right) && NamesDiffer(left)
    ensures NamesDiffer(right)
  {
    SameTypesSameMembers(left, right);
    forall i, j | 0 <= i < j < |right|
      ensures right[i].name != right[j].name
    {
      assert right[i] in right && right[j] in right;
      var k :| 0 <= k < |left| && left[k] == right[i];
      var l :| 0 <= l < |left| && left[l] == right[j];
      OnceInDistinct(left, right[i]);
      TwiceWhenRepeated(right, i, j);
    }
  }

  lemma TwiceWhenRepeated(types: seq<InputType>, i: nat, j: nat)
    requires i < j < |types|
    ensures types[i] == types[j] ==> multiset(types)[types[i]] >= 2
  {
    assert types == types[..j] + types[j..];
    assert types[i] in types[..j] && types[j] in types[j..];
    assert multiset(types[..j])[types[i]] >= 1 && multiset(types[j..])[types[j]] >= 1;
  }

  lemma {:induction false} OnceInDistinct(types: seq<InputType>, t: InputType)
    requires NamesDiffer(types)
    ensures multiset(types)[t] <= 1
  {
    if types != [] {
      var last := |types| - 1;
      assert types == types[..last] + [types[last]];
      OnceInDistinct(types[..last], t);
      if types[last] == t {
        assert t !in types[..last];
      }
    }
  }

  // ---- The rounds of partitioning ----

  lemma SelectionsSplit(types: seq<InputType>, handled: set<string>)
    ensures |types| == |Select(types, handled, true)| + |Select(types, handled, false)|
  {
    SelectionsMakeWhole(types, handled);
    assert |types| == |multiset(types)|;
  }

  /** What is ready after each round, in its order; then the name of the first type stuck, if any. */
  function Rounds(placed: seq<InputType>, rest: seq<InputType>): (seq<InputType>, Option<string>)
    decreases |rest|
  {
    var ready := Select(rest, TypeNames(placed), true);
    if rest == [] then (placed, None)
    else if ready == [] then (placed + rest, Some(rest[0].name))
    else
      SelectionsSplit(rest, TypeNames(placed));
      Rounds(placed + ready, Select(rest, TypeNames(placed), false))
  }

  lemma TypeNamesOfBoth(left: seq<InputType>, right: seq<InputType>)
    ensures TypeNames(left + right) == TypeNames(left) + TypeNames(right)
  {
    var both := left + right;
    forall i | 0 <= i < |left|
      ensures left[i].name in TypeNames(both)
    {
      assert both[i] == left[i];
    }
    forall i | 0 <= i < |right|
      ensures right[i].name in TypeNames(both)
    {
      assert both[|left| + i] == right[i];
    }
  }

  lemma ReadyFollow(placed: seq<InputType>, ready: seq<InputType>)
    requires DependenciesFirst(placed) && forall t | t in ready :: IsReady(TypeNames(placed), t)
    ensures DependenciesFirst(placed + ready)
  {
    var both := placed + ready;
    forall i | 0 <= i < |both|
      ensures both[i].dependencies <= TypeNames(both[..i])
    {
      if i < |placed| {
        assert both[..i] == placed[..i];
      } else {
        assert both[..i] == placed + ready[..i - |placed|];
        TypeNamesOfBoth(placed, ready[..i - |placed|]);
        assert both[i] in ready;
      }
    }
  }

  lemma RoundKeepsTypes(placed: seq<InputType>, rest: seq<InputType>, handled: set<string>)
    ensures SameTypes(placed + Select(rest, handled, true) + Select(rest, handled, false), placed + rest)
  {
    SelectionsMakeWhole(rest, handled);
  }

  lemma StuckTypesAllWait(placed: seq<InputType>, rest: seq<InputType>)
    requires Closed(placed + rest) && forall t | t in rest :: !IsReady(TypeNames(placed), t)
    ensures AllWait(placed + rest, TypeNames(rest))
  {
    TypeNamesOfBoth(placed, rest);
    forall name | name in TypeNames(rest)
      ensures Waits(placed + rest, TypeNames(rest), name)
    {
      var k :| 0 <= k < |rest| && rest[k].name == name;
      assert rest[k] in rest && (placed + rest)[|placed| + k] == rest[k];
      var next :| next in rest[k].dependencies && next !in TypeNames(placed);
      assert next in TypeNames(rest) && DependsOn(placed + rest, name, next);
    }
  }

  lemma StuckLeadsToCycle(placed: seq<InputType>, rest: seq<InputType>)
    requires rest != [] && Closed(placed + rest) && Select(rest, TypeNames(placed), true) == []
    ensures LeadsToCycle(placed + rest, rest[0].name)
  {
    SelectionsMakeWhole(rest, TypeNames(placed));
    NothingReadyIsWhole(rest, TypeNames(placed));
    StuckTypesAllWait(placed, rest);
    assert Seen([rest[0].name]) <= TypeNames(rest);
    WaitingPathFindsCycle(placed + rest, TypeNames(rest), [rest[0].name]);
  }

  /** The rounds permute the types, and either order them or stop at one that leads to a cycle. */
  lemma {:induction false} RoundsOrderOrFindCycle(placed: seq<InputType>, rest: seq<InputType>)
    requires DependenciesFirst(placed) && Closed(placed + rest)
    ensures var (types, stuck) := Rounds(placed, rest);
            SameTypes(types, placed + rest) &&
            (stuck.None? ==> DependenciesFirst(types)) &&
            (stuck.Some? ==> LeadsToCycle(placed + rest, stuck.value))
    decreases |rest|
  {
    var ready, waiting := Select(rest, TypeNames(placed), true), Select(rest, TypeNames(placed), false);
    if rest == [] {
      assert placed + rest == placed;
    } else if ready == [] {
      StuckLeadsToCycle(placed, rest);
    } else {
      SelectionsSplit(rest, TypeNames(placed));
      SelectionsMakeWhole(rest, TypeNames(placed));
      RoundKeepsTypes(placed, rest, TypeNames(placed));
      SameTypesSameMembers(placed + ready + waiting, placed + rest);
      ReadyFollow(placed, ready);
      RoundsOrderOrFindCycle(placed + ready, waiting);
      SameTypesSameCycles(placed + ready + waiting, placed + rest);
    }
  }

  /** From the start: ordered exactly when no required dependency leads back to its type. */
  lemma RoundsDecideCycles(types: seq<InputType>)
    requires NamesDiffer(types) && Closed(types)
    ensures SameTypes(Rounds([], types).0, types)
    ensures Rounds([], types).1.None? ==> DependenciesFirst(Rounds([], types).0)
    ensures Rounds([], types).1.Some? <==> HasCycle(types)
    ensures Rounds([], types).1.Some? ==> LeadsToCycle(types, Rounds([], types).1.value)
  {
    assert [] + types == types;
    RoundsOrderOrFindCycle([], types);
    var (ordered, stuck) := Rounds([], types);
    if stuck.Some? {
      LeadingToCycleMeansCycle(types, stuck.value);
    } else {
      SameTypesNamesDiffer(types, ordered);
      OrderedHasNoCycle(ordered);
      SameTypesSameCycles(ordered, types);
    }
  }

  lemma RoundsContinue(placed: seq<InputType>, rest: seq<InputType>)
    requires Select(rest, TypeNames(placed), true) != []
    ensures Rounds(placed, rest) ==
            Rounds(placed + Select(rest, TypeNames(placed), true), Select(rest, TypeNames(placed), false))
  {
  }

  lemma RoundsStop(placed: seq<InputType>, rest: seq<InputType>)
    requires rest != [] && Select(rest, TypeNames(placed), true) == []
    ensures var waiting := Select(rest, TypeNames(placed), false);
            waiting == rest &&
            Rounds(placed, rest) == (placed + [] + waiting, Some((placed + [] + waiting)[|placed|].name))
  {
    NothingReadyIsWhole(rest, TypeNames(placed));
    assert placed + [] + rest == placed + rest;
  }

  lemma MiddlePart(placed: seq<InputType>, ready: seq<InputType>, waiting: seq<InputType>)
    ensures (placed + ready + waiting)[|placed|..|placed| + |ready|] == ready
    ensures TypeNames(placed + ready) == TypeNames(placed) + TypeNames(ready)
  {
    TypeNamesOfBoth(placed, ready);
  }

  // ---- reorderInputTypeDependencies ----

  class InputTypeList {
    var inputTypes: seq<InputType>

    constructor (types: seq<InputType>)
      ensures inputTypes == types
    {
      inputTypes := types;
    }

    /** One pass: the types that are ready move to the front of the rest. */
    method MoveReadyForward(
      itr: nat, handled: set<string>, ghost placed: seq<InputType>, ghost rest: seq<InputType>) returns (count: nat)
      requires inputTypes == placed + rest && itr == |placed|
      modifies this
      ensures inputTypes == placed + Select(rest, handled, true) + Select(rest, handled, false)
      ensures count == |Select(rest, handled, true)|
    {
      assert inputTypes[..itr] == placed && inputTypes[itr..] == rest;
      var ready, waiting := StablePartition(inputTypes[itr..], handled);
      inputTypes := inputTypes[..itr] + ready + waiting;
      count := |ready|;
    }

    /** The loop: the rounds to the end, or to the first one in which nothing is ready. */
    method PlaceAll() returns (stuck: Option<string>)
      modifies this
      ensures (inputTypes, stuck) == Rounds([], old(inputTypes))
    {
      var handled: set<string> := {};
      var itr: nat := 0;
      ghost var placed, rest := [], inputTypes;
      while itr < |inputTypes|
        invariant inputTypes == placed + rest && itr == |placed|
        invariant rest != [] ==> handled == TypeNames(placed)
        invariant Rounds(placed, rest) == Rounds([], old(inputTypes))
        decreases |inputTypes| - itr
      {
        ghost var ready, waiting := Select(rest, handled, true), Select(rest, handled, false);
        var count := MoveReadyForward(itr, handled, placed, rest);
        SelectionsSplit(rest, handled);
        MiddlePart(placed, ready, waiting);
        if count == 0 {
          RoundsStop(placed, rest);
          return Some(inputTypes[itr].name);
        }
        RoundsContinue(placed, rest);
        if itr + count < |inputTypes| {
          handled := handled + TypeNames(inputTypes[itr..itr + count]);
        }
        itr := itr + count;
        placed, rest := placed + ready, waiting;
      }
      assert rest == [] && placed + rest == placed;
      stuck := None;
    }

    /** It gets stuck exactly on a cycle, at a type that leads to one. */
    method Reorder() returns (stuck: Option<string>)
      requires NamesDiffer(inputTypes) && Closed(inputTypes)
      modifies this
      ensures (inputTypes, stuck) == Rounds([], old(inputTypes))
      ensures SameTypes(inputTypes, old(inputTypes))
      ensures stuck.None? ==> DependenciesFirst(inputTypes)
      ensures stuck.Some? <==> HasCycle(old(inputTypes))
      ensures stuck.Some? ==> LeadsToCycle(old(inputTypes), stuck.value)
    {
      RoundsDecideCycles(inputTypes);
      stuck := PlaceAll();
    }
  }
}
