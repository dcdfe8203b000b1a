/**
 The map form of a response value: entries in insertion order plus an index of their positions
 sorted by name, which lookups search by equal range.
 */
module ValueMembers {
  import opened Common
  import opened SortedContainers

  /** The names in the order of the index. */
  function IndexedNames<V>(entries: seq<(string, V)>, members: seq<nat>): (names: seq<string>)
    requires forall i | 0 <= i < |members| :: members[i] < |entries|
    ensures |names| == |members| && forall i | 0 <= i < |members| :: names[i] == entries[members[i]].0
  {
    seq(|members|, i requires 0 <= i < |members| => entries[members[i]].0)
  }

  /** members is the permutation of 0..n-1 that sorts the entries by name, without equal names. */
  predicate IsIndex<V>(entries: seq<(string, V)>, members: seq<nat>) {
    && |members| == |entries|
    && (forall i | 0 <= i < |members| :: members[i] < |entries|)
    && (forall position: nat | position < |entries| :: position in members)
    && Sorted(Lexicographic, IndexedNames(entries, members))
  }

  lemma IndexHasAllNames<V>(entries: seq<(string, V)>, members: seq<nat>, name: string)
    requires IsIndex(entries, members)
    ensures name in IndexedNames(entries, members) <==> name in KeysOf(entries)
  {
    var names := IndexedNames(entries, members);
    if name in KeysOf(entries) {
      var position :| 0 <= position < |entries| && KeysOf(entries)[position] == name;
      assert position in members;
      var i :| 0 <= i < |members| && members[i] == position;
      assert names[i] == name;
    }
    if name in names {
      var i :| 0 <= i < |names| && names[i] == name;
      assert KeysOf(entries)[members[i]] == name;
    }
  }

  /** The names of an indexed map are distinct. */
  lemma IndexedNamesAreDistinct<V>(entries: seq<(string, V)>, members: seq<nat>, a: nat, b: nat)
    requires IsIndex(entries, members)
    requires a < |entries| && b < |entries| && entries[a].0 == entries[b].0
    ensures a == b
  {
    LexicographicIsStrictTotal();
    assert a in members && b in members;
    var i :| 0 <= i < |members| && members[i] == a;
    var j :| 0 <= j < |members| && members[j] == b;
    OrderedMeansDistinct(Lexicographic, IndexedNames(entries, members), i, j);
  }

  lemma PermutationAfterAppend(members: seq<nat>, at: nat)
    requires at <= |members|
    requires forall position: nat | position < |members| :: position in members
    ensures forall position: nat | position <= |members| :: position in Inserted(members, at, |members|)
  {
    var members' := Inserted(members, at, |members|);
    forall position: nat | position <= |members|
      ensures position in members'
    {
      if position < |members| {
        assert position in members;
        var i :| 0 <= i < |members| && members[i] == position;
        assert members'[if i < at then i else i + 1] == position;
      } else {
        assert members'[at] == position;
      }
    }
  }

  lemma NamesAfterAppend<V>(entries: seq<(string, V)>, members: seq<nat>, at: nat, name: string, value: V)
    requires at <= |members| == |entries| && forall i | 0 <= i < |members| :: members[i] < |entries|
    ensures forall i | 0 <= i <= |members| :: Inserted(members, at, |entries|)[i] < |entries| + 1
    ensures IndexedNames(entries + [(name, value)], Inserted(members, at, |entries|)) ==
            Inserted(IndexedNames(entries, members), at, name)
  {
    var longer := Inserted(members, at, |entries|);
    var names := Inserted(IndexedNames(entries, members), at, name);
    forall i | 0 <= i < |longer|
      ensures longer[i] < |entries| + 1 && (entries + [(name, value)])[longer[i]].0 == names[i]
    {
      if i != at {
        var k := if i < at then i else i - 1;
        assert longer[i] == members[k] && names[i] == IndexedNames(entries, members)[k];
      }
    }
  }

  lemma IndexAfterAppend<V>(entries: seq<(string, V)>, members: seq<nat>, name: string, value: V)
    requires IsIndex(entries, members) && name !in KeysOf(entries)
    ensures IsIndex(
      entries + [(name, value)],
      Inserted(members, UpperBound(Lexicographic, IndexedNames(entries, members), name), |entries|))
  {
    LexicographicIsStrictTotal();
    IndexHasAllNames(entries, members, name);
    var names := IndexedNames(entries, members);
    var at := UpperBound(Lexicographic, names, name);
    InsertionKeepsOrder(Lexicographic, names, name);
    PermutationAfterAppend(members, at);
    NamesAfterAppend(entries, members, at, name, value);
  }

  /** There is only one index of given entries. */
  lemma {:induction false} IndexIsUnique<V>(entries: seq<(string, V)>, left: seq<nat>, right: seq<nat>, n: nat)
    requires IsIndex(entries, left) && IsIndex(entries, right) && n <= |entries|
    ensures left[..n] == right[..n]
  {
    if n > 0 {
      IndexIsUnique(entries, left, right, n - 1);
      LexicographicIsStrictTotal();
      var l, r := IndexedNames(entries, left), IndexedNames(entries, right);
      SmallestRemaining(entries, left, right, n - 1);
      SmallestRemaining(entries, right, left, n - 1);
      assert l[n - 1] == r[n - 1];
      IndexedNamesAreDistinct(entries, left, left[n - 1], right[n - 1]);
      assert left[..n] == left[..n - 1] + [left[n - 1]] && right[..n] == right[..n - 1] + [right[n - 1]];
    }
  }

  /** What one index has in a shared prefix is not what the other has after it. */
  lemma PrefixIsDifferent<V>(entries: seq<(string, V)>, left: seq<nat>, right: seq<nat>, i: nat, k: nat)
    requires IsIndex(entries, left) && IsIndex(entries, right) && i < k < |entries|
    requires left[..k] == right[..k]
    requires StrictTotalOrder(Lexicographic)
    ensures left[i] != right[k]
  {
    assert left[..k][i] == right[..k][i];
    var r := IndexedNames(entries, right);
    assert Lexicographic(r[i], r[k]) && !Lexicographic(r[k], r[k]);
  }

  /** Where two indexes agree on a prefix, the next name of one is no larger than that of the other. */
  lemma SmallestRemaining<V>(entries: seq<(string, V)>, left: seq<nat>, right: seq<nat>, k: nat)
    requires IsIndex(entries, left) && IsIndex(entries, right) && k < |entries|
    requires left[..k] == right[..k]
    requires StrictTotalOrder(Lexicographic)
    ensures !Lexicographic(IndexedNames(entries, right)[k], IndexedNames(entries, left)[k])
  {
    assert right[k] in left;
    var i :| 0 <= i < |left| && left[i] == right[k];
    forall j: nat | j < k
      ensures left[j] != right[k]
    {
      PrefixIsDifferent(entries, left, right, j, k);
    }
    var l := IndexedNames(entries, left);
    assert i > k ==> Lexicographic(l[k], l[i]);
  }

  class MapData<V> {
    var entries: seq<(string, V)>
    var members: seq<nat>

    ghost predicate Valid()
      reads this
    {
      IsIndex(entries, members)
    }

    constructor ()
      ensures Valid() && entries == []
    {
      entries, members := [], [];
    }

    /** Appends unless the name is taken; the index stays the sorted permutation. */
    method EmplaceBack(name: string, value: V) returns (inserted: bool)
      requires Valid()
      modifies this
      ensures Valid()
      ensures inserted <==> name !in KeysOf(old(entries))
      ensures entries == if inserted then old(entries) + [(name, value)] else old(entries)
    {
      LexicographicIsStrictTotal();
      IndexHasAllNames(entries, members, name);
      var names := IndexedNames(entries, members);
      EqualRange(Lexicographic, names, name);
      var lower, upper := LowerBound(Lexicographic, names, name), UpperBound(Lexicographic, names, name);
      if lower != upper {
        return false;
      }
      IndexAfterAppend(entries, members, name, value);
      members := Inserted(members, lower, |members|);
      entries := entries + [(name, value)];
      inserted := true;
    }

    /** The search through the index finds what a search through the entries would. */
    method Find(name: string) returns (found: Option<nat>)
      requires Valid()
      ensures found == if name in KeysOf(entries) then Some(FirstIndex(KeysOf(entries), name)) else None
    {
      LexicographicIsStrictTotal();
      IndexHasAllNames(entries, members, name);
      var names := IndexedNames(entries, members);
      EqualRange(Lexicographic, names, name);
      var lower, upper := LowerBound(Lexicographic, names, name), UpperBound(Lexicographic, names, name);
      if lower == upper {
        return None;
      }
      IndexedNamesAreDistinct(entries, members, members[lower], FirstIndex(KeysOf(entries), name));
      found := Some(members[lower]);
    }

    /** The copy rebuilds the index through an ordered map and gets the same one. */
    constructor Copy(other: MapData<V>)
      requires other.Valid()
      ensures Valid() && entries == other.entries && members == other.members
    {
      var copied: seq<(string, V)> := [];
      for i := 0 to |other.entries|
        invariant copied == other.entries[..i]
      {
        copied := copied + [other.entries[i]];
      }
      entries := copied;
      members := [];
      new;
      assert entries == other.entries;
      forall a, b | 0 <= a < b < |entries|
        ensures entries[a].0 != entries[b].0
      {
        if entries[a].0 == entries[b].0 {
          IndexedNamesAreDistinct(other.entries, other.members, a, b);
        }
      }
      var index := BuildIndex(entries);
      members := index;
      IndexIsUnique(entries, members, other.members, |entries|);
      assert members[..|entries|] == members && other.members[..|entries|] == other.members;
    }
  }

  /** The index of the copy constructor: positions by name in an ordered map, read off in its order. */
  method BuildIndex<V>(entries: seq<(string, V)>) returns (members: seq<nat>)
    requires forall a, b | 0 <= a < b < |entries| :: entries[a].0 != entries[b].0
    ensures IsIndex(entries, members)
  {
    LexicographicIsStrictTotal();
    var positions := new SortedMap<string, nat>(Lexicographic);
    for i := 0 to |entries|
      invariant fresh(positions) && positions.Valid() && positions.less == Lexicographic
      invariant positions.Contents().Keys == set j | 0 <= j < i :: entries[j].0
      invariant forall j | 0 <= j < i :: positions.Contents()[entries[j].0] == j
      invariant |positions.data| == i
    {
      positions.Assign(entries[i].0, |positions.data|);
    }
    var data := positions.data;
    members := seq(|data|, i requires 0 <= i < |data| => data[i].1);
    PositionsAreIndex(entries, members, data, positions.Contents());
  }

  lemma PositionsAreIndex<V>(
    entries: seq<(string, V)>, members: seq<nat>, data: seq<(string, nat)>, positions: map<string, nat>)
    requires StrictTotalOrder(Lexicographic) && Sorted(Lexicographic, KeysOf(data)) && positions == MapOf(data)
    requires |members| == |data| == |entries| && forall i | 0 <= i < |data| :: members[i] == data[i].1
    requires positions.Keys == set j | 0 <= j < |entries| :: entries[j].0
    requires forall j | 0 <= j < |entries| :: positions[entries[j].0] == j
    ensures IsIndex(entries, members)
  {
    forall i | 0 <= i < |members|
      ensures members[i] < |entries| && entries[members[i]].0 == data[i].0
    {
      MapOfAt(Lexicographic, data, i);
      assert data[i].0 in positions.Keys;
    }
    forall position: nat | position < |entries|
      ensures position in members
    {
      var name := entries[position].0;
      assert name in positions.Keys;
      var i := FirstIndex(KeysOf(data), name);
      MapOfAt(Lexicographic, data, i);
      assert members[i] == position;
    }
    assert IndexedNames(entries, members) == KeysOf(data);
  }
}
