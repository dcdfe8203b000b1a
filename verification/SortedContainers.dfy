/**
 sorted_set and sorted_map: vectors kept in order by a comparison, searched by equal range.
 Under a strict total order they behave as finite sets and maps.
 */
module SortedContainers {
  import opened Common

  // ---- Orders ----

  ghost predicate StrictTotalOrder<K(!new)>(less: (K, K) -> bool) {
    && (forall a :: !less(a, a))
    && (forall a, b, c :: less(a, b) && less(b, c) ==> less(a, c))
    && (forall a, b :: a != b ==> less(a, b) || less(b, a))
  }

  predicate NatLess(a: nat, b: nat) { a < b }

  /** std::string_view's operator<: by character, a proper prefix first. */
  predicate Lexicographic(a: string, b: string) {
    if b == "" then false
    else if a == "" then true
    else if a[0] != b[0] then a[0] < b[0]
    else Lexicographic(a[1..], b[1..])
  }

  /** shorter_or_less: by length, then by character. */
  predicate ShorterOrLess(a: string, b: string) {
    if |a| == |b| then Lexicographic(a, b) else |a| < |b|
  }

  lemma {:induction false} LexicographicIrreflexive(a: string)
    ensures !Lexicographic(a, a)
  {
    if a != "" {
      LexicographicIrreflexive(a[1..]);
    }
  }

  lemma {:induction false} LexicographicTransitive(a: string, b: string, c: string)
    requires Lexicographic(a, b) && Lexicographic(b, c)
    ensures Lexicographic(a, c)
  {
    if a != "" && a[0] == b[0] && b[0] == c[0] {
      LexicographicTransitive(a[1..], b[1..], c[1..]);
    }
  }

  lemma {:induction false} LexicographicConnected(a: string, b: string)
    requires a != b
    ensures Lexicographic(a, b) || Lexicographic(b, a)
  {
    if a != "" && b != "" && a[0] == b[0] {
      assert a == [a[0]] + a[1..] && b == [b[0]] + b[1..];
      LexicographicConnected(a[1..], b[1..]);
    }
  }

  lemma LexicographicIsStrictTotal()
    ensures StrictTotalOrder(Lexicographic)
  {
    forall a: string
      ensures !Lexicographic(a, a)
    {
      LexicographicIrreflexive(a);
    }
    forall a: string, b: string, c: string | Lexicographic(a, b) && Lexicographic(b, c)
      ensures Lexicographic(a, c)
    {
      LexicographicTransitive(a, b, c);
    }
    forall a: string, b: string | a != b
      ensures Lexicographic(a, b) || Lexicographic(b, a)
    {
      LexicographicConnected(a, b);
    }
  }

  /** One string is a proper beginning of the other, or has the smaller character where they part. */
  predicate DivergesAt(a: string, b: string, i: nat) {
    i <= |a| && i < |b| && a[..i] == b[..i] && (i < |a| ==> a[i] < b[i])
  }

  lemma {:induction false} LexicographicMeans(a: string, b: string)
    ensures Lexicographic(a, b) <==> exists i: nat :: DivergesAt(a, b, i)
  {
    if a == "" || b == "" || a[0] != b[0] {
      assert DivergesAt(a, b, 0) || !Lexicographic(a, b);
    } else {
      LexicographicMeans(a[1..], b[1..]);
      if i: nat :| DivergesAt(a[1..], b[1..], i) {
        assert a[..i + 1] == [a[0]] + a[1..][..i] && b[..i + 1] == [b[0]] + b[1..][..i];
        assert DivergesAt(a, b, i + 1);
      }
      if i: nat :| DivergesAt(a, b, i) {
        assert i > 0;
        assert a[1..][..i - 1] == a[..i][1..] && b[1..][..i - 1] == b[..i][1..];
        assert DivergesAt(a[1..], b[1..], i - 1);
      }
    }
  }

  lemma ShorterOrLessMeans(a: string, b: string)
    ensures ShorterOrLess(a, b) <==> |a| < |b| || (|a| == |b| && exists i: nat :: DivergesAt(a, b, i))
  {
    LexicographicMeans(a, b);
  }

  lemma ShorterOrLessIsStrictTotal()
    ensures StrictTotalOrder(ShorterOrLess)
  {
    LexicographicIsStrictTotal();
    assert forall a: string :: !Lexicographic(a, a);
  }

  // ---- Ordered vectors ----

  predicate Sorted<K>(less: (K, K) -> bool, s: seq<K>) {
    forall i, j | 0 <= i < j < |s| :: less(s[i], s[j])
  }

  /** First position not below the key. */
  function LowerBound<K>(less: (K, K) -> bool, s: seq<K>, key: K): (i: nat)
    ensures i <= |s|
    ensures forall k | 0 <= k < i :: less(s[k], key)
    ensures i < |s| ==> !less(s[i], key)
  {
    if s == [] || !less(s[0], key) then 0 else 1 + LowerBound(less, s[1..], key)
  }

  /** First position above the key. */
  function UpperBound<K>(less: (K, K) -> bool, s: seq<K>, key: K): (i: nat)
    ensures i <= |s|
    ensures forall k | 0 <= k < i :: !less(key, s[k])
    ensures i < |s| ==> less(key, s[i])
  {
    if s == [] || less(key, s[0]) then 0 else 1 + UpperBound(less, s[1..], key)
  }

  /** The equal range of a key is its one position, or empty where the key belongs. */
  lemma EqualRange<K(!new)>(less: (K, K) -> bool, s: seq<K>, key: K)
    requires StrictTotalOrder(less) && Sorted(less, s)
    ensures LowerBound(less, s, key) <= UpperBound(less, s, key)
    ensures key !in s <==> LowerBound(less, s, key) == UpperBound(less, s, key)
    ensures key in s ==> UpperBound(less, s, key) == LowerBound(less, s, key) + 1 &&
                         s[LowerBound(less, s, key)] == key
  {
    var lower, upper := LowerBound(less, s, key), UpperBound(less, s, key);
    if upper < |s| {
      assert !less(s[upper], key);
    }
    if key in s {
      var i :| 0 <= i < |s| && s[i] == key;
      assert lower == i;
      assert upper == i + 1;
    }
    if lower < upper {
      assert s[lower] == key;
    }
  }

  function Inserted<T>(s: seq<T>, i: nat, element: T): seq<T>
    requires i <= |s|
  {
    s[..i] + [element] + s[i..]
  }

  function Removed<T>(s: seq<T>, i: nat): seq<T>
    requires i < |s|
  {
    s[..i] + s[i + 1..]
  }

  lemma InsertionKeepsOrder<K(!new)>(less: (K, K) -> bool, s: seq<K>, key: K)
    requires StrictTotalOrder(less) && Sorted(less, s) && key !in s
    ensures Sorted(less, Inserted(s, UpperBound(less, s, key), key))
  {
    EqualRange(less, s, key);
    var i := UpperBound(less, s, key);
    var t := Inserted(s, i, key);
    forall a, b | 0 <= a < b < |t|
      ensures less(t[a], t[b])
    {
      if a < i && b == i {
        assert less(s[a], key);
      } else if a == i {
        assert less(key, s[i]) && t[b] == s[b - 1];
      }
    }
  }

  lemma RemovalKeepsOrder<K(!new)>(less: (K, K) -> bool, s: seq<K>, i: nat)
    requires Sorted(less, s) && i < |s|
    ensures Sorted(less, Removed(s, i))
  {
    var t := Removed(s, i);
    forall a, b | 0 <= a < b < |t|
      ensures less(t[a], t[b])
    {
      assert t[a] == s[if a < i then a else a + 1] && t[b] == s[if b < i then b else b + 1];
    }
  }

  lemma OrderedMeansDistinct<K(!new)>(less: (K, K) -> bool, s: seq<K>, i: nat, j: nat)
    requires StrictTotalOrder(less) && Sorted(less, s) && i < |s| && j < |s| && s[i] == s[j]
    ensures i == j
  {
  }

  ghost function Members<K>(s: seq<K>): set<K> {
    set key | key in s
  }

  lemma MembersOfInserted<K>(s: seq<K>, i: nat, key: K)
    requires i <= |s|
    ensures Members(Inserted(s, i, key)) == Members(s) + {key}
  {
    assert s == s[..i] + s[i..];
  }

  lemma MembersOfRemoved<K(!new)>(less: (K, K) -> bool, s: seq<K>, i: nat)
    requires StrictTotalOrder(less) && Sorted(less, s) && i < |s|
    ensures Members(Removed(s, i)) == Members(s) - {s[i]}
  {
    assert s == s[..i] + [s[i]] + s[i + 1..];
    var t := Removed(s, i);
    forall key | key in t
      ensures key != s[i]
    {
      var a :| 0 <= a < |t| && t[a] == key;
      assert t[a] == s[if a < i then a else a + 1];
    }
  }

  /** sorted_set::emplace as a function on the vector. */
  function SetEmplace<K>(less: (K, K) -> bool, s: seq<K>, key: K): seq<K> {
    if LowerBound(less, s, key) < UpperBound(less, s, key) then s
    else Inserted(s, UpperBound(less, s, key), key)
  }

  /** sorted_set::erase as a function on the vector. */
  function SetErase<K>(less: (K, K) -> bool, s: seq<K>, key: K): seq<K> {
    var lower := LowerBound(less, s, key);
    if lower < UpperBound(less, s, key) && lower < |s| then Removed(s, lower) else s
  }

  lemma SetEmplaceAdds<K(!new)>(less: (K, K) -> bool, s: seq<K>, key: K)
    requires StrictTotalOrder(less) && Sorted(less, s)
    ensures Sorted(less, SetEmplace(less, s, key))
    ensures Members(SetEmplace(less, s, key)) == Members(s) + {key}
  {
    EqualRange(less, s, key);
    if key !in s {
      InsertionKeepsOrder(less, s, key);
      MembersOfInserted(s, UpperBound(less, s, key), key);
    }
  }

  lemma SetEraseRemoves<K(!new)>(less: (K, K) -> bool, s: seq<K>, key: K)
    requires StrictTotalOrder(less) && Sorted(less, s)
    ensures Sorted(less, SetErase(less, s, key))
    ensures Members(SetErase(less, s, key)) == Members(s) - {key}
  {
    EqualRange(less, s, key);
    if key in s {
      RemovalKeepsOrder(less, s, LowerBound(less, s, key));
      MembersOfRemoved(less, s, LowerBound(less, s, key));
    }
  }

  // ---- Vectors of pairs as maps ----

  function KeysOf<K, V>(data: seq<(K, V)>): (keys: seq<K>)
    ensures |keys| == |data| && forall i | 0 <= i < |data| :: keys[i] == data[i].0
  {
    seq(|data|, i requires 0 <= i < |data| => data[i].0)
  }

  function FirstIndex<K(==)>(s: seq<K>, key: K): (i: nat)
    requires key in s
    ensures i < |s| && s[i] == key && key !in s[..i]
  {
    if s[0] == key then 0
    else
      var i := 1 + FirstIndex(s[1..], key);
      assert s[..i] == [s[0]] + s[1..][..i - 1];
      i
  }

  ghost function MapOf<K, V>(data: seq<(K, V)>): map<K, V> {
    map key | key in KeysOf(data) :: data[FirstIndex(KeysOf(data), key)].1
  }

  lemma MapOfAt<K(!new), V>(less: (K, K) -> bool, data: seq<(K, V)>, i: nat)
    requires StrictTotalOrder(less) && Sorted(less, KeysOf(data)) && i < |data|
    ensures data[i].0 in MapOf(data) && MapOf(data)[data[i].0] == data[i].1
  {
    var keys := KeysOf(data);
    assert keys[i] in keys;
    OrderedMeansDistinct(less, keys, i, FirstIndex(keys, keys[i]));
  }

  /** The map of a vector is the only one with its keys and, position by position, its values. */
  lemma MapOfIsOnly<K(!new), V>(less: (K, K) -> bool, data: seq<(K, V)>, m: map<K, V>)
    requires StrictTotalOrder(less) && Sorted(less, KeysOf(data))
    requires m.Keys == Members(KeysOf(data))
    requires forall i | 0 <= i < |data| :: data[i].0 in m && m[data[i].0] == data[i].1
    ensures m == MapOf(data)
  {
    forall key | key in m
      ensures m[key] == MapOf(data)[key]
    {
      var i := FirstIndex(KeysOf(data), key);
      MapOfAt(less, data, i);
    }
  }

  lemma MapOfInserted<K(!new), V>(less: (K, K) -> bool, data: seq<(K, V)>, i: nat, entry: (K, V))
    requires StrictTotalOrder(less) && Sorted(less, KeysOf(data)) && i <= |data| && entry.0 !in KeysOf(data)
    requires Sorted(less, KeysOf(Inserted(data, i, entry)))
    ensures MapOf(Inserted(data, i, entry)) == MapOf(data)[entry.0 := entry.1]
  {
    var longer := Inserted(data, i, entry);
    var m := MapOf(data)[entry.0 := entry.1];
    assert KeysOf(longer) == Inserted(KeysOf(data), i, entry.0);
    MembersOfInserted(KeysOf(data), i, entry.0);
    forall k | 0 <= k < |longer|
      ensures longer[k].0 in m && m[longer[k].0] == longer[k].1
    {
      if k != i {
        var j := if k < i then k else k - 1;
        assert longer[k] == data[j];
        assert KeysOf(data)[j] == data[j].0;
        MapOfAt(less, data, j);
      }
    }
    MapOfIsOnly(less, longer, m);
  }

  lemma MapOfRemoved<K(!new), V>(less: (K, K) -> bool, data: seq<(K, V)>, i: nat)
    requires StrictTotalOrder(less) && Sorted(less, KeysOf(data)) && i < |data|
    requires Sorted(less, KeysOf(Removed(data, i)))
    ensures MapOf(Removed(data, i)) == MapOf(data) - {data[i].0}
  {
    var shorter := Removed(data, i);
    var m := MapOf(data) - {data[i].0};
    assert KeysOf(shorter) == Removed(KeysOf(data), i);
    MembersOfRemoved(less, KeysOf(data), i);
    assert m.Keys == Members(KeysOf(data)) - {data[i].0};
    forall k | 0 <= k < |shorter|
      ensures shorter[k].0 in m && m[shorter[k].0] == shorter[k].1
    {
      var j := if k < i then k else k + 1;
      assert shorter[k] == data[j];
      MapOfAt(less, data, j);
      assert KeysOf(shorter)[k] in Members(KeysOf(shorter));
    }
    MapOfIsOnly(less, shorter, m);
  }

  lemma MapOfReplaced<K(!new), V>(less: (K, K) -> bool, data: seq<(K, V)>, i: nat, value: V)
    requires StrictTotalOrder(less) && Sorted(less, KeysOf(data)) && i < |data|
    ensures KeysOf(data[i := (data[i].0, value)]) == KeysOf(data)
    ensures MapOf(data[i := (data[i].0, value)]) == MapOf(data)[data[i].0 := value]
  {
    var other := data[i := (data[i].0, value)];
    assert KeysOf(other) == KeysOf(data);
    forall key | key in MapOf(other)
      ensures MapOf(other)[key] == MapOf(data)[data[i].0 := value][key]
    {
      var j := FirstIndex(KeysOf(data), key);
      if key == data[i].0 {
        OrderedMeansDistinct(less, KeysOf(data), i, j);
      }
    }
    MapOfAt(less, data, i);
  }

  // ---- The containers ----

  class SortedSet<K(!new, ==)> {
    const less: (K, K) -> bool
    var data: seq<K>

    ghost predicate Valid()
      reads this
    {
      StrictTotalOrder(less) && Sorted(less, data)
    }

    ghost function Contents(): set<K>
      reads this
    {
      Members(data)
    }

    constructor (less: (K, K) -> bool)
      requires StrictTotalOrder(less)
      ensures Valid() && this.less == less && Contents() == {}
    {
      this.less := less;
      data := [];
    }

    method Find(key: K) returns (found: Option<nat>)
      requires Valid()
      ensures found.Some? <==> key in Contents()
      ensures found.Some? ==> found.value < |data| && data[found.value] == key
    {
      EqualRange(less, data, key);
      var lower, upper := LowerBound(less, data, key), UpperBound(less, data, key);
      found := if lower == upper then None else Some(lower);
    }

    method Emplace(key: K) returns (position: nat, inserted: bool)
      requires Valid()
      modifies this`data
      ensures Valid() && Contents() == old(Contents()) + {key}
      ensures inserted <==> key !in old(Contents())
      ensures position < |data| && data[position] == key
    {
      EqualRange(less, data, key);
      SetEmplaceAdds(less, data, key);
      var lower, upper := LowerBound(less, data, key), UpperBound(less, data, key);
      if lower != upper {
        return lower, false;
      }
      data := Inserted(data, upper, key);
      return upper, true;
    }

    method Erase(key: K) returns (next: nat)
      requires Valid()
      modifies this`data
      ensures Valid() && Contents() == old(Contents()) - {key}
      ensures key in old(Contents()) ==>
        next <= |data| < |old(data)| && old(data)[..next] == data[..next] && (next == |data| || less(key, data[next]))
      ensures key !in old(Contents()) ==> next == |data|
    {
      EqualRange(less, data, key);
      SetEraseRemoves(less, data, key);
      var lower, upper := LowerBound(less, data, key), UpperBound(less, data, key);
      if lower == upper {
        return |data|;
      }
      data := Removed(data, lower);
      next := lower;
    }
  }

  class SortedMap<K(!new, ==), V> {
    const less: (K, K) -> bool
    var data: seq<(K, V)>

    ghost predicate Valid()
      reads this
    {
      StrictTotalOrder(less) && Sorted(less, KeysOf(data))
    }

    ghost function Contents(): map<K, V>
      reads this
    {
      MapOf(data)
    }

    constructor (less: (K, K) -> bool)
      requires StrictTotalOrder(less)
      ensures Valid() && this.less == less && Contents() == map[] && data == []
    {
      this.less := less;
      data := [];
    }

    method Find(key: K) returns (found: Option<V>)
      requires Valid()
      ensures found == if key in Contents() then Some(Contents()[key]) else None
    {
      var keys := KeysOf(data);
      EqualRange(less, keys, key);
      var lower, upper := LowerBound(less, keys, key), UpperBound(less, keys, key);
      if lower == upper {
        return None;
      }
      MapOfAt(less, data, lower);
      found := Some(data[lower].1);
    }

    /** An existing value is kept. */
    method Emplace(key: K, value: V) returns (inserted: bool)
      requires Valid()
      modifies this`data
      ensures Valid()
      ensures inserted <==> key !in old(Contents())
      ensures Contents() == if inserted then old(Contents())[key := value] else old(Contents())
      ensures |data| == |old(data)| + if inserted then 1 else 0
    {
      var keys := KeysOf(data);
      EqualRange(less, keys, key);
      var lower, upper := LowerBound(less, keys, key), UpperBound(less, keys, key);
      if lower != upper {
        return false;
      }
      InsertAt(keys, key, value);
      inserted := true;
    }

    /** Writing through operator[]: the value is replaced or the key is added. */
    method Assign(key: K, value: V)
      requires Valid()
      modifies this`data
      ensures Valid() && Contents() == old(Contents())[key := value]
      ensures |data| == |old(data)| + if key in old(Contents()) then 0 else 1
    {
      var keys := KeysOf(data);
      EqualRange(less, keys, key);
      var lower, upper := LowerBound(less, keys, key), UpperBound(less, keys, key);
      if lower != upper {
        MapOfReplaced(less, data, lower, value);
        data := data[lower := (data[lower].0, value)];
        return;
      }
      InsertAt(keys, key, value);
    }

    method InsertAt(keys: seq<K>, key: K, value: V)
      requires Valid() && keys == KeysOf(data) && key !in keys
      modifies this`data
      ensures Valid() && Contents() == old(Contents())[key := value]
      ensures |data| == |old(data)| + 1
    {
      var upper := UpperBound(less, keys, key);
      InsertionKeepsOrder(less, keys, key);
      assert KeysOf(Inserted(data, upper, (key, value))) == Inserted(keys, upper, key);
      MapOfInserted(less, data, upper, (key, value));
      data := Inserted(data, upper, (key, value));
    }

    method Erase(key: K)
      requires Valid()
      modifies this`data
      ensures Valid() && Contents() == old(Contents()) - {key}
    {
      var keys := KeysOf(data);
      EqualRange(less, keys, key);
      var lower, upper := LowerBound(less, keys, key), UpperBound(less, keys, key);
      if lower == upper {
        return;
      }
      RemovalKeepsOrder(less, keys, lower);
      assert KeysOf(Removed(data, lower)) == Removed(keys, lower);
      MapOfRemoved(less, data, lower);
      data := Removed(data, lower);
    }
  }
}
