/** Stock datatypes and the name-to-value tables every other module uses. */
module Common {

  datatype Option<+T> = None | Some(value: T)

  datatype Result<+T, +E> = Success(value: T) | Failure(error: E)

  /** One element of the vector behind a sorted map. */
  datatype Entry<+T> = Entry(name: string, value: T)

  /** The value of the first entry of the name. */
  function Lookup<T>(entries: seq<Entry<T>>, name: string): (found: Option<T>)
    ensures found.None? ==> !HasName(entries, name)
    ensures found.Some? ==> Entry(name, found.value) in entries
  {
    if entries == [] then None
    else if entries[0].name == name then Some(entries[0].value)
    else Lookup(entries[1..], name)
  }

  lemma {:induction false} LookupFindsFirst<T>(entries: seq<Entry<T>>, i: nat)
    requires i < |entries| && forall k | 0 <= k < i :: entries[k].name != entries[i].name
    ensures Lookup(entries, entries[i].name) == Some(entries[i].value)
  {
    if i > 0 {
      LookupFindsFirst(entries[1..], i - 1);
    }
  }

  predicate HasName<T>(entries: seq<Entry<T>>, name: string) {
    exists i :: 0 <= i < |entries| && entries[i].name == name
  }

  predicate DistinctNames<T>(entries: seq<Entry<T>>) {
    forall i, j | 0 <= i < j < |entries| :: entries[i].name != entries[j].name
  }

  ghost function Names<T>(entries: seq<Entry<T>>): set<string> {
    set i | 0 <= i < |entries| :: entries[i].name
  }
}
