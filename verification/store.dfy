/** The map-plus-counter store behind both in-memory storages: a map from
    id to record and the next id to issue. */
module IdStore {
  import opened Wrappers
  import opened SeqFacts

  datatype Store<T> = Store(entries: map<int, T>, nextId: int)

  /** The counter has issued every stored key: keys lie in [1, nextId). */
  ghost predicate Valid<T>(s: Store<T>) {
    && s.nextId >= 1
    && forall k :: k in s.entries ==> 1 <= k < s.nextId
  }

  /** A new, or freshly cleared, store. */
  function Empty<T>(): (s: Store<T>)
    ensures Valid(s)
    ensures |s.entries| == 0
  {
    Store(map[], 1)
  }

  /** `clear`: drop every record and restart the counter; the next record
      created gets id 1. */
  function Clear<T>(s: Store<T>): (r: Store<T>)
    ensures Valid(r)
    ensures |r.entries| == 0
    ensures r.nextId == 1
  {
    Empty()
  }

  /** The storing half of `create`: put `v` under the counter's value and
      advance the counter. The id was never used before. */
  function Insert<T>(s: Store<T>, v: T): (r: Store<T>)
    ensures Valid(s) ==> s.nextId !in s.entries
    ensures Valid(s) ==> Valid(r) && |r.entries| == |s.entries| + 1
    ensures r.nextId == s.nextId + 1
    ensures s.nextId in r.entries && r.entries[s.nextId] == v
    ensures forall k :: k != s.nextId ==> (k in r.entries <==> k in s.entries)
    ensures forall k :: k in s.entries && k != s.nextId ==> r.entries[k] == s.entries[k]
  {
    Store(s.entries[s.nextId := v], s.nextId + 1)
  }

  /** The storing half of `update`: replace the record under an existing
      id; None when the id is absent. */
  function Replace<T>(s: Store<T>, id: int, v: T): (r: Option<Store<T>>)
    ensures r.None? <==> id !in s.entries
    ensures r.Some? ==> r.value.entries.Keys == s.entries.Keys
    ensures r.Some? ==> r.value.entries[id] == v
    ensures r.Some? ==> forall k :: k in s.entries && k != id ==> r.value.entries[k] == s.entries[k]
    ensures r.Some? ==> r.value.nextId == s.nextId
    ensures r.Some? && Valid(s) ==> Valid(r.value)
  {
    if id in s.entries then Some(Store(s.entries[id := v], s.nextId)) else None
  }

  /** `findById`. */
  function Find<T>(s: Store<T>, id: int): (r: Option<T>)
    ensures r.Some? <==> id in s.entries
    ensures r.Some? ==> r.value == s.entries[id]
  {
    if id in s.entries then Some(s.entries[id]) else None
  }

  /** `existsById`: exactly when `findById` finds something. */
  function Exists<T>(s: Store<T>, id: int): (r: bool)
    ensures r <==> Find(s, id).Some?
  {
    id in s.entries
  }

  /** The stored keys in `[lo, nextId)`, ascending. */
  function KeysFrom<T>(s: Store<T>, lo: int): (ks: seq<int>)
    ensures forall i :: 0 <= i < |ks| ==> ks[i] in s.entries && lo <= ks[i] < s.nextId
    ensures forall k :: k in s.entries && lo <= k < s.nextId ==> k in ks
    ensures forall i, j :: 0 <= i < j < |ks| ==> ks[i] < ks[j]
    decreases s.nextId - lo
  {
    if lo >= s.nextId then []
    else if lo in s.entries then [lo] + KeysFrom(s, lo + 1)
    else KeysFrom(s, lo + 1)
  }

  /** The store's enumeration order: all stored keys, ascending. */
  function Keys<T>(s: Store<T>): (ks: seq<int>)
    requires Valid(s)
    ensures Distinct(ks)
    ensures Elements(ks) == s.entries.Keys
    ensures |ks| == |s.entries|
  {
    var ks := KeysFrom(s, 1);
    DistinctCardinality(ks);
    ks
  }

  /** The records stored under `ks`, in that order. */
  function ValuesAt<T>(s: Store<T>, ks: seq<int>): (vs: seq<T>)
    requires forall i :: 0 <= i < |ks| ==> ks[i] in s.entries
    ensures |vs| == |ks|
    ensures forall i :: 0 <= i < |ks| ==> vs[i] == s.entries[ks[i]]
  {
    if ks == [] then [] else [s.entries[ks[0]]] + ValuesAt(s, ks[1..])
  }

  /** Every stored record is found under one of the keys `ks` lists. */
  lemma ValuesAtCovers<T>(s: Store<T>, ks: seq<int>)
    requires Elements(ks) == s.entries.Keys
    ensures s.entries.Values <= Elements(ValuesAt(s, ks))
  {
    var vs := ValuesAt(s, ks);
    forall k | k in s.entries ensures s.entries[k] in Elements(vs) {
      assert k in Elements(ks);
      var i :| 0 <= i < |ks| && ks[i] == k;
      assert vs[i] == s.entries[k];
    }
  }

  /** Every record listed under the stored keys `ks` is a stored record. */
  lemma ValuesAtStored<T>(s: Store<T>, ks: seq<int>)
    requires forall i :: 0 <= i < |ks| ==> ks[i] in s.entries
    ensures Elements(ValuesAt(s, ks)) <= s.entries.Values
  {
    var vs := ValuesAt(s, ks);
    forall v | v in Elements(vs) ensures v in s.entries.Values {
      var i :| 0 <= i < |vs| && vs[i] == v;
      assert s.entries[ks[i]] == v;
    }
  }

  /** `findAll`: every stored record once, in the store's enumeration order
      (the source's is the hash map's; any fixed order will do). */
  function FindAll<T(==)>(s: Store<T>): (vs: seq<T>)
    requires Valid(s)
    ensures |vs| == |s.entries|
    ensures forall i :: 0 <= i < |vs| ==> vs[i] == s.entries[Keys(s)[i]]
    ensures Elements(vs) == s.entries.Values
  {
    var ks := Keys(s);
    ValuesAtCovers(s, ks);
    ValuesAtStored(s, ks);
    ValuesAt(s, ks)
  }
}
