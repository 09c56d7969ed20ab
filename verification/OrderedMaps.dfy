/** A std::map with integer keys, seen through its iteration order: a sequence of entries with
    strictly increasing keys. An iterator is a position in the sequence. */
module OrderedMaps {

  datatype Entry<+V> = Entry(key: nat, value: V)

  predicate Sorted<V>(m: seq<Entry<V>>) {
    forall i, j :: 0 <= i < j < |m| ==> m[i].key < m[j].key
  }

  // the first position whose key is not below k
  function LowerBound<V>(m: seq<Entry<V>>, k: nat): (i: nat)
    ensures i <= |m|
    ensures forall j :: 0 <= j < i ==> m[j].key < k
    ensures i < |m| ==> k <= m[i].key
  {
    if m == [] || k <= m[0].key then 0 else 1 + LowerBound(m[1..], k)
  }

  predicate HasKey<V>(m: seq<Entry<V>>, k: nat) {
    LowerBound(m, k) < |m| && m[LowerBound(m, k)].key == k
  }

  // std::map::insert keeps an existing entry
  function Insert<V>(m: seq<Entry<V>>, k: nat, v: V): seq<Entry<V>> {
    var i := LowerBound(m, k);
    if HasKey(m, k) then m else m[..i] + [Entry(k, v)] + m[i..]
  }

  function Erase<V>(m: seq<Entry<V>>, i: nat): seq<Entry<V>>
    requires i < |m|
  {
    m[..i] + m[i + 1..]
  }

  lemma InsertSorted<V>(m: seq<Entry<V>>, k: nat, v: V)
    requires Sorted(m)
    ensures Sorted(Insert(m, k, v))
  {
  }

  /** Inserting above every key appends. */
  lemma InsertLast<V>(m: seq<Entry<V>>, k: nat, v: V)
    requires forall i :: 0 <= i < |m| ==> m[i].key < k
    ensures Insert(m, k, v) == m + [Entry(k, v)]
  {
  }
}
