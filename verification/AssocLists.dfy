/** Lists of keys with their values, searched from the front. */
module AssocLists {
  datatype Entry<K, V> = Entry(key: K, value: V)

  // The first place of a key, or the length.
  function IndexOf<K(==), V>(entries: seq<Entry<K, V>>, key: K): (i: nat)
    ensures i <= |entries|
    ensures i < |entries| ==> entries[i].key == key
    ensures forall j | 0 <= j < i :: entries[j].key != key
  {
    if entries == [] || entries[0].key == key then 0 else 1 + IndexOf(entries[1..], key)
  }

  lemma IndexIs<K, V>(entries: seq<Entry<K, V>>, key: K, i: nat)
    requires i <= |entries| && (i < |entries| ==> entries[i].key == key)
    requires forall j | 0 <= j < i :: entries[j].key != key
    ensures IndexOf(entries, key) == i
  {
  }
}
