/**
 * Both index readers store what each line gives into a map with
 * `map[key] = value`, line after line, so a later line for the same key
 * overwrites an earlier one.  `Stored` is that sequence of stores.
 */
module IndexMaps {

  /** What one line (or one pair of tokens) stores: a key and its value. */
  datatype Entry<V> = Entry(key: string, value: V)

  /** The map after the entries were stored into `m`, one after the other. */
  function Stored<V>(m: map<string, V>, entries: seq<Entry<V>>): map<string, V>
    decreases |entries|
  {
    if entries == [] then m
    else Stored(m[entries[0].key := entries[0].value], entries[1..])
  }

  /** Storing one more entry after the others. */
  lemma {:induction false} StoredSnoc<V>(m: map<string, V>, entries: seq<Entry<V>>, e: Entry<V>)
    ensures Stored(m, entries + [e]) == Stored(m, entries)[e.key := e.value]
    decreases |entries|
  {
    if entries == [] {
      assert entries + [e] == [e];
    } else {
      assert (entries + [e])[1..] == entries[1..] + [e];
      StoredSnoc(m[entries[0].key := entries[0].value], entries[1..], e);
    }
  }

  /** The keys afterwards are the keys before plus the keys of the entries. */
  lemma {:induction false} StoredKeys<V>(m: map<string, V>, entries: seq<Entry<V>>, key: string)
    ensures key in Stored(m, entries) <==>
      key in m || exists i :: 0 <= i < |entries| && entries[i].key == key
    decreases |entries|
  {
    if entries != [] {
      var rest := entries[1..];
      StoredKeys(m[entries[0].key := entries[0].value], rest, key);
      if exists i :: 0 <= i < |entries| && entries[i].key == key {
        var i :| 0 <= i < |entries| && entries[i].key == key;
        if i > 0 {
          assert rest[i - 1].key == key;
        }
      }
    }
  }

  /** A key no entry mentions keeps the value it had before. */
  lemma {:induction false} StoredUntouched<V>(m: map<string, V>, entries: seq<Entry<V>>, key: string)
    requires key in m
    requires forall i :: 0 <= i < |entries| ==> entries[i].key != key
    ensures key in Stored(m, entries) && Stored(m, entries)[key] == m[key]
    decreases |entries|
  {
    if entries != [] {
      var rest := entries[1..];
      assert forall i :: 0 <= i < |rest| ==> rest[i] == entries[i + 1];
      StoredUntouched(m[entries[0].key := entries[0].value], rest, key);
    }
  }

  /** A later entry for a key overwrites an earlier one: the map holds the
      value of the last entry for the key. */
  lemma {:induction false} StoredLastWins<V>(m: map<string, V>, entries: seq<Entry<V>>, i: nat)
    requires i < |entries|
    requires forall j :: i < j < |entries| ==> entries[j].key != entries[i].key
    ensures entries[i].key in Stored(m, entries)
    ensures Stored(m, entries)[entries[i].key] == entries[i].value
    decreases |entries|
  {
    var m' := m[entries[0].key := entries[0].value];
    var rest := entries[1..];
    assert forall j :: 0 <= j < |rest| ==> rest[j] == entries[j + 1];
    if i == 0 {
      StoredUntouched(m', rest, entries[0].key);
    } else {
      StoredLastWins(m', rest, i - 1);
    }
  }

  /** Storing never removes a key, and every stored key is present. */
  lemma {:induction false} StoredGrows<V>(m: map<string, V>, entries: seq<Entry<V>>)
    ensures m.Keys <= Stored(m, entries).Keys
    ensures forall i :: 0 <= i < |entries| ==> entries[i].key in Stored(m, entries)
    decreases |entries|
  {
    if entries != [] {
      var rest := entries[1..];
      StoredGrows(m[entries[0].key := entries[0].value], rest);
      assert forall i :: 1 <= i < |entries| ==> entries[i] == rest[i - 1];
    }
  }

  /** Each entry adds at most one key. */
  lemma {:induction false} StoredSize<V>(m: map<string, V>, entries: seq<Entry<V>>)
    ensures |Stored(m, entries)| <= |m| + |entries|
    decreases |entries|
  {
    if entries != [] {
      var m' := m[entries[0].key := entries[0].value];
      assert m'.Keys == m.Keys + {entries[0].key};
      StoredSize(m', entries[1..]);
    }
  }
}
