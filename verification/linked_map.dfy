/**
 * A java.util.LinkedHashMap<K, Boolean> as a value: the entries, and the
 * order in which their keys were first inserted (the map's iteration order).
 * Re-putting a key that is present changes its value but not its position.
 */
module LinkedMaps {

  predicate Distinct<K(==)>(s: seq<K>) {
    forall i, j :: 0 <= i < j < |s| ==> s[i] != s[j]
  }

  datatype LinkedMap<K(==)> = LinkedMap(order: seq<K>, entries: map<K, bool>) {
    /** Every key of the map occurs exactly once in the iteration order. */
    predicate WellFormed() {
      && Distinct(order)
      && (forall k :: k in entries ==> k in order)
      && (forall k :: k in order ==> k in entries)
    }
  }

  function Empty<K(==)>(): (r: LinkedMap<K>)
    ensures r.WellFormed() && r.entries == map[]
  {
    LinkedMap([], map[])
  }

  /** LinkedHashMap.put: a new key goes to the end of the order, a present key keeps its place. */
  function Put<K(==)>(t: LinkedMap<K>, k: K, v: bool): (r: LinkedMap<K>)
    requires t.WellFormed()
    ensures r.WellFormed()
    ensures k in r.entries && r.entries[k] == v
    ensures forall j :: j in t.entries ==> j in r.entries
    ensures forall j :: j in r.entries ==> j == k || j in t.entries
    ensures forall j :: j != k && j in t.entries ==> r.entries[j] == t.entries[j]
  {
    LinkedMap(if k in t.entries then t.order else t.order + [k], t.entries[k := v])
  }

  /** The values met when iterating over `keys`. */
  function ValuesAlong<K>(keys: seq<K>, m: map<K, bool>): (r: seq<bool>)
    requires forall k :: k in keys ==> k in m
    ensures |r| == |keys|
    ensures forall i :: 0 <= i < |keys| ==> r[i] == m[keys[i]]
  {
    if keys == [] then [] else [m[keys[0]]] + ValuesAlong(keys[1..], m)
  }

  /** values() of the map, in iteration order. */
  function Values<K(==)>(t: LinkedMap<K>): (r: seq<bool>)
    requires t.WellFormed()
    ensures |r| == |t.order|
    ensures forall i :: 0 <= i < |r| ==> r[i] == t.entries[t.order[i]]
  {
    ValuesAlong(t.order, t.entries)
  }

  /** The keys mapped to true. */
  function TrueKeys<K>(m: map<K, bool>): set<K> {
    set k | k in m && m[k]
  }

  /** The keys of `keys` mapped to true in `m`. */
  function TrueKeysAlong<K>(keys: seq<K>, m: map<K, bool>): set<K> {
    set k | k in keys && k in m && m[k]
  }

  /** Puts the pairs keys[i] := vals[i] one after the other, in list order. */
  function Record<K(==)>(t: LinkedMap<K>, keys: seq<K>, vals: seq<bool>): (r: LinkedMap<K>)
    requires t.WellFormed() && |keys| == |vals|
    ensures r.WellFormed()
    decreases |keys|
  {
    if keys == [] then t
    else
      var n := |keys| - 1;
      Put(Record(t, keys[..n], vals[..n]), keys[n], vals[n])
  }

  /** Recording a list one pair longer puts the extra pair after the others. */
  lemma RecordPrefix<K>(t: LinkedMap<K>, keys: seq<K>, vals: seq<bool>, i: nat)
    requires t.WellFormed() && |keys| == |vals| && i < |keys|
    ensures Record(t, keys[..i + 1], vals[..i + 1]) == Put(Record(t, keys[..i], vals[..i]), keys[i], vals[i])
  {
    assert keys[..i + 1][..i] == keys[..i];
    assert vals[..i + 1][..i] == vals[..i];
  }

  /** Recording keeps every earlier entry, changes none that is not recorded, and keeps the earlier order in front. */
  lemma {:induction false} RecordFrame<K>(t: LinkedMap<K>, keys: seq<K>, vals: seq<bool>)
    requires t.WellFormed() && |keys| == |vals|
    ensures forall k :: k in t.entries ==> k in Record(t, keys, vals).entries
    ensures forall k :: k in t.entries && k !in keys ==> Record(t, keys, vals).entries[k] == t.entries[k]
    ensures t.order <= Record(t, keys, vals).order
    decreases |keys|
  {
    if keys != [] {
      var n := |keys| - 1;
      RecordFrame(t, keys[..n], vals[..n]);
      var before := Record(t, keys[..n], vals[..n]);
      assert Record(t, keys, vals) == Put(before, keys[n], vals[n]);
      forall k | k in t.entries && k !in keys
        ensures Record(t, keys, vals).entries[k] == t.entries[k]
      {
        assert k !in keys[..n] by {
          forall j | 0 <= j < n ensures keys[..n][j] != k {
            assert keys[..n][j] == keys[j];
          }
        }
        assert k != keys[n];
      }
    }
  }

  /** Recording adds no key other than the recorded ones, whatever the map held before. */
  lemma {:induction false} RecordKeys<K>(t: LinkedMap<K>, keys: seq<K>, vals: seq<bool>)
    requires t.WellFormed() && |keys| == |vals|
    ensures forall k :: k in Record(t, keys, vals).entries ==> k in t.entries || k in keys
    decreases |keys|
  {
    if keys != [] {
      var n := |keys| - 1;
      RecordKeys(t, keys[..n], vals[..n]);
      forall k | k in Record(t, keys, vals).entries ensures k in t.entries || k in keys {
        if k != keys[n] && k !in t.entries {
          var j :| 0 <= j < n && keys[..n][j] == k;
          assert keys[j] == k;
        }
      }
    }
  }

  /** When the map and the recorded values are all true, so is the map afterwards. */
  lemma {:induction false} RecordAllTrue<K>(t: LinkedMap<K>, keys: seq<K>, vals: seq<bool>)
    requires t.WellFormed() && |keys| == |vals|
    requires forall k :: k in t.entries ==> t.entries[k]
    requires forall i :: 0 <= i < |vals| ==> vals[i]
    ensures forall k :: k in Record(t, keys, vals).entries ==> Record(t, keys, vals).entries[k]
    decreases |keys|
  {
    if keys != [] {
      var n := |keys| - 1;
      assert forall i :: 0 <= i < n ==> vals[..n][i] == vals[i];
      RecordAllTrue(t, keys[..n], vals[..n]);
    }
  }

  /** Every recorded key is present afterwards, and a repeated key keeps the value of its last occurrence. */
  lemma {:induction false} RecordLastWins<K>(t: LinkedMap<K>, keys: seq<K>, vals: seq<bool>, i: nat)
    requires t.WellFormed() && |keys| == |vals|
    requires i < |keys|
    requires forall j :: i < j < |keys| ==> keys[j] != keys[i]
    ensures keys[i] in Record(t, keys, vals).entries
    ensures Record(t, keys, vals).entries[keys[i]] == vals[i]
    decreases |keys|
  {
    var n := |keys| - 1;
    var before := Record(t, keys[..n], vals[..n]);
    assert Record(t, keys, vals) == Put(before, keys[n], vals[n]);
    if i < n {
      assert keys[..n][i] == keys[i];
      RecordLastWins(t, keys[..n], vals[..n], i);
      assert keys[n] != keys[i];
    }
  }

  /** Starting from an empty map, distinct keys are ordered as they were recorded. */
  lemma {:induction false} RecordFreshOrder<K>(keys: seq<K>, vals: seq<bool>)
    requires Distinct(keys) && |keys| == |vals|
    ensures Record(Empty(), keys, vals).order == keys
    decreases |keys|
  {
    if keys != [] {
      var n := |keys| - 1;
      var init := keys[..n];
      DistinctInit(keys);
      RecordFreshOrder(init, vals[..n]);
      var before := Record(Empty(), init, vals[..n]);
      assert keys[n] !in before.entries;
      assert Record(Empty(), keys, vals).order == before.order + [keys[n]];
      SplitLast(keys);
    }
  }

  /** Starting from an empty map with distinct keys, the map holds exactly the recorded pairs, in list order. */
  lemma RecordFresh<K>(keys: seq<K>, vals: seq<bool>)
    requires Distinct(keys) && |keys| == |vals|
    ensures Record(Empty(), keys, vals).order == keys
    ensures Values(Record(Empty(), keys, vals)) == vals
  {
    RecordFreshOrder(keys, vals);
    var r := Record(Empty(), keys, vals);
    forall i | 0 <= i < |keys| ensures Values(r)[i] == vals[i] {
      RecordLastWins(Empty(), keys, vals, i);
    }
  }

  lemma ValuesAlongCons<K>(keys: seq<K>, m: map<K, bool>)
    requires forall k :: k in keys ==> k in m
    requires keys != []
    ensures ValuesAlong(keys, m)[0] == m[keys[0]]
    ensures ValuesAlong(keys, m)[1..] == ValuesAlong(keys[1..], m)
  {
  }

  lemma SplitLast<K>(s: seq<K>)
    requires s != []
    ensures s == s[..|s| - 1] + [s[|s| - 1]]
  {
  }

  lemma DistinctInit<K>(keys: seq<K>)
    requires Distinct(keys) && keys != []
    ensures Distinct(keys[..|keys| - 1]) && keys[|keys| - 1] !in keys[..|keys| - 1]
  {
    var init := keys[..|keys| - 1];
    forall i, j | 0 <= i < j < |init| ensures init[i] != init[j] {
      assert init[i] == keys[i] && init[j] == keys[j];
    }
    forall j | 0 <= j < |init| ensures init[j] != keys[|keys| - 1] {
      assert init[j] == keys[j];
    }
  }

  lemma DistinctTail<K>(keys: seq<K>)
    requires Distinct(keys) && keys != []
    ensures Distinct(keys[1..]) && keys[0] !in keys[1..]
  {
    var rest := keys[1..];
    forall i, j | 0 <= i < j < |rest| ensures rest[i] != rest[j] {
      assert rest[i] == keys[i + 1] && rest[j] == keys[j + 1];
    }
    forall j | 0 <= j < |rest| ensures rest[j] != keys[0] {
      assert rest[j] == keys[j + 1];
    }
  }

  /** Membership in a sequence is membership in its head or its tail. */
  lemma InCons<K>(keys: seq<K>)
    requires keys != []
    ensures forall k :: k in keys ==> k == keys[0] || k in keys[1..]
    ensures forall k :: k in keys[1..] ==> k in keys
  {
    var rest := keys[1..];
    forall k | k in keys ensures k == keys[0] || k in rest {
      var j :| 0 <= j < |keys| && keys[j] == k;
      if j > 0 { assert rest[j - 1] == k; }
    }
    forall k | k in rest ensures k in keys {
      var j :| 0 <= j < |rest| && rest[j] == k;
      assert keys[j + 1] == k;
    }
  }
}
