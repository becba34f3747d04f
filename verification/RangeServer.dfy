/**
  One range server: its part of the store and the statistics it keeps about each of its slices.
 */
module RangeServer {
  import opened KeySlices

  type Value = seq<int>
  type Store = map<Key, Value>

  datatype Record = Record(key: Key, value: Value)

  datatype Stat = Stat(min: real, max: real, num: nat)
  type Stats = map<int, Stat>

  /** The number by which a key counts in the statistics. */
  function KeyStat(key: Key): real {
    match key
    case IntKey(value) => value as real
    case StringKey(chars) => StrNum(Text(chars))
  }

  /** A record with an empty value reads as absent. */
  predicate Exists(store: Store, key: Key) {
    key in store && store[key] != []
  }

  function Lookup(store: Store, key: Key): Value {
    if key in store then store[key] else []
  }

  function NewValue(append: bool, store: Store, r: Record): Value {
    if append && Exists(store, r.key) then store[r.key] + r.value else r.value
  }

  function AfterPut(append: bool, store: Store, r: Record): Store {
    store[r.key := NewValue(append, store, r)]
  }

  /** Single puts, one after the other. */
  function AfterPuts(append: bool, store: Store, rs: seq<Record>): Store {
    if rs == [] then store else AfterPut(append, AfterPuts(append, store, rs[..|rs| - 1]), rs[|rs| - 1])
  }

  /** A batch of writes, one after the other. */
  function AfterBatch(store: Store, rs: seq<Record>): Store {
    if rs == [] then store else AfterBatch(store, rs[..|rs| - 1])[rs[|rs| - 1].key := rs[|rs| - 1].value]
  }

  /** The records of a bulk put with the values to be written, all worked out before any is written. */
  function NewRecords(append: bool, store: Store, rs: seq<Record>): (r: seq<Record>)
    ensures |r| == |rs|
  {
    seq(|rs|, i requires 0 <= i < |rs| => Record(rs[i].key, NewValue(append, store, rs[i])))
  }

  function AfterBulkPut(append: bool, store: Store, rs: seq<Record>): Store {
    AfterBatch(store, NewRecords(append, store, rs))
  }

  function AfterDeletes(store: Store, keys: seq<Key>): Store {
    if keys == [] then store else AfterDeletes(store, keys[..|keys| - 1]) - {keys[|keys| - 1]}
  }

  function UpdateStat(stats: Stats, key: Key, recs: nat): Stats
    requires recs > 0
  {
    var slice, x := GetSliceNum(key, recs), KeyStat(key);
    stats[slice :=
      if slice in stats then
        var os := stats[slice];
        Stat(if os.min > x then x else os.min, if os.max < x then x else os.max, os.num + 1)
      else Stat(x, x, 1)]
  }

  /** Updates for the new keys of a list of records, in order. */
  function UpdateStats(stats: Stats, store: Store, rs: seq<Record>, recs: nat): Stats
    requires recs > 0
  {
    if rs == [] then stats
    else
      var before, key := UpdateStats(stats, store, rs[..|rs| - 1], recs), rs[|rs| - 1].key;
      if Exists(store, key) then before else UpdateStat(before, key, recs)
  }

  class Server {
    const append: bool
    const recs: nat
    var store: Store
    var stats: Stats

    constructor (append: bool, recs: nat)
      ensures this.append == append && this.recs == recs && store == map[] && stats == map[]
    {
      this.append, this.recs := append, recs;
      store, stats := map[], map[];
    }

    method UpdateAllStats(key: Key)
      requires recs > 0
      modifies this`stats
      ensures stats == UpdateStat(old(stats), key, recs)
      ensures var slice := GetSliceNum(key, recs);
              var x := match key case IntKey(value) => value as real case StringKey(chars) => StrNum(Text(chars));
              stats == old(stats)[slice :=
                if slice !in old(stats) then Stat(x, x, 1)
                else Stat(if x < old(stats)[slice].min then x else old(stats)[slice].min,
                          if x > old(stats)[slice].max then x else old(stats)[slice].max,
                          old(stats)[slice].num + 1)]
    {
      var sliceNum := GetSliceNum(key, recs);
      var min, max, num := KeyStat(key), KeyStat(key), 1;
      if sliceNum in stats {
        var os := stats[sliceNum];
        if !(os.min > min) {
          min := os.min;
        }
        if !(os.max < max) {
          max := os.max;
        }
        num := os.num + 1;
      }
      stats := stats[sliceNum := Stat(min, max, num)];
    }

    method Put(r: Record)
      requires recs > 0
      modifies this
      ensures store == AfterPut(append, old(store), r)
      ensures stats == UpdateStats(old(stats), old(store), [r], recs)
      ensures store == old(store)[r.key := if append && r.key in old(store) then old(store)[r.key] + r.value else r.value]
      ensures r.key in old(store) && old(store)[r.key] != [] ==> stats == old(stats)
    {
      assert [] + r.value == r.value;
      var exists' := Exists(store, r.key);
      var newValue := if exists' && append then store[r.key] + r.value else r.value;
      store := store[r.key := newValue];
      if !exists' {
        UpdateAllStats(r.key);
      }
      assert [r][..0] == [] && UpdateStats(old(stats), old(store), [], recs) == old(stats);
    }

    method BulkPut(rs: seq<Record>)
      requires recs > 0
      modifies this
      ensures store == AfterBulkPut(append, old(store), rs)
      ensures stats == UpdateStats(old(stats), old(store), rs, recs)
    {
      var exists' := new bool[|rs|];
      var newRecords: seq<Record> := [];
      for i := 0 to |rs|
        modifies exists'
        invariant forall j :: 0 <= j < i ==> exists'[j] == Exists(store, rs[j].key)
        invariant newRecords == NewRecords(append, store, rs)[..i]
      {
        exists'[i] := Exists(store, rs[i].key);
        var newValue := rs[i].value;
        if exists'[i] && append {
          newValue := store[rs[i].key] + rs[i].value;
        }
        newRecords := newRecords + [Record(rs[i].key, newValue)];
      }
      assert newRecords == NewRecords(append, store, rs);
      BatchPut(newRecords);
      for i := 0 to |rs|
        modifies this`stats
        invariant stats == UpdateStats(old(stats), old(store), rs[..i], recs)
      {
        assert rs[..i + 1][..i] == rs[..i];
        if !exists'[i] {
          UpdateAllStats(rs[i].key);
        }
      }
      assert rs[..|rs|] == rs;
    }

    method BatchPut(rs: seq<Record>)
      modifies this`store
      ensures store == AfterBatch(old(store), rs)
    {
      for i := 0 to |rs|
        invariant store == AfterBatch(old(store), rs[..i])
      {
        assert rs[..i + 1][..i] == rs[..i];
        store := store[rs[i].key := rs[i].value];
      }
      assert rs[..|rs|] == rs;
    }

    method Delete(key: Key)
      modifies this`store
      ensures store == old(store) - {key}
    {
      store := store - {key};
    }

    method BulkDelete(keys: seq<Key>)
      modifies this`store
      ensures store == AfterDeletes(old(store), keys)
    {
      for i := 0 to |keys|
        invariant store == AfterDeletes(old(store), keys[..i])
      {
        assert keys[..i + 1][..i] == keys[..i];
        store := store - {keys[i]};
      }
      assert keys[..|keys|] == keys;
    }

    /** The values of several keys, in order; an absent one reads as empty. */
    method BulkGet(keys: seq<Key>) returns (values: seq<Value>)
      ensures values == seq(|keys|, i requires 0 <= i < |keys| reads this => Lookup(store, keys[i]))
      ensures |values| == |keys| && forall i :: 0 <= i < |keys| ==> values[i] == if keys[i] in store then store[keys[i]] else []
    {
      values := [];
      for i := 0 to |keys|
        invariant |values| == i && forall j :: 0 <= j < i ==> values[j] == Lookup(store, keys[j])
      {
        var value := [];
        if keys[i] in store {
          value := store[keys[i]];
        }
        values := values + [value];
      }
    }
  }

  // ---------------------------------------------------------------- bulk puts against single puts

  /** The records of a list that have a key, in order. */
  function WithKey(rs: seq<Record>, key: Key): seq<Value> {
    if rs == [] then []
    else WithKey(rs[..|rs| - 1], key) + (if rs[|rs| - 1].key == key then [rs[|rs| - 1].value] else [])
  }

  /** A list of values put under one key, one after the other. */
  function Appended(append: bool, old': Value, values: seq<Value>): Value {
    if values == [] then old'
    else
      var before := Appended(append, old', values[..|values| - 1]);
      if append then before + values[|values| - 1] else values[|values| - 1]
  }

  lemma AppendedSnoc(append: bool, old': Value, values: seq<Value>, v: Value)
    ensures Appended(append, old', values + [v]) == if append then Appended(append, old', values) + v else v
  {
    assert (values + [v])[..|values|] == values;
  }

  lemma OnePut(append: bool, store: Store, r: Record, key: Key)
    ensures key in AfterPut(append, store, r) <==> key in store || r.key == key
    ensures Lookup(AfterPut(append, store, r), key)
            == if r.key != key then Lookup(store, key) else if append then Lookup(store, key) + r.value else r.value
  {
    assert [] + r.value == r.value;
  }

  /** Single puts, seen from one key. */
  lemma {:induction false} PutsPerKey(append: bool, store: Store, rs: seq<Record>, key: Key)
    ensures var vs := WithKey(rs, key);
            && (key in AfterPuts(append, store, rs) <==> key in store || vs != [])
            && Lookup(AfterPuts(append, store, rs), key) == Appended(append, Lookup(store, key), vs)
  {
    hide AfterPut, Lookup, Appended;
    if rs != [] {
      var last := |rs| - 1;
      PutsPerKey(append, store, rs[..last], key);
      OnePut(append, AfterPuts(append, store, rs[..last]), rs[last], key);
      AppendedSnoc(append, Lookup(store, key), WithKey(rs[..last], key), rs[last].value);
      if rs[last].key != key {
        assert WithKey(rs, key) == WithKey(rs[..last], key);
      }
    } else {
      NothingAppended(append, Lookup(store, key));
    }
  }

  lemma NothingAppended(append: bool, old': Value)
    ensures Appended(append, old', []) == old'
  {
  }

  /** A batch, seen from one key: the last record with it decides. */
  lemma {:induction false} BatchPerKey(store: Store, rs: seq<Record>, key: Key)
    ensures var vs := WithKey(rs, key);
            && (key in AfterBatch(store, rs) <==> key in store || vs != [])
            && Lookup(AfterBatch(store, rs), key) == if vs == [] then Lookup(store, key) else vs[|vs| - 1]
  {
    if rs != [] {
      var last := |rs| - 1;
      BatchPerKey(store, rs[..last], key);
      if rs[last].key != key {
        assert WithKey(rs, key) == WithKey(rs[..last], key);
      }
    }
  }

  /** Every new value of a key is worked out against the store before the batch. */
  lemma {:induction false} NewWithKey(append: bool, store: Store, rs: seq<Record>, key: Key)
    ensures var vs, ns := WithKey(rs, key), WithKey(NewRecords(append, store, rs), key);
            |ns| == |vs| && forall i :: 0 <= i < |vs| ==> ns[i] == if append then Lookup(store, key) + vs[i] else vs[i]
  {
    if rs != [] {
      var last := |rs| - 1;
      NewWithKey(append, store, rs[..last], key);
      assert NewRecords(append, store, rs)[..last] == NewRecords(append, store, rs[..last]);
      assert [] + rs[last].value == rs[last].value;
    }
  }

  lemma BulkPerKey(append: bool, store: Store, rs: seq<Record>, key: Key)
    ensures var vs := WithKey(rs, key);
            && (key in AfterBulkPut(append, store, rs) <==> key in store || vs != [])
            && Lookup(AfterBulkPut(append, store, rs), key)
               == if vs == [] then Lookup(store, key) else Appended(append, Lookup(store, key), [vs[|vs| - 1]])
  {
    hide AfterBatch, WithKey, Lookup, NewRecords;
    var vs := WithKey(rs, key);
    BatchPerKey(store, NewRecords(append, store, rs), key);
    NewWithKey(append, store, rs, key);
    if vs != [] {
      AppendedSnoc(append, Lookup(store, key), [], vs[|vs| - 1]);
      assert [] + [vs[|vs| - 1]] == [vs[|vs| - 1]];
    }
  }

  lemma {:induction false} LastWithKey(rs: seq<Record>, i: nat)
    requires i < |rs| && forall j :: i < j < |rs| ==> rs[j].key != rs[i].key
    ensures var vs := WithKey(rs, rs[i].key); vs != [] && vs[|vs| - 1] == rs[i].value
  {
    if i < |rs| - 1 {
      LastWithKey(rs[..|rs| - 1], i);
    }
  }

  lemma {:induction false} NoneWithKey(rs: seq<Record>, key: Key)
    requires forall i :: 0 <= i < |rs| ==> rs[i].key != key
    ensures WithKey(rs, key) == []
  {
    if rs != [] {
      NoneWithKey(rs[..|rs| - 1], key);
    }
  }

  /** Without appending, a bulk put is the same puts in order. */
  lemma BulkPutIsPuts(store: Store, rs: seq<Record>)
    ensures AfterBulkPut(false, store, rs) == AfterPuts(false, store, rs)
  {
    forall key
      ensures key in AfterBulkPut(false, store, rs) <==> key in AfterPuts(false, store, rs)
      ensures Lookup(AfterBulkPut(false, store, rs), key) == Lookup(AfterPuts(false, store, rs), key)
    {
      BulkPerKey(false, store, rs, key);
      PutsPerKey(false, store, rs, key);
    }
    SameStore(AfterBulkPut(false, store, rs), AfterPuts(false, store, rs));
  }

  lemma SameStore(a: Store, b: Store)
    requires forall key :: key in a <==> key in b
    requires forall key :: Lookup(a, key) == Lookup(b, key)
    ensures a == b
  {
    assert forall key :: key in a ==> a[key] == Lookup(a, key) && b[key] == Lookup(b, key);
  }

  lemma {:induction false} DeletesPerKey(store: Store, keys: seq<Key>, key: Key)
    ensures key in AfterDeletes(store, keys) <==> key in store && key !in keys
    ensures key in AfterDeletes(store, keys) ==> AfterDeletes(store, keys)[key] == store[key]
  {
    if keys != [] {
      DeletesPerKey(store, keys[..|keys| - 1], key);
    }
  }

  ghost predicate NoRepeats(rs: seq<Record>) {
    forall i, j :: 0 <= i < j < |rs| ==> rs[i].key != rs[j].key
  }

  ghost predicate NonEmptyValues(rs: seq<Record>) {
    forall i :: 0 <= i < |rs| ==> rs[i].value != []
  }

  lemma {:induction false} WithKeyNonEmpty(rs: seq<Record>, key: Key)
    requires NonEmptyValues(rs)
    ensures forall i :: 0 <= i < |WithKey(rs, key)| ==> WithKey(rs, key)[i] != []
  {
    if rs != [] {
      WithKeyNonEmpty(rs[..|rs| - 1], key);
    }
  }

  /** Values appended one after the other add nothing exactly when they are all empty. */
  lemma {:induction false} AppendedGrows(old': Value, values: seq<Value>)
    ensures |Appended(true, old', values)| >= |old'|
    ensures Appended(true, old', values) == old' <==> forall i :: 0 <= i < |values| ==> values[i] == []
  {
    if values != [] {
      var init, v := values[..|values| - 1], values[|values| - 1];
      AppendedGrows(old', init);
      var before := Appended(true, old', init);
      assert |before + v| == |before| + |v|;
      assert v == [] ==> before + v == before;
      assert (forall i :: 0 <= i < |values| ==> values[i] == []) <==> v == [] && forall i :: 0 <= i < |init| ==> init[i] == [];
    }
  }

  lemma {:induction false} EmptyWithKey(rs: seq<Record>, key: Key)
    ensures (forall t :: 0 <= t < |WithKey(rs, key)| ==> WithKey(rs, key)[t] == []) <==>
            forall i :: 0 <= i < |rs| && rs[i].key == key ==> rs[i].value == []
  {
    if rs != [] {
      var last := |rs| - 1;
      EmptyWithKey(rs[..last], key);
      var vs := WithKey(rs[..last], key);
      if rs[last].key == key {
        assert WithKey(rs, key)[|vs|] == rs[last].value;
        assert forall t :: 0 <= t < |vs| ==> WithKey(rs, key)[t] == vs[t];
      } else {
        assert WithKey(rs, key) == vs;
      }
      assert forall i :: 0 <= i < last ==> rs[..last][i] == rs[i];
    }
  }

  /** No value of a key is put before another value of the same key, except empty ones. */
  ghost predicate LastCounts(rs: seq<Record>, key: Key) {
    forall i, j :: 0 <= i < j < |rs| && rs[i].key == key == rs[j].key ==> rs[i].value == []
  }

  lemma {:induction false} EarlierWithKey(rs: seq<Record>, key: Key)
    ensures (forall t :: 0 <= t < |WithKey(rs, key)| - 1 ==> WithKey(rs, key)[t] == []) <==> LastCounts(rs, key)
  {
    if rs != [] {
      var last := |rs| - 1;
      var vs := WithKey(rs[..last], key);
      if rs[last].key == key {
        EmptyWithKey(rs[..last], key);
        assert WithKey(rs, key)[..|vs|] == vs;
        assert forall t :: 0 <= t < |vs| ==> WithKey(rs, key)[t] == vs[t];
        if forall i :: 0 <= i < last && rs[i].key == key ==> rs[i].value == [] {
          assert forall i :: 0 <= i < last ==> rs[..last][i] == rs[i];
        } else {
          var i :| 0 <= i < last && rs[i].key == key && rs[i].value != [];
          assert rs[..last][i] == rs[i] && rs[i].key == key == rs[last].key;
        }
      } else {
        EarlierWithKey(rs[..last], key);
        assert WithKey(rs, key) == vs;
        assert LastCounts(rs, key) <==> LastCounts(rs[..last], key);
      }
    }
  }

  lemma SameSuffix(a: Value, b: Value, v: Value)
    ensures a + v == b + v <==> a == b
  {
    if a + v == b + v {
      assert |a| == |b|;
      assert a == (a + v)[..|a|] == (b + v)[..|b|] == b;
    }
  }

  lemma OneKeyAppended(store: Store, rs: seq<Record>, key: Key)
    ensures Lookup(AfterBulkPut(true, store, rs), key) == Lookup(AfterPuts(true, store, rs), key) <==> LastCounts(rs, key)
  {
    hide AfterBulkPut, AfterPuts, WithKey, LastCounts, Lookup, Appended;
    BulkPerKey(true, store, rs, key);
    PutsPerKey(true, store, rs, key);
    EarlierWithKey(rs, key);
    var vs, old' := WithKey(rs, key), Lookup(store, key);
    NothingAppended(true, old');
    if vs != [] {
      var init, v := vs[..|vs| - 1], vs[|vs| - 1];
      AppendedGrows(old', init);
      AppendedSnoc(true, old', [], v);
      AppendedSnoc(true, old', init, v);
      assert vs == init + [v] && [v] == [] + [v];
      SameSuffix(Appended(true, old', init), old', v);
    }
  }

  /** With appending, a bulk put is the same puts in order exactly when no value that is not empty comes before another
      value of the same key: a repeated key keeps only its last value behind what was stored before. */
  lemma AppendingBulkPutIsPuts(store: Store, rs: seq<Record>)
    ensures AfterBulkPut(true, store, rs) == AfterPuts(true, store, rs) <==>
            forall i, j :: 0 <= i < j < |rs| && rs[i].key == rs[j].key ==> rs[i].value == []
  {
    hide AfterBulkPut, AfterPuts, Lookup;
    if forall i, j :: 0 <= i < j < |rs| && rs[i].key == rs[j].key ==> rs[i].value == [] {
      forall key
        ensures key in AfterBulkPut(true, store, rs) <==> key in AfterPuts(true, store, rs)
        ensures Lookup(AfterBulkPut(true, store, rs), key) == Lookup(AfterPuts(true, store, rs), key)
      {
        BulkPerKey(true, store, rs, key);
        PutsPerKey(true, store, rs, key);
        OneKeyAppended(store, rs, key);
      }
      SameStore(AfterBulkPut(true, store, rs), AfterPuts(true, store, rs));
    } else {
      var i, j :| 0 <= i < j < |rs| && rs[i].key == rs[j].key && rs[i].value != [];
      assert !LastCounts(rs, rs[i].key);
      OneKeyAppended(store, rs, rs[i].key);
    }
  }
}
