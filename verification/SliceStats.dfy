/**
  The statistics of the slices: when they are exact, what remains of them under deletes, the
  slice they choose for a cursor operation, and writing them to the database and back.
 */
module SliceStats {
  import opened Options
  import opened Division
  import opened Partitioner
  import opened KeySlices
  import opened RangeServer

  // ---------------------------------------------------------------- exactness

  /** The keys of a store that read as present. */
  ghost function Present(store: Store): set<Key> {
    set k | k in store && store[k] != []
  }

  ghost function InSlice(keys: set<Key>, slice: int, recs: nat): set<Key>
    requires recs > 0
  {
    set k | k in keys && GetSliceNum(k, recs) == slice
  }

  /** One entry is exact: its bounds are attained and bound every key of the slice, and its count is right. */
  ghost predicate ExactEntry(st: Stat, keys: set<Key>) {
    && (exists k :: k in keys && KeyStat(k) == st.min)
    && (exists k :: k in keys && KeyStat(k) == st.max)
    && (forall k :: k in keys ==> st.min <= KeyStat(k) <= st.max)
    && st.num == |keys|
  }

  /** A slice has an entry if and only if it holds a key, and every entry is exact. */
  ghost predicate Exact(stats: Stats, keys: set<Key>, recs: nat)
    requires recs > 0
  {
    && (forall s {:trigger s in stats} :: s in stats <==> InSlice(keys, s, recs) != {})
    && (forall s {:trigger stats[s]} :: s in stats ==> ExactEntry(stats[s], InSlice(keys, s, recs)))
  }

  lemma InSliceAdd(keys: set<Key>, key: Key, slice: int, recs: nat)
    requires recs > 0
    ensures InSlice(keys + {key}, slice, recs)
            == InSlice(keys, slice, recs) + (if GetSliceNum(key, recs) == slice then {key} else {})
  {
  }

  lemma EntryGrows(st: Stat, keys: set<Key>, key: Key)
    requires ExactEntry(st, keys) && key !in keys
    ensures var x := KeyStat(key);
            ExactEntry(Stat(if st.min > x then x else st.min, if st.max < x then x else st.max, st.num + 1), keys + {key})
  {
    var k :| k in keys && KeyStat(k) == st.min;
    var l :| l in keys && KeyStat(l) == st.max;
    assert k in keys + {key} && l in keys + {key} && key in keys + {key};
  }

  /** Counting a key in that was not there keeps the statistics exact. */
  lemma UpdateKeepsExact(stats: Stats, keys: set<Key>, key: Key, recs: nat)
    requires recs > 0 && Exact(stats, keys, recs) && key !in keys
    ensures Exact(UpdateStat(stats, key, recs), keys + {key}, recs)
  {
    hide ExactEntry, KeyStat, InSlice;
    var after := UpdateStat(stats, key, recs);
    forall s
      ensures s in after <==> InSlice(keys + {key}, s, recs) != {}
      ensures s in after ==> ExactEntry(after[s], InSlice(keys + {key}, s, recs))
    {
      var before := InSlice(keys, s, recs);
      InSliceAdd(keys, key, s, recs);
      NotInSlice(keys, key, s, recs);
      if s == GetSliceNum(key, recs) {
        EntryUpdated(stats, before, key, recs);
      } else {
        assert before + {} == before;
      }
    }
  }

  lemma EntryUpdated(stats: Stats, before: set<Key>, key: Key, recs: nat)
    requires recs > 0 && key !in before
    requires var s := GetSliceNum(key, recs); (s in stats <==> before != {}) && (s in stats ==> ExactEntry(stats[s], before))
    ensures var s, after := GetSliceNum(key, recs), UpdateStat(stats, key, recs);
            s in after && ExactEntry(after[s], before + {key}) && before + {key} != {}
  {
    hide ExactEntry, KeyStat, GetSliceNum;
    var s := GetSliceNum(key, recs);
    assert key in before + {key};
    if s in stats {
      EntryGrows(stats[s], before, key);
    } else {
      FirstEntry(key);
      assert {} + {key} == {key};
    }
  }

  lemma NotInSlice(keys: set<Key>, key: Key, slice: int, recs: nat)
    requires recs > 0 && key !in keys
    ensures key !in InSlice(keys, slice, recs)
  {
  }

  lemma FirstEntry(key: Key)
    ensures ExactEntry(Stat(KeyStat(key), KeyStat(key), 1), {key})
  {
    assert key in {key};
  }

  // ---------------------------------------------------------------- puts

  /** The keys of a list of records that a store does not have yet, in order. */
  ghost function NewKeys(store: Store, rs: seq<Record>): seq<Key> {
    if rs == [] then []
    else NewKeys(store, rs[..|rs| - 1]) + (if Exists(store, rs[|rs| - 1].key) then [] else [rs[|rs| - 1].key])
  }

  ghost function UpdateAll(stats: Stats, keys: seq<Key>, recs: nat): Stats
    requires recs > 0
  {
    if keys == [] then stats else UpdateStat(UpdateAll(stats, keys[..|keys| - 1], recs), keys[|keys| - 1], recs)
  }

  lemma {:induction false} UpdatesAreForNewKeys(stats: Stats, store: Store, rs: seq<Record>, recs: nat)
    requires recs > 0
    ensures UpdateStats(stats, store, rs, recs) == UpdateAll(stats, NewKeys(store, rs), recs)
  {
    if rs != [] {
      var last := |rs| - 1;
      UpdatesAreForNewKeys(stats, store, rs[..last], recs);
      var before := NewKeys(store, rs[..last]);
      if Exists(store, rs[last].key) {
        assert NewKeys(store, rs) == before;
      } else {
        assert NewKeys(store, rs)[..|before|] == before;
      }
    }
  }

  ghost predicate Distinct(keys: seq<Key>) {
    forall i, j :: 0 <= i < j < |keys| ==> keys[i] != keys[j]
  }

  ghost function Elements(keys: seq<Key>): set<Key> {
    set k | k in keys
  }

  lemma {:induction false} UpdatesKeepExact(stats: Stats, keys: set<Key>, new': seq<Key>, recs: nat)
    requires recs > 0 && Exact(stats, keys, recs) && Distinct(new') && Elements(new') !! keys
    ensures Exact(UpdateAll(stats, new', recs), keys + Elements(new'), recs)
  {
    hide Exact;
    if new' == [] {
      assert keys + Elements([]) == keys;
    } else {
      var init, key := new'[..|new'| - 1], new'[|new'| - 1];
      assert forall k :: k in init ==> k in new';
      UpdatesKeepExact(stats, keys, init, recs);
      assert key !in init && Distinct(init);
      assert key in new';
      UpdateKeepsExact(UpdateAll(stats, init, recs), keys + Elements(init), key, recs);
      assert new' == init + [key];
      assert keys + Elements(new') == keys + Elements(init) + {key};
    }
  }

  lemma {:induction false} NewKeysHolds(store: Store, rs: seq<Record>, key: Key)
    ensures key in NewKeys(store, rs) <==> !Exists(store, key) && WithKey(rs, key) != []
  {
    if rs != [] {
      NewKeysHolds(store, rs[..|rs| - 1], key);
    }
  }

  lemma {:induction false} InWithKey(rs: seq<Record>, key: Key)
    ensures WithKey(rs, key) != [] <==> exists i :: 0 <= i < |rs| && rs[i].key == key
  {
    if rs != [] {
      var last := |rs| - 1;
      InWithKey(rs[..last], key);
      assert forall i :: 0 <= i < last ==> rs[..last][i] == rs[i];
      if i :| 0 <= i < |rs| && rs[i].key == key {
        assert i < last ==> rs[..last][i].key == key;
      }
      if i :| 0 <= i < last && rs[..last][i].key == key {
        assert rs[i].key == key;
      }
    }
  }

  /** What a bulk put must meet to be counted right: a key that it repeats was present before, and every key of it is
      present afterwards. */
  ghost predicate CountsRight(append: bool, store: Store, rs: seq<Record>) {
    && NoNewRepeat(store, rs)
    && forall i :: 0 <= i < |rs| ==> Exists(AfterBulkPut(append, store, rs), rs[i].key)
  }

  ghost predicate NoNewRepeat(store: Store, rs: seq<Record>) {
    forall i, j :: 0 <= i < j < |rs| && rs[i].key == rs[j].key ==> Exists(store, rs[i].key)
  }

  lemma NoNewRepeatSnoc(store: Store, rs: seq<Record>)
    requires rs != []
    ensures var init, key := rs[..|rs| - 1], rs[|rs| - 1].key;
            NoNewRepeat(store, rs) <==>
              NoNewRepeat(store, init) && (Exists(store, key) || forall i :: 0 <= i < |init| ==> init[i].key != key)
  {
    hide Exists;
    var last := |rs| - 1;
    var init, key := rs[..last], rs[last].key;
    assert forall i :: 0 <= i < last ==> init[i] == rs[i];
    if NoNewRepeat(store, rs) && !Exists(store, key) {
      forall i | 0 <= i < last
        ensures init[i].key != key
      {
        assert init[i] == rs[i];
      }
    }
  }

  lemma {:induction false} NewKeysDistinct(store: Store, rs: seq<Record>)
    ensures Distinct(NewKeys(store, rs)) <==> NoNewRepeat(store, rs)
  {
    if rs != [] {
      NewKeysDistinct(store, rs[..|rs| - 1]);
      NewKeysSnoc(store, rs);
      NoNewRepeatSnoc(store, rs);
    }
    hide Exists, NewKeys;
  }

  lemma NewKeysSnoc(store: Store, rs: seq<Record>)
    requires rs != []
    ensures var init, key := rs[..|rs| - 1], rs[|rs| - 1].key;
            Distinct(NewKeys(store, rs)) <==>
              Distinct(NewKeys(store, init)) && (Exists(store, key) || forall i :: 0 <= i < |init| ==> init[i].key != key)
  {
    hide Distinct, Exists, WithKey;
    var init, key := rs[..|rs| - 1], rs[|rs| - 1].key;
    NewKeysHolds(store, init, key);
    InWithKey(init, key);
    DistinctSnoc(NewKeys(store, init), key);
    assert NewKeys(store, init) + [] == NewKeys(store, init);
  }

  lemma DistinctSnoc(keys: seq<Key>, key: Key)
    ensures Distinct(keys + [key]) <==> Distinct(keys) && key !in keys
  {
    var all := keys + [key];
    assert forall i :: 0 <= i < |keys| ==> all[i] == keys[i];
    assert all[|keys|] == key;
    if Distinct(all) {
      forall i | 0 <= i < |keys|
        ensures keys[i] != key
      {
        assert all[i] != all[|keys|];
      }
    }
  }

  /** A bulk put makes no key present that was not before and is not counted in; and it makes all of them present exactly
      when every key of it is present afterwards. */
  lemma PresentAfterBulkPut(append: bool, store: Store, rs: seq<Record>)
    ensures Present(AfterBulkPut(append, store, rs)) <= Present(store) + Elements(NewKeys(store, rs))
    ensures Present(store) + Elements(NewKeys(store, rs)) <= Present(AfterBulkPut(append, store, rs)) <==>
            forall i :: 0 <= i < |rs| ==> Exists(AfterBulkPut(append, store, rs), rs[i].key)
  {
    hide AfterBulkPut, Lookup, WithKey, NewKeys;
    var after, whole := AfterBulkPut(append, store, rs), Present(store) + Elements(NewKeys(store, rs));
    forall key
      ensures key in Present(after) ==> key in whole
      ensures key in whole && key !in Present(after) ==> exists i :: 0 <= i < |rs| && rs[i].key == key
      ensures forall i :: 0 <= i < |rs| && rs[i].key == key ==> key in whole
    {
      SamePresence(append, store, rs, key);
      NewKeysHolds(store, rs, key);
      InWithKey(rs, key);
    }
    if forall i :: 0 <= i < |rs| ==> Exists(after, rs[i].key) {
    } else {
      var i :| 0 <= i < |rs| && !Exists(after, rs[i].key);
      assert rs[i].key in whole && rs[i].key !in Present(after);
    }
  }

  lemma SamePresence(append: bool, store: Store, rs: seq<Record>, key: Key)
    ensures WithKey(rs, key) == [] ==> (Exists(AfterBulkPut(append, store, rs), key) <==> Exists(store, key))
  {
    BulkPerKey(append, store, rs, key);
  }

  // ---------------------------------------------------------------- repeated new keys

  ghost function Count(keys: seq<Key>, slice: int, recs: nat): nat
    requires recs > 0
  {
    if keys == [] then 0
    else Count(keys[..|keys| - 1], slice, recs) + (if GetSliceNum(keys[|keys| - 1], recs) == slice then 1 else 0)
  }

  function NumOf(stats: Stats, slice: int): nat {
    if slice in stats then stats[slice].num else 0
  }

  lemma {:induction false} UpdatesCount(stats: Stats, new': seq<Key>, slice: int, recs: nat)
    requires recs > 0
    ensures NumOf(UpdateAll(stats, new', recs), slice) == NumOf(stats, slice) + Count(new', slice, recs)
  {
    if new' != [] {
      UpdatesCount(stats, new'[..|new'| - 1], slice, recs);
    }
  }

  lemma ElementsSnoc(keys: set<Key>, init: seq<Key>, key: Key)
    ensures keys + Elements(init + [key]) == keys + Elements(init) + {key}
    ensures key in init ==> keys + Elements(init + [key]) == keys + Elements(init)
  {
    assert forall k :: k in init + [key] <==> k in init || k == key;
  }

  lemma SliceGrows(keys: set<Key>, key: Key, slice: int, recs: nat)
    requires recs > 0
    ensures |InSlice(keys + {key}, slice, recs)| <= |InSlice(keys, slice, recs)| + (if GetSliceNum(key, recs) == slice then 1 else 0)
  {
    InSliceAdd(keys, key, slice, recs);
    hide InSlice;
    var before := InSlice(keys, slice, recs);
    assert before + {} == before;
    assert |before + {key}| <= |before| + 1;
  }

  /** No slice holds more keys than were there and were counted in. */
  lemma {:induction false} SlicesGrow(keys: set<Key>, new': seq<Key>, slice: int, recs: nat)
    requires recs > 0
    ensures |InSlice(keys + Elements(new'), slice, recs)| <= |InSlice(keys, slice, recs)| + Count(new', slice, recs)
  {
    hide InSlice, Elements;
    if new' == [] {
      NoElements(keys);
    } else {
      var init, key := new'[..|new'| - 1], new'[|new'| - 1];
      assert new' == init + [key];
      SlicesGrow(keys, init, slice, recs);
      ElementsSnoc(keys, init, key);
      SliceGrows(keys + Elements(init), key, slice, recs);
    }
  }

  lemma NoElements(keys: set<Key>)
    ensures keys + Elements([]) == keys
  {
  }

  /** And it holds fewer when a key of it was counted twice. */
  lemma {:induction false} RepeatedKeyCounts(keys: set<Key>, new': seq<Key>, i: nat, j: nat, recs: nat)
    requires recs > 0 && i < j < |new'| && new'[i] == new'[j]
    ensures var slice := GetSliceNum(new'[i], recs);
            |InSlice(keys + Elements(new'), slice, recs)| < |InSlice(keys, slice, recs)| + Count(new', slice, recs)
  {
    hide InSlice, Elements;
    var slice := GetSliceNum(new'[i], recs);
    var init, key := new'[..|new'| - 1], new'[|new'| - 1];
    assert new' == init + [key];
    ElementsSnoc(keys, init, key);
    if j < |init| {
      assert init[i] == init[j];
      RepeatedKeyCounts(keys, init, i, j, recs);
      SliceGrows(keys + Elements(init), key, slice, recs);
    } else {
      assert init[i] == key;
      SlicesGrow(keys, init, slice, recs);
    }
  }

  // ---------------------------------------------------------------- drift

  /** Some slice counts more keys than it holds. */
  ghost predicate Drifted(stats: Stats, keys: set<Key>, recs: nat)
    requires recs > 0
  {
    exists s {:trigger InSlice(keys, s, recs)} :: |InSlice(keys, s, recs)| < NumOf(stats, s)
  }

  lemma DriftedIsInexact(stats: Stats, keys: set<Key>, recs: nat)
    requires recs > 0 && Drifted(stats, keys, recs)
    ensures !Exact(stats, keys, recs)
  {
    var s :| |InSlice(keys, s, recs)| < NumOf(stats, s);
    assert s in stats;
  }

  /** Fewer keys under the same statistics: nothing drifts exactly when no key is missing. */
  lemma FewerDrift(stats: Stats, keys: set<Key>, fewer: set<Key>, recs: nat)
    requires recs > 0 && fewer <= keys
    requires forall s {:trigger InSlice(keys, s, recs)} :: |InSlice(keys, s, recs)| <= NumOf(stats, s)
    ensures fewer != keys ==> Drifted(stats, fewer, recs)
  {
    if fewer != keys {
      var k :| k in keys && k !in fewer;
      var s := GetSliceNum(k, recs);
      hide GetSliceNum;
      assert k in InSlice(keys, s, recs) && k !in InSlice(fewer, s, recs);
      assert InSlice(fewer, s, recs) <= InSlice(keys, s, recs) - {k};
      FewerElements(InSlice(fewer, s, recs), InSlice(keys, s, recs) - {k});
    }
  }

  lemma FewerElements<T>(a: set<T>, b: set<T>)
    requires a <= b
    ensures |a| <= |b|
  {
    assert b == a + (b - a);
  }

  lemma StillDrifted(stats: Stats, keys: set<Key>, fewer: set<Key>, recs: nat)
    requires recs > 0 && fewer <= keys && Drifted(stats, keys, recs)
    ensures Drifted(stats, fewer, recs)
  {
    var s :| |InSlice(keys, s, recs)| < NumOf(stats, s);
    FewerElements(InSlice(fewer, s, recs), InSlice(keys, s, recs));
  }

  lemma ExactCounts(stats: Stats, keys: set<Key>, recs: nat)
    requires recs > 0 && Exact(stats, keys, recs)
    ensures forall s {:trigger InSlice(keys, s, recs)} :: |InSlice(keys, s, recs)| <= NumOf(stats, s)
  {
  }

  /** Counting keys in never takes drift away, and makes some when a key is counted twice. */
  lemma UpdatesDrift(stats: Stats, keys: set<Key>, new': seq<Key>, recs: nat)
    requires recs > 0
    ensures Drifted(stats, keys, recs) ==> Drifted(UpdateAll(stats, new', recs), keys + Elements(new'), recs)
    ensures Exact(stats, keys, recs) ==>
              forall s {:trigger InSlice(keys + Elements(new'), s, recs)} ::
                |InSlice(keys + Elements(new'), s, recs)| <= NumOf(UpdateAll(stats, new', recs), s)
    ensures Exact(stats, keys, recs) && !Distinct(new') ==> Drifted(UpdateAll(stats, new', recs), keys + Elements(new'), recs)
  {
    hide InSlice, Elements, Exact, UpdateAll;
    forall s
      ensures NumOf(UpdateAll(stats, new', recs), s) == NumOf(stats, s) + Count(new', s, recs)
      ensures |InSlice(keys + Elements(new'), s, recs)| <= |InSlice(keys, s, recs)| + Count(new', s, recs)
    {
      UpdatesCount(stats, new', s, recs);
      SlicesGrow(keys, new', s, recs);
    }
    if Exact(stats, keys, recs) {
      ExactCounts(stats, keys, recs);
      if !Distinct(new') {
        var i, j :| 0 <= i < j < |new'| && new'[i] == new'[j];
        RepeatedKeyCounts(keys, new', i, j, recs);
      }
    }
  }

  /** From exact statistics a bulk put leads to exact ones if it counts right, and to drift if not. */
  lemma BulkPutFromExact(append: bool, store: Store, stats: Stats, rs: seq<Record>, recs: nat)
    requires recs > 0 && Exact(stats, Present(store), recs)
    ensures var stats', keys' := UpdateStats(stats, store, rs, recs), Present(AfterBulkPut(append, store, rs));
            if CountsRight(append, store, rs) then Exact(stats', keys', recs) else Drifted(stats', keys', recs)
  {
    hide AfterBulkPut, UpdateStats, Exact, Drifted, NoNewRepeat;
    var keys, new', keys' := Present(store), NewKeys(store, rs), Present(AfterBulkPut(append, store, rs));
    UpdatesAreForNewKeys(stats, store, rs, recs);
    PresentAfterBulkPut(append, store, rs);
    NewKeysDistinct(store, rs);
    UpdatesDrift(stats, keys, new', recs);
    if CountsRight(append, store, rs) {
      forall k | k in new'
        ensures k !in keys
      {
        NewKeysHolds(store, rs, k);
      }
      UpdatesKeepExact(stats, keys, new', recs);
      assert keys' == keys + Elements(new');
    } else if !Distinct(new') {
      StillDrifted(UpdateAll(stats, new', recs), keys + Elements(new'), keys', recs);
    } else {
      FewerDrift(UpdateAll(stats, new', recs), keys + Elements(new'), keys', recs);
    }
  }

  lemma {:induction false} Repeats(rs: seq<Record>, key: Key)
    ensures (exists i, j :: 0 <= i < j < |rs| && rs[i].key == key == rs[j].key) <==> |WithKey(rs, key)| >= 2
  {
    if rs != [] {
      var last := |rs| - 1;
      var init := rs[..last];
      Repeats(init, key);
      InWithKey(init, key);
      assert forall i :: 0 <= i < last ==> init[i] == rs[i];
      if |WithKey(rs, key)| >= 2 {
        if rs[last].key == key {
          var i :| 0 <= i < last && init[i].key == key;
          assert rs[i].key == key == rs[last].key;
        } else {
          var i, j :| 0 <= i < j < last && init[i].key == key == init[j].key;
          assert rs[i].key == key == rs[j].key;
        }
      }
      if i, j :| 0 <= i < j < |rs| && rs[i].key == key == rs[j].key {
        assert init[i].key == key;
        if j < last {
          assert init[j].key == key;
        }
      }
    }
  }

  /** What a bulk put must meet to be counted right, seen from one key. */
  ghost predicate KeyCountsRight(append: bool, store: Store, rs: seq<Record>, key: Key) {
    && (|WithKey(rs, key)| >= 2 ==> Exists(store, key))
    && (WithKey(rs, key) != [] ==> Exists(AfterBulkPut(append, store, rs), key))
  }

  lemma CountsRightPerKey(append: bool, store: Store, rs: seq<Record>)
    ensures CountsRight(append, store, rs) <==> forall key :: KeyCountsRight(append, store, rs, key)
  {
    hide AfterBulkPut, WithKey, Exists;
    forall key
      ensures (exists i, j :: 0 <= i < j < |rs| && rs[i].key == key == rs[j].key) <==> |WithKey(rs, key)| >= 2
      ensures WithKey(rs, key) != [] <==> exists i :: 0 <= i < |rs| && rs[i].key == key
    {
      Repeats(rs, key);
      InWithKey(rs, key);
    }
    if forall key :: KeyCountsRight(append, store, rs, key) {
      forall i, j | 0 <= i < j < |rs| && rs[i].key == rs[j].key
        ensures Exists(store, rs[i].key)
      {
        assert KeyCountsRight(append, store, rs, rs[i].key);
      }
      forall i | 0 <= i < |rs|
        ensures Exists(AfterBulkPut(append, store, rs), rs[i].key)
      {
        assert KeyCountsRight(append, store, rs, rs[i].key);
      }
    }
  }

  /** It depends on nothing but what is stored and put under the key. */
  lemma SameForKey(append: bool, a: Store, rs: seq<Record>, b: Store, ss: seq<Record>, key: Key)
    requires Lookup(a, key) == Lookup(b, key) && WithKey(rs, key) == WithKey(ss, key)
    ensures KeyCountsRight(append, a, rs, key) <==> KeyCountsRight(append, b, ss, key)
  {
    hide AfterBulkPut, WithKey;
    BulkPerKey(append, a, rs, key);
    BulkPerKey(append, b, ss, key);
  }

  /** After a bulk put the statistics are exact if and only if no new key was repeated in it and none of its keys is
      absent afterwards. */
  lemma BulkPutStatsExact(append: bool, store: Store, stats: Stats, rs: seq<Record>, recs: nat)
    requires recs > 0 && Exact(stats, Present(store), recs)
    ensures Exact(UpdateStats(stats, store, rs, recs), Present(AfterBulkPut(append, store, rs)), recs)
            <==> CountsRight(append, store, rs)
  {
    hide Exact, Drifted;
    BulkPutFromExact(append, store, stats, rs, recs);
    if !CountsRight(append, store, rs) {
      DriftedIsInexact(UpdateStats(stats, store, rs, recs), Present(AfterBulkPut(append, store, rs)), recs);
    }
  }

  /** After deletes they are if and only if no key deleted was present. */
  lemma DeletesStatsExact(store: Store, stats: Stats, keys: seq<Key>, recs: nat)
    requires recs > 0 && Exact(stats, Present(store), recs)
    ensures Exact(stats, Present(AfterDeletes(store, keys)), recs) <==> forall k :: k in keys ==> !Exists(store, k)
  {
    hide Exact, Drifted;
    DeletesTrack(store, stats, keys, recs);
    if Drifted(stats, Present(AfterDeletes(store, keys)), recs) {
      DriftedIsInexact(stats, Present(AfterDeletes(store, keys)), recs);
    }
  }

  lemma DeleteStatsExact(store: Store, stats: Stats, key: Key, recs: nat)
    requires recs > 0 && Exact(stats, Present(store), recs)
    ensures Exact(stats, Present(store - {key}), recs) <==> !Exists(store, key)
  {
    hide Exact;
    OneDelete(store, key);
    DeletesStatsExact(store, stats, [key], recs);
  }

  lemma OneDelete(store: Store, key: Key)
    ensures AfterDeletes(store, [key]) == store - {key}
  {
    assert [key][..0] == [];
  }

  // ---------------------------------------------------------------- what every request keeps

  /** The statistics are exact, or have counted too much for good. */
  ghost predicate Tracked(stats: Stats, keys: set<Key>, recs: nat)
    requires recs > 0
  {
    Exact(stats, keys, recs) || Drifted(stats, keys, recs)
  }

  lemma BulkPutTracks(append: bool, store: Store, stats: Stats, rs: seq<Record>, recs: nat)
    requires recs > 0 && Tracked(stats, Present(store), recs)
    ensures var stats', keys' := UpdateStats(stats, store, rs, recs), Present(AfterBulkPut(append, store, rs));
            && Tracked(stats', keys', recs)
            && (Exact(stats', keys', recs) <==> Exact(stats, Present(store), recs) && CountsRight(append, store, rs))
  {
    hide Exact, Drifted, AfterBulkPut, UpdateStats, CountsRight;
    var stats', keys' := UpdateStats(stats, store, rs, recs), Present(AfterBulkPut(append, store, rs));
    if Exact(stats, Present(store), recs) {
      BulkPutFromExact(append, store, stats, rs, recs);
    } else {
      UpdatesAreForNewKeys(stats, store, rs, recs);
      PresentAfterBulkPut(append, store, rs);
      UpdatesDrift(stats, Present(store), NewKeys(store, rs), recs);
      StillDrifted(stats', Present(store) + Elements(NewKeys(store, rs)), keys', recs);
    }
    if Drifted(stats', keys', recs) {
      DriftedIsInexact(stats', keys', recs);
    }
  }

  lemma DeletesTrack(store: Store, stats: Stats, keys: seq<Key>, recs: nat)
    requires recs > 0 && Tracked(stats, Present(store), recs)
    ensures var keys' := Present(AfterDeletes(store, keys));
            && Tracked(stats, keys', recs)
            && (Exact(stats, keys', recs) <==> Exact(stats, Present(store), recs) && forall k :: k in keys ==> !Exists(store, k))
  {
    hide Exact, Drifted, AfterDeletes;
    var keys' := Present(AfterDeletes(store, keys));
    PresentAfterDeletes(store, keys);
    if Exact(stats, Present(store), recs) {
      ExactCounts(stats, Present(store), recs);
      FewerDrift(stats, Present(store), keys', recs);
    } else {
      StillDrifted(stats, Present(store), keys', recs);
    }
    if Drifted(stats, keys', recs) {
      DriftedIsInexact(stats, keys', recs);
    }
  }

  lemma PresentAfterDeletes(store: Store, keys: seq<Key>)
    ensures Present(AfterDeletes(store, keys)) <= Present(store)
    ensures Present(AfterDeletes(store, keys)) == Present(store) <==> forall k :: k in keys ==> !Exists(store, k)
  {
    var after := AfterDeletes(store, keys);
    forall k
      ensures k in Present(after) <==> k in Present(store) && k !in keys
    {
      DeletesPerKey(store, keys, k);
    }
  }

  // ---------------------------------------------------------------- runs of a server

  datatype Op = PutOp(record: Record) | BulkPutOp(records: seq<Record>) | DeleteOp(key: Key) | BulkDeleteOp(keys: seq<Key>)

  datatype State = State(store: Store, stats: Stats)

  /** What one request does to a server, as its methods state it. */
  ghost function Step(append: bool, recs: nat, s: State, op: Op): State
    requires recs > 0
  {
    match op
    case PutOp(r) => State(AfterPut(append, s.store, r), UpdateStats(s.stats, s.store, [r], recs))
    case BulkPutOp(rs) => State(AfterBulkPut(append, s.store, rs), UpdateStats(s.stats, s.store, rs, recs))
    case DeleteOp(key) => State(s.store - {key}, s.stats)
    case BulkDeleteOp(keys) => State(AfterDeletes(s.store, keys), s.stats)
  }

  ghost function Run(append: bool, recs: nat, s: State, ops: seq<Op>): State
    requires recs > 0
  {
    if ops == [] then s else Step(append, recs, Run(append, recs, s, ops[..|ops| - 1]), ops[|ops| - 1])
  }

  /** A single put or a bulk put, with no empty value and no key of it repeated. */
  ghost predicate Counting(op: Op) {
    (op.PutOp? && op.record.value != []) || (op.BulkPutOp? && NonEmptyValues(op.records) && NoRepeats(op.records))
  }

  lemma PutIsBulkPut(append: bool, store: Store, r: Record)
    ensures AfterPut(append, store, r) == AfterBulkPut(append, store, [r])
  {
    var ns := NewRecords(append, store, [r]);
    assert ns[..0] == [] && AfterBatch(store, ns[..0]) == store;
  }

  lemma PutCountsRight(append: bool, store: Store, r: Record)
    ensures CountsRight(append, store, [r]) <==> NewValue(append, store, r) != []
  {
    PutIsBulkPut(append, store, r);
  }

  /** A request that the statistics stay exact under: a put whose new value is not empty, a bulk put that counts right, a
      delete of absent keys. */
  ghost predicate KeepsExact(append: bool, store: Store, op: Op) {
    match op
    case PutOp(r) => NewValue(append, store, r) != []
    case BulkPutOp(rs) => CountsRight(append, store, rs)
    case DeleteOp(key) => !Exists(store, key)
    case BulkDeleteOp(keys) => forall k :: k in keys ==> !Exists(store, k)
  }

  lemma StepTracks(append: bool, recs: nat, s: State, op: Op)
    requires recs > 0 && Tracked(s.stats, Present(s.store), recs)
    ensures var t := Step(append, recs, s, op);
            && Tracked(t.stats, Present(t.store), recs)
            && (Exact(t.stats, Present(t.store), recs) <==> Exact(s.stats, Present(s.store), recs) && KeepsExact(append, s.store, op))
  {
    hide Exact, Drifted, Present, AfterBulkPut, UpdateStats, CountsRight, AfterPut, AfterDeletes;
    match op
    case PutOp(r) =>
      PutIsBulkPut(append, s.store, r);
      PutCountsRight(append, s.store, r);
      BulkPutTracks(append, s.store, s.stats, [r], recs);
    case BulkPutOp(rs) =>
      BulkPutTracks(append, s.store, s.stats, rs, recs);
    case DeleteOp(key) =>
      OneDelete(s.store, key);
      DeletesTrack(s.store, s.stats, [key], recs);
    case BulkDeleteOp(keys) =>
      DeletesTrack(s.store, s.stats, keys, recs);
  }

  ghost predicate AllKeepExact(append: bool, recs: nat, ops: seq<Op>)
    requires recs > 0
  {
    forall k :: 0 <= k < |ops| ==> KeepsExact(append, Run(append, recs, State(map[], map[]), ops[..k]).store, ops[k])
  }

  lemma AllKeepSnoc(append: bool, recs: nat, ops: seq<Op>)
    requires recs > 0 && ops != []
    ensures var init := ops[..|ops| - 1];
            AllKeepExact(append, recs, ops) <==>
              AllKeepExact(append, recs, init)
              && KeepsExact(append, Run(append, recs, State(map[], map[]), init).store, ops[|ops| - 1])
  {
    hide KeepsExact, Run;
    var init := ops[..|ops| - 1];
    assert forall k :: 0 <= k < |init| ==> init[..k] == ops[..k] && init[k] == ops[k];
  }

  lemma {:induction false} RunTracks(append: bool, recs: nat, ops: seq<Op>)
    requires recs > 0
    ensures var s := Run(append, recs, State(map[], map[]), ops);
            && Tracked(s.stats, Present(s.store), recs)
            && (Exact(s.stats, Present(s.store), recs) <==> AllKeepExact(append, recs, ops))
  {
    hide Exact, Drifted, KeepsExact, Step, Present;
    if ops == [] {
      NothingIsExact(recs);
    } else {
      var init := ops[..|ops| - 1];
      RunTracks(append, recs, init);
      AllKeepSnoc(append, recs, ops);
      StepTracks(append, recs, Run(append, recs, State(map[], map[]), init), ops[|ops| - 1]);
    }
  }

  /** After any run of requests at all, from an empty server on, the statistics are exact if and only if every request of
      it kept them exact: none makes up for what another has miscounted. */
  lemma StatsExactIffKept(append: bool, recs: nat, ops: seq<Op>)
    requires recs > 0
    ensures var s := Run(append, recs, State(map[], map[]), ops);
            Exact(s.stats, Present(s.store), recs) <==>
              forall k :: 0 <= k < |ops| ==> KeepsExact(append, Run(append, recs, State(map[], map[]), ops[..k]).store, ops[k])
  {
    hide Exact, KeepsExact, Present, Run;
    RunTracks(append, recs, ops);
  }

  lemma CountingKeepsExact(append: bool, store: Store, op: Op)
    requires Counting(op)
    ensures KeepsExact(append, store, op)
  {
    if op.BulkPutOp? {
      var rs := op.records;
      forall i | 0 <= i < |rs|
        ensures Exists(AfterBulkPut(append, store, rs), rs[i].key)
      {
        InWithKey(rs, rs[i].key);
        BulkPerKey(append, store, rs, rs[i].key);
        WithKeyNonEmpty(rs, rs[i].key);
        LastAppended(append, Lookup(store, rs[i].key), WithKey(rs, rs[i].key));
      }
    }
  }

  lemma LastAppended(append: bool, old': Value, vs: seq<Value>)
    requires vs != [] && vs[|vs| - 1] != []
    ensures Appended(append, old', [vs[|vs| - 1]]) != []
  {
    AppendedSnoc(append, old', [], vs[|vs| - 1]);
    assert [] + [vs[|vs| - 1]] == [vs[|vs| - 1]];
  }

  /** Over any run of single puts and bulk puts without empty values and repeated keys the statistics are exact. */
  lemma StatsExactOverRuns(append: bool, recs: nat, ops: seq<Op>)
    requires recs > 0 && forall i :: 0 <= i < |ops| ==> Counting(ops[i])
    ensures var s := Run(append, recs, State(map[], map[]), ops); Exact(s.stats, Present(s.store), recs)
  {
    hide Exact, KeepsExact, Counting;
    StatsExactIffKept(append, recs, ops);
    forall k | 0 <= k < |ops|
      ensures KeepsExact(append, Run(append, recs, State(map[], map[]), ops[..k]).store, ops[k])
    {
      CountingKeepsExact(append, Run(append, recs, State(map[], map[]), ops[..k]).store, ops[k]);
    }
  }

  /** A key put and then deleted leaves the statistics inexact, and so does one put of an empty value under a new key. */
  lemma StatsGoStale(append: bool, recs: nat, key: Key, value: Value)
    requires recs > 0 && value != []
    ensures var s := Run(append, recs, State(map[], map[]), [PutOp(Record(key, value)), DeleteOp(key)]);
            !Exact(s.stats, Present(s.store), recs)
    ensures var s := Run(append, recs, State(map[], map[]), [PutOp(Record(key, []))]); !Exact(s.stats, Present(s.store), recs)
  {
    hide Exact, Present, UpdateStats;
    var put, gone := [PutOp(Record(key, value)), DeleteOp(key)], [PutOp(Record(key, []))];
    StatsExactIffKept(append, recs, put);
    StatsExactIffKept(append, recs, gone);
    assert put[..1] == [PutOp(Record(key, value))] && [PutOp(Record(key, value))][..0] == [] && gone[..0] == [];
    assert !KeepsExact(append, Run(append, recs, State(map[], map[]), put[..1]).store, put[1]);
    assert !KeepsExact(append, Run(append, recs, State(map[], map[]), gone[..0]).store, gone[0]);
  }

  lemma NothingIsExact(recs: nat)
    requires recs > 0
    ensures Exact(map[], Present(map[]), recs)
  {
    assert forall s :: InSlice(Present(map[]), s, recs) == {};
  }

  /** What every request keeps, deletes and repeated keys included: no key present is outside the bounds
      of its slice, and no slice holds more keys than are counted. */
  ghost predicate Bounding(stats: Stats, keys: set<Key>, recs: nat)
    requires recs > 0
  {
    && (forall k :: k in keys ==>
          var s := GetSliceNum(k, recs); s in stats && stats[s].min <= KeyStat(k) <= stats[s].max)
    && (forall s {:trigger InSlice(keys, s, recs)} :: |InSlice(keys, s, recs)| <= NumOf(stats, s))
  }

  lemma BoundingFewer(stats: Stats, keys: set<Key>, fewer: set<Key>, recs: nat)
    requires recs > 0 && Bounding(stats, keys, recs) && fewer <= keys
    ensures Bounding(stats, fewer, recs)
  {
    forall s
      ensures |InSlice(fewer, s, recs)| <= NumOf(stats, s)
    {
      FewerElements(InSlice(fewer, s, recs), InSlice(keys, s, recs));
    }
  }

  lemma BoundingUpdate(stats: Stats, keys: set<Key>, key: Key, recs: nat)
    requires recs > 0 && Bounding(stats, keys, recs)
    ensures Bounding(UpdateStat(stats, key, recs), keys + {key}, recs)
  {
    forall s
      ensures |InSlice(keys + {key}, s, recs)| <= NumOf(UpdateStat(stats, key, recs), s)
    {
      InSliceAdd(keys, key, s, recs);
      assert |InSlice(keys, s, recs) + (if GetSliceNum(key, recs) == s then {key} else {})|
          <= |InSlice(keys, s, recs)| + (if GetSliceNum(key, recs) == s then 1 else 0);
    }
  }

  lemma {:induction false} BoundingUpdates(stats: Stats, keys: set<Key>, new': seq<Key>, recs: nat)
    requires recs > 0 && Bounding(stats, keys, recs)
    ensures Bounding(UpdateAll(stats, new', recs), keys + Elements(new'), recs)
  {
    hide Bounding;
    if new' == [] {
      assert keys + Elements([]) == keys;
    } else {
      var init, key := new'[..|new'| - 1], new'[|new'| - 1];
      BoundingUpdates(stats, keys, init, recs);
      BoundingUpdate(UpdateAll(stats, init, recs), keys + Elements(init), key, recs);
      assert new' == init + [key];
      assert keys + Elements(new') == keys + Elements(init) + {key};
    }
  }

  lemma {:induction false} StatsBoundOverRuns(append: bool, recs: nat, ops: seq<Op>)
    requires recs > 0
    ensures var s := Run(append, recs, State(map[], map[]), ops); Bounding(s.stats, Present(s.store), recs)
  {
    if ops != [] {
      var last := |ops| - 1;
      StatsBoundOverRuns(append, recs, ops[..last]);
      var s := Run(append, recs, State(map[], map[]), ops[..last]);
      StepBounds(append, recs, s, ops[last]);
    } else {
      assert forall s :: InSlice(Present(map[]), s, recs) == {};
    }
  }

  lemma StepBounds(append: bool, recs: nat, s: State, op: Op)
    requires recs > 0 && Bounding(s.stats, Present(s.store), recs)
    ensures var t := Step(append, recs, s, op); Bounding(t.stats, Present(t.store), recs)
  {
    hide Bounding;
    match op
    case PutOp(r) =>
      PutIsBulkPut(append, s.store, r);
      BulkPutBounds(append, recs, s, [r]);
    case BulkPutOp(rs) =>
      BulkPutBounds(append, recs, s, rs);
    case DeleteOp(key) =>
      BoundingFewer(s.stats, Present(s.store), Present(s.store - {key}), recs);
    case BulkDeleteOp(keys) =>
      forall k
        ensures k in Present(AfterDeletes(s.store, keys)) ==> k in Present(s.store)
      {
        DeletesPerKey(s.store, keys, k);
      }
      BoundingFewer(s.stats, Present(s.store), Present(AfterDeletes(s.store, keys)), recs);
  }

  lemma BulkPutBounds(append: bool, recs: nat, s: State, rs: seq<Record>)
    requires recs > 0 && Bounding(s.stats, Present(s.store), recs)
    ensures Bounding(UpdateStats(s.stats, s.store, rs, recs), Present(AfterBulkPut(append, s.store, rs)), recs)
  {
    hide Bounding;
    var new' := NewKeys(s.store, rs);
    UpdatesAreForNewKeys(s.stats, s.store, rs, recs);
    BoundingUpdates(s.stats, Present(s.store), new', recs);
    var after := AfterBulkPut(append, s.store, rs);
    forall k | k in Present(after)
      ensures k in Present(s.store) + Elements(new')
    {
      BulkPerKey(append, s.store, rs, k);
      NewKeysHolds(s.store, rs, k);
    }
    BoundingFewer(UpdateAll(s.stats, new', recs), Present(s.store) + Elements(new'), Present(after), recs);
  }

  // ---------------------------------------------------------------- choosing the slice of a cursor operation

  datatype CursorOp = GetNext | GetPrev | GetFirst | GetLast

  // The order in which the entries of the table are met: every one of them once or more.
  ghost predicate Meets(order: seq<int>, stats: Stats) {
    forall s :: s in order <==> s in stats
  }

  lemma NothingMet(order: seq<int>, stats: Stats)
    requires Meets(order, stats)
    ensures order == [] <==> stats == map[]
  {
    if order == [] {
      assert forall s :: s in stats ==> s in order;
      assert stats.Keys == {};
    } else {
      var s: int := order[0];
      assert s in order;
      assert s in stats.Keys;
    }
  }

  ghost predicate IsNext(next: Option<int>, stats: Stats, slice: int) {
    match next
    case None => forall s :: s in stats ==> s <= slice
    case Some(n) => n in stats && n > slice && forall s :: s in stats && s > slice ==> n <= s
  }

  ghost predicate IsPrev(prev: Option<int>, stats: Stats, slice: int) {
    match prev
    case None => forall s :: s in stats ==> s >= slice
    case Some(p) => p in stats && p < slice && forall s :: s in stats && s < slice ==> p >= s
  }

  ghost predicate IsFirst(first: Option<int>, stats: Stats) {
    match first
    case None => stats == map[]
    case Some(f) => f in stats && forall s :: s in stats ==> f <= s
  }

  ghost predicate IsLast(last: Option<int>, stats: Stats) {
    match last
    case None => stats == map[]
    case Some(l) => l in stats && forall s :: s in stats ==> l >= s
  }

  method GetNextSliceStat(order: seq<int>, ghost stats: Stats, slice: int) returns (next: Option<int>)
    requires Meets(order, stats)
    ensures IsNext(next, stats, slice)
  {
    next := None;
    for i := 0 to |order|
      invariant next.None? ==> forall j :: 0 <= j < i ==> order[j] <= slice
      invariant next.Some? ==> next.value in order && next.value > slice
      invariant next.Some? ==> forall j :: 0 <= j < i && order[j] > slice ==> next.value <= order[j]
    {
      if order[i] > slice && next.None? {
        next := Some(order[i]);
      } else if next.Some? && order[i] > slice && order[i] < next.value {
        next := Some(order[i]);
      }
    }
  }

  method GetPrevSliceStat(order: seq<int>, ghost stats: Stats, slice: int) returns (prev: Option<int>)
    requires Meets(order, stats)
    ensures IsPrev(prev, stats, slice)
  {
    prev := None;
    for i := 0 to |order|
      invariant prev.None? ==> forall j :: 0 <= j < i ==> order[j] >= slice
      invariant prev.Some? ==> prev.value in order && prev.value < slice
      invariant prev.Some? ==> forall j :: 0 <= j < i && order[j] < slice ==> prev.value >= order[j]
    {
      if order[i] < slice && prev.None? {
        prev := Some(order[i]);
      } else if prev.Some? && order[i] < slice && order[i] > prev.value {
        prev := Some(order[i]);
      }
    }
  }

  method GetLastSliceStat(order: seq<int>, ghost stats: Stats) returns (last: Option<int>)
    requires Meets(order, stats)
    ensures IsLast(last, stats)
  {
    last := None;
    for i := 0 to |order|
      invariant last.None? <==> i == 0
      invariant last.Some? ==> last.value in order && forall j :: 0 <= j < i ==> last.value >= order[j]
    {
      if last.None? {
        last := Some(order[i]);
      } else if order[i] > last.value {
        last := Some(order[i]);
      }
    }
    NothingMet(order, stats);
  }

  method GetFirstSliceStat(order: seq<int>, ghost stats: Stats) returns (first: Option<int>)
    requires Meets(order, stats)
    ensures IsFirst(first, stats)
  {
    first := None;
    for i := 0 to |order|
      invariant first.None? <==> i == 0
      invariant first.Some? ==> first.value in order && forall j :: 0 <= j < i ==> first.value <= order[j]
    {
      if first.None? {
        first := Some(order[i]);
      } else if order[i] < first.value {
        first := Some(order[i]);
      }
    }
    NothingMet(order, stats);
  }

  /** The slice for a cursor operation, zero when the statistics know of none. */
  method GetSliceFromStat(stats: Stats, order: seq<int>, curSlice: int, stat: real, op: CursorOp) returns (sliceNum: int)
    requires Meets(order, stats)
    ensures Chosen(stats, curSlice, stat, op, sliceNum)
  {
    if stats == map[] {
      return 0;
    }
    var new' := None;
    match op {
      case GetNext =>
        if curSlice in stats && stats[curSlice].max > stat {
          return curSlice;
        }
        new' := GetNextSliceStat(order, stats, curSlice);
      case GetPrev =>
        if curSlice in stats && stats[curSlice].min < stat {
          return curSlice;
        }
        new' := GetPrevSliceStat(order, stats, curSlice);
      case GetFirst =>
        new' := GetFirstSliceStat(order, stats);
      case GetLast =>
        new' := GetLastSliceStat(order, stats);
    }
    return if new'.Some? then new'.value else 0;
  }

  ghost predicate Chosen(stats: Stats, cur: int, stat: real, op: CursorOp, slice: int) {
    match op
    case GetNext =>
      if cur in stats && stats[cur].max > stat then slice == cur
      else (IsNext(Some(slice), stats, cur) || (IsNext(None, stats, cur) && slice == 0))
    case GetPrev =>
      if cur in stats && stats[cur].min < stat then slice == cur
      else (IsPrev(Some(slice), stats, cur) || (IsPrev(None, stats, cur) && slice == 0))
    case GetFirst => IsFirst(Some(slice), stats) || (IsFirst(None, stats) && slice == 0)
    case GetLast => IsLast(Some(slice), stats) || (IsLast(None, stats) && slice == 0)
  }

  ghost predicate SameKind(a: Key, b: Key) {
    a.IntKey? <==> b.IntKey?
  }

  /** Slices follow the numbers of the keys. */
  lemma SlicesFollowStats(a: Key, b: Key, recs: nat)
    requires recs > 0 && ValidKey(a, recs) && ValidKey(b, recs) && SameKind(a, b)
    requires GetSliceNum(a, recs) < GetSliceNum(b, recs)
    ensures KeyStat(a) < KeyStat(b)
  {
    if KeyStat(b) <= KeyStat(a) {
      SlicesMonotone(b, a, recs);
    }
  }

  lemma SlicesMonotone(a: Key, b: Key, recs: nat)
    requires recs > 0 && ValidKey(a, recs) && ValidKey(b, recs) && SameKind(a, b) && KeyStat(a) <= KeyStat(b)
    ensures GetSliceNum(a, recs) <= GetSliceNum(b, recs)
  {
    KeyNumRange(a, recs);
    KeyNumRange(b, recs);
    NumbersFollowStats(a, b, recs);
    QuotientMonotone(KeyNum(a, recs), KeyNum(b, recs), recs);
  }

  lemma NumbersFollowStats(a: Key, b: Key, recs: nat)
    requires SameKind(a, b) && KeyStat(a) <= KeyStat(b)
    ensures KeyNum(a, recs) <= KeyNum(b, recs)
  {
    if a.StringKey? {
      var x, y, n := StrNum(Text(a.chars)), StrNum(Text(b.chars)), TotalKeys(recs);
      ScaleMonotone(x, y, n);
      assert KeyNum(a, recs) == (x * n as real).Floor;
      assert KeyNum(b, recs) == (y * n as real).Floor;
    } else {
      RealsFollowInts(b.value, a.value);
    }
  }

  lemma RealsFollowInts(x: int, y: int)
    ensures x < y ==> x as real < y as real
  {
  }

  ghost predicate Keys(keys: set<Key>, like: Key, recs: nat)
    requires recs > 0
  {
    forall k :: k in keys ==> ValidKey(k, recs) && SameKind(k, like)
  }

  lemma HasEntry(stats: Stats, keys: set<Key>, k: Key, recs: nat)
    requires recs > 0 && Exact(stats, keys, recs) && k in keys
    ensures var s := GetSliceNum(k, recs); s in stats && stats[s].min <= KeyStat(k) <= stats[s].max
  {
    assert k in InSlice(keys, GetSliceNum(k, recs), recs);
  }

  lemma EntryHasKeys(stats: Stats, keys: set<Key>, s: int, recs: nat) returns (least: Key, greatest: Key)
    requires recs > 0 && Exact(stats, keys, recs) && s in stats
    ensures least in keys && GetSliceNum(least, recs) == s && KeyStat(least) == stats[s].min
    ensures greatest in keys && GetSliceNum(greatest, recs) == s && KeyStat(greatest) == stats[s].max
  {
    assert ExactEntry(stats[s], InSlice(keys, s, recs));
    least :| least in InSlice(keys, s, recs) && KeyStat(least) == stats[s].min;
    greatest :| greatest in InSlice(keys, s, recs) && KeyStat(greatest) == stats[s].max;
  }

  /** Read by the numbers of the keys: the slice chosen for the next key holds the key with the least greater number. */
  lemma NextSliceByNumber(stats: Stats, keys: set<Key>, key: Key, next: Key, slice: int, recs: nat)
    requires recs > 0 && Exact(stats, keys, recs) && Keys(keys, key, recs) && ValidKey(key, recs)
    requires next in keys && KeyStat(next) > KeyStat(key)
    requires forall k :: k in keys && KeyStat(k) > KeyStat(key) ==> KeyStat(next) <= KeyStat(k)
    requires Chosen(stats, GetSliceNum(key, recs), KeyStat(key), GetNext, slice)
    ensures GetSliceNum(next, recs) == slice
  {
    hide Exact, KeyStat;
    var cur, want := GetSliceNum(key, recs), GetSliceNum(next, recs);
    HasEntry(stats, keys, next, recs);
    if want < cur {
      SlicesFollowStats(next, key, recs);
      assert false;
    } else if cur in stats && stats[cur].max > KeyStat(key) {
      var least, greatest := EntryHasKeys(stats, keys, cur, recs);
      if cur < want {
        SlicesFollowStats(greatest, next, recs);
      }
    } else {
      assert want in stats && want > cur;
      var least, greatest := EntryHasKeys(stats, keys, slice, recs);
      SlicesFollowStats(key, least, recs);
      if slice < want {
        SlicesFollowStats(least, next, recs);
      }
    }
  }

  lemma PrevSliceByNumber(stats: Stats, keys: set<Key>, key: Key, prev: Key, slice: int, recs: nat)
    requires recs > 0 && Exact(stats, keys, recs) && Keys(keys, key, recs) && ValidKey(key, recs)
    requires prev in keys && KeyStat(prev) < KeyStat(key)
    requires forall k :: k in keys && KeyStat(k) < KeyStat(key) ==> KeyStat(prev) >= KeyStat(k)
    requires Chosen(stats, GetSliceNum(key, recs), KeyStat(key), GetPrev, slice)
    ensures GetSliceNum(prev, recs) == slice
  {
    hide Exact, KeyStat;
    var cur, want := GetSliceNum(key, recs), GetSliceNum(prev, recs);
    HasEntry(stats, keys, prev, recs);
    if want > cur {
      SlicesFollowStats(key, prev, recs);
      assert false;
    } else if cur in stats && stats[cur].min < KeyStat(key) {
      var least, greatest := EntryHasKeys(stats, keys, cur, recs);
      if want < cur {
        SlicesFollowStats(prev, least, recs);
      }
    } else {
      assert want in stats && want < cur;
      var least, greatest := EntryHasKeys(stats, keys, slice, recs);
      SlicesFollowStats(greatest, key, recs);
      if slice > want {
        SlicesFollowStats(prev, greatest, recs);
      }
    }
  }

  lemma EndSlicesByNumber(stats: Stats, keys: set<Key>, end: Key, cur: int, stat: real, op: CursorOp, slice: int, recs: nat)
    requires recs > 0 && Exact(stats, keys, recs) && Keys(keys, end, recs) && end in keys
    requires op.GetFirst? || op.GetLast?
    requires forall k :: k in keys ==> if op.GetFirst? then KeyStat(end) <= KeyStat(k) else KeyStat(end) >= KeyStat(k)
    requires Chosen(stats, cur, stat, op, slice)
    ensures GetSliceNum(end, recs) == slice
  {
    hide Exact, KeyStat;
    var want := GetSliceNum(end, recs);
    HasEntry(stats, keys, end, recs);
    var least, greatest := EntryHasKeys(stats, keys, slice, recs);
    if slice < want {
      SlicesFollowStats(greatest, end, recs);
    } else if want < slice {
      SlicesFollowStats(end, least, recs);
    }
  }

  lemma NoGreaterNumber(stats: Stats, keys: set<Key>, key: Key, slice: int, recs: nat)
    requires recs > 0 && Exact(stats, keys, recs) && Keys(keys, key, recs) && ValidKey(key, recs)
    requires Chosen(stats, GetSliceNum(key, recs), KeyStat(key), GetNext, slice)
    ensures (forall k :: k in keys ==> KeyStat(k) <= KeyStat(key))
            <==> !(exists k :: k in keys && GetSliceNum(k, recs) == slice && KeyStat(k) > KeyStat(key))
    ensures (forall k :: k in keys ==> KeyStat(k) <= KeyStat(key)) ==> slice == 0
  {
    hide Exact, KeyStat;
    var cur := GetSliceNum(key, recs);
    if cur in stats && stats[cur].max > KeyStat(key) {
      var least, greatest := EntryHasKeys(stats, keys, cur, recs);
      assert greatest in keys && GetSliceNum(greatest, recs) == slice && KeyStat(greatest) > KeyStat(key);
    } else if IsNext(Some(slice), stats, cur) {
      var least, greatest := EntryHasKeys(stats, keys, slice, recs);
      SlicesFollowStats(key, least, recs);
      assert least in keys && GetSliceNum(least, recs) == slice && KeyStat(least) > KeyStat(key);
    } else {
      forall k | k in keys
        ensures KeyStat(k) <= KeyStat(key)
      {
        HasEntry(stats, keys, k, recs);
        if GetSliceNum(k, recs) < cur {
          SlicesFollowStats(k, key, recs);
        }
      }
    }
  }

  lemma NoSmallerNumber(stats: Stats, keys: set<Key>, key: Key, slice: int, recs: nat)
    requires recs > 0 && Exact(stats, keys, recs) && Keys(keys, key, recs) && ValidKey(key, recs)
    requires Chosen(stats, GetSliceNum(key, recs), KeyStat(key), GetPrev, slice)
    ensures (forall k :: k in keys ==> KeyStat(k) >= KeyStat(key))
            <==> !(exists k :: k in keys && GetSliceNum(k, recs) == slice && KeyStat(k) < KeyStat(key))
    ensures (forall k :: k in keys ==> KeyStat(k) >= KeyStat(key)) ==> slice == 0
  {
    hide Exact, KeyStat;
    var cur := GetSliceNum(key, recs);
    if cur in stats && stats[cur].min < KeyStat(key) {
      var least, greatest := EntryHasKeys(stats, keys, cur, recs);
      assert least in keys && GetSliceNum(least, recs) == slice && KeyStat(least) < KeyStat(key);
    } else if IsPrev(Some(slice), stats, cur) {
      var least, greatest := EntryHasKeys(stats, keys, slice, recs);
      SlicesFollowStats(greatest, key, recs);
      assert greatest in keys && GetSliceNum(greatest, recs) == slice && KeyStat(greatest) < KeyStat(key);
    } else {
      forall k | k in keys
        ensures KeyStat(k) >= KeyStat(key)
      {
        HasEntry(stats, keys, k, recs);
        if GetSliceNum(k, recs) > cur {
          SlicesFollowStats(key, k, recs);
        }
      }
    }
  }

  // ---------------------------------------------------------------- the choice in the store's own order

  /** The numbers follow the order of the keys, but two texts that differ by zeros at the end have one number. */
  lemma NumbersFollowKeys(a: Key, b: Key, recs: nat)
    requires recs > 0 && ValidKey(a, recs) && ValidKey(b, recs) && KeyLe(a, b)
    ensures KeyStat(a) <= KeyStat(b)
    ensures KeyStat(a) == KeyStat(b) ==> GetSliceNum(a, recs) == GetSliceNum(b, recs)
    ensures KeyStat(a) == KeyStat(b) <==>
            a == b || (a.StringKey? && Text(a.chars) <= Text(b.chars) && Zeros(Text(b.chars)[|Text(a.chars)|..]))
  {
    if a.StringKey? {
      StrNumMonotone(Text(a.chars), Text(b.chars));
      TiesAreZeros(Text(a.chars), Text(b.chars));
    }
    if KeyStat(a) == KeyStat(b) {
      SlicesMonotone(a, b, recs);
      SlicesMonotone(b, a, recs);
    }
  }

  lemma KeysAreOrdered(a: Key, b: Key)
    requires SameKind(a, b)
    ensures KeyLe(a, b) || KeyLt(b, a)
  {
    if a.StringKey? {
      LexTotal(Text(a.chars), Text(b.chars));
    }
  }

  /** The stored key that the store has right behind a key. */
  ghost predicate IsSuccessor(keys: set<Key>, key: Key, next: Key) {
    next in keys && KeyLt(key, next) && forall k :: k in keys && KeyLt(key, k) ==> KeyLe(next, k)
  }

  ghost predicate IsPredecessor(keys: set<Key>, key: Key, prev: Key) {
    prev in keys && KeyLt(prev, key) && forall k :: k in keys && KeyLt(k, key) ==> KeyLe(k, prev)
  }

  lemma SuccessorHasNextNumber(keys: set<Key>, key: Key, next: Key, recs: nat)
    requires recs > 0 && Keys(keys, key, recs) && ValidKey(key, recs) && IsSuccessor(keys, key, next)
    ensures KeyStat(next) >= KeyStat(key)
    ensures KeyStat(next) == KeyStat(key) ==> GetSliceNum(next, recs) == GetSliceNum(key, recs)
    ensures forall k :: k in keys && KeyStat(k) > KeyStat(key) ==> KeyStat(next) <= KeyStat(k)
  {
    hide KeyStat, GetSliceNum, ValidKey, KeyLe;
    NumbersFollowKeys(key, next, recs);
    forall k | k in keys && KeyStat(k) > KeyStat(key)
      ensures KeyStat(next) <= KeyStat(k)
    {
      KeysAreOrdered(k, key);
      if KeyLe(k, key) {
        NumbersFollowKeys(k, key, recs);
      }
      NumbersFollowKeys(next, k, recs);
    }
  }

  lemma PredecessorHasPrevNumber(keys: set<Key>, key: Key, prev: Key, recs: nat)
    requires recs > 0 && Keys(keys, key, recs) && ValidKey(key, recs) && IsPredecessor(keys, key, prev)
    ensures KeyStat(prev) <= KeyStat(key)
    ensures KeyStat(prev) == KeyStat(key) ==> GetSliceNum(prev, recs) == GetSliceNum(key, recs)
    ensures forall k :: k in keys && KeyStat(k) < KeyStat(key) ==> KeyStat(prev) >= KeyStat(k)
  {
    hide KeyStat, GetSliceNum, ValidKey, KeyLe;
    NumbersFollowKeys(prev, key, recs);
    forall k | k in keys && KeyStat(k) < KeyStat(key)
      ensures KeyStat(prev) >= KeyStat(k)
    {
      KeysAreOrdered(key, k);
      if KeyLe(key, k) {
        NumbersFollowKeys(key, k, recs);
      }
      NumbersFollowKeys(k, prev, recs);
    }
  }

  /** With exact statistics, the slice chosen for the next key holds the least greater key exactly when that key has a
      greater number, or shares the key's number and the choice falls on the key's own slice all the same: because a
      greater number is in it, or because it is slice 0 and no later slice has a key. */
  lemma NextSliceIsRight(stats: Stats, keys: set<Key>, key: Key, next: Key, slice: int, recs: nat)
    requires recs > 0 && Exact(stats, keys, recs) && Keys(keys, key, recs) && ValidKey(key, recs)
    requires IsSuccessor(keys, key, next)
    requires Chosen(stats, GetSliceNum(key, recs), KeyStat(key), GetNext, slice)
    ensures var cur := GetSliceNum(key, recs);
            GetSliceNum(next, recs) == slice <==>
              || KeyStat(next) > KeyStat(key)
              || (cur in stats && stats[cur].max > KeyStat(key))
              || (cur == 0 && IsNext(None, stats, cur))
  {
    hide Exact, KeyStat, GetSliceNum, IsSuccessor;
    SuccessorHasNextNumber(keys, key, next, recs);
    assert next in keys by { SuccessorIsStored(keys, key, next); }
    if KeyStat(next) > KeyStat(key) {
      NextSliceByNumber(stats, keys, key, next, slice, recs);
    }
  }

  lemma SuccessorIsStored(keys: set<Key>, key: Key, next: Key)
    requires IsSuccessor(keys, key, next)
    ensures next in keys
  {
  }

  /** The mirror image, for the previous key. */
  lemma PrevSliceIsRight(stats: Stats, keys: set<Key>, key: Key, prev: Key, slice: int, recs: nat)
    requires recs > 0 && Exact(stats, keys, recs) && Keys(keys, key, recs) && ValidKey(key, recs)
    requires IsPredecessor(keys, key, prev)
    requires Chosen(stats, GetSliceNum(key, recs), KeyStat(key), GetPrev, slice)
    ensures var cur := GetSliceNum(key, recs);
            GetSliceNum(prev, recs) == slice <==>
              || KeyStat(prev) < KeyStat(key)
              || (cur in stats && stats[cur].min < KeyStat(key))
              || (cur == 0 && IsPrev(None, stats, cur))
  {
    hide Exact, KeyStat, GetSliceNum, IsPredecessor;
    PredecessorHasPrevNumber(keys, key, prev, recs);
    assert prev in keys by { PredecessorIsStored(keys, key, prev); }
    if KeyStat(prev) < KeyStat(key) {
      PrevSliceByNumber(stats, keys, key, prev, slice, recs);
    }
  }

  lemma PredecessorIsStored(keys: set<Key>, key: Key, prev: Key)
    requires IsPredecessor(keys, key, prev)
    ensures prev in keys
  {
  }

  /** The slices chosen for the first and the last key hold the least and the greatest of all. */
  lemma EndSlicesAreRight(stats: Stats, keys: set<Key>, end: Key, cur: int, stat: real, op: CursorOp, slice: int, recs: nat)
    requires recs > 0 && Exact(stats, keys, recs) && Keys(keys, end, recs) && end in keys
    requires op.GetFirst? || op.GetLast?
    requires forall k :: k in keys ==> if op.GetFirst? then KeyLe(end, k) else KeyLe(k, end)
    requires Chosen(stats, cur, stat, op, slice)
    ensures GetSliceNum(end, recs) == slice
  {
    hide Exact, KeyStat, GetSliceNum, KeyLe;
    forall k | k in keys
      ensures if op.GetFirst? then KeyStat(end) <= KeyStat(k) else KeyStat(end) >= KeyStat(k)
    {
      if op.GetFirst? {
        NumbersFollowKeys(end, k, recs);
      } else {
        NumbersFollowKeys(k, end, recs);
      }
    }
    EndSlicesByNumber(stats, keys, end, cur, stat, op, slice, recs);
  }

  /** The chosen slice holds a greater key exactly when some key has a greater number, or some key is greater and the
      key's own slice is 0; and when no key is greater the slice is 0. */
  lemma NoNextIsZero(stats: Stats, keys: set<Key>, key: Key, slice: int, recs: nat)
    requires recs > 0 && Exact(stats, keys, recs) && Keys(keys, key, recs) && ValidKey(key, recs)
    requires Chosen(stats, GetSliceNum(key, recs), KeyStat(key), GetNext, slice)
    ensures (exists k :: k in keys && GetSliceNum(k, recs) == slice && KeyLt(key, k)) <==>
              || (exists k :: k in keys && KeyStat(k) > KeyStat(key))
              || (GetSliceNum(key, recs) == 0 && exists k :: k in keys && KeyLt(key, k))
    ensures (forall k :: k in keys ==> !KeyLt(key, k)) ==> slice == 0
  {
    hide Exact, KeyStat, GetSliceNum, KeyLe, Chosen;
    NoGreaterNumber(stats, keys, key, slice, recs);
    forall k | k in keys
      ensures KeyStat(k) > KeyStat(key) ==> KeyLt(key, k)
      ensures KeyLt(key, k) && KeyStat(k) <= KeyStat(key) ==> GetSliceNum(k, recs) == GetSliceNum(key, recs)
    {
      KeysAreOrdered(k, key);
      if KeyLe(k, key) {
        NumbersFollowKeys(k, key, recs);
      }
      if KeyLt(key, k) {
        NumbersFollowKeys(key, k, recs);
      }
    }
  }

  /** The mirror image: the chosen slice holds a smaller key exactly when some key has a smaller number, or some key is
      smaller and the key's own slice is 0; and when no key is smaller the slice is 0. */
  lemma NoPrevIsZero(stats: Stats, keys: set<Key>, key: Key, slice: int, recs: nat)
    requires recs > 0 && Exact(stats, keys, recs) && Keys(keys, key, recs) && ValidKey(key, recs)
    requires Chosen(stats, GetSliceNum(key, recs), KeyStat(key), GetPrev, slice)
    ensures (exists k :: k in keys && GetSliceNum(k, recs) == slice && KeyLt(k, key)) <==>
              || (exists k :: k in keys && KeyStat(k) < KeyStat(key))
              || (GetSliceNum(key, recs) == 0 && exists k :: k in keys && KeyLt(k, key))
    ensures (forall k :: k in keys ==> !KeyLt(k, key)) ==> slice == 0
  {
    hide Exact, KeyStat, GetSliceNum, KeyLe, Chosen;
    NoSmallerNumber(stats, keys, key, slice, recs);
    forall k | k in keys
      ensures KeyStat(k) < KeyStat(key) ==> KeyLt(k, key)
      ensures KeyLt(k, key) && KeyStat(k) >= KeyStat(key) ==> GetSliceNum(k, recs) == GetSliceNum(key, recs)
    {
      KeysAreOrdered(key, k);
      if KeyLe(key, k) {
        NumbersFollowKeys(key, k, recs);
      }
      if KeyLt(k, key) {
        NumbersFollowKeys(k, key, recs);
      }
    }
  }

  /** The choice does miss keys: of the texts "a" and "a0" one is the only key stored and the other is asked about. */
  lemma TiedKeysAreMissed(stored: Key, asked: Key, op: CursorOp, slice: int)
    requires (op.GetNext? && asked == StringKey("a\0") && stored == StringKey("a0\0")) ||
             (op.GetPrev? && asked == StringKey("a0\0") && stored == StringKey("a\0"))
    ensures var stats := UpdateStat(map[], stored, 1);
            && ValidKey(asked, 1) && ValidKey(stored, 1) && Exact(stats, {stored}, 1)
            && (if op.GetNext? then IsSuccessor({stored}, asked, stored) else IsPredecessor({stored}, asked, stored))
            && (Chosen(stats, GetSliceNum(asked, 1), KeyStat(asked), op, slice) ==> slice == 0 && GetSliceNum(stored, 1) > 0)
  {
    hide Exact, KeyStat, GetSliceNum, KeyLe, ValidKey;
    OneKeyStored(stored);
    TiedTexts();
  }

  lemma OneKeyStored(stored: Key)
    ensures Exact(UpdateStat(map[], stored, 1), {stored}, 1)
  {
    assert Present(map[]) == {};
    NothingIsExact(1);
    UpdateKeepsExact(map[], {}, stored, 1);
    hide Exact;
    assert {} + {stored} == {stored};
  }

  lemma TiedTexts()
    ensures var a, b := StringKey("a\0"), StringKey("a0\0");
            && ValidKey(a, 1) && ValidKey(b, 1) && KeyLt(a, b) && KeyLe(a, a) && KeyLe(b, b)
            && KeyStat(a) == KeyStat(b) && GetSliceNum(a, 1) == GetSliceNum(b, 1) > 0
  {
    hide GetSliceNum;
    assert Text("a\0") == "a" && Text("a0\0") == "a0";
    BeyondFirstSlice("a\0");
    BeyondFirstSlice("a0\0");
    LexTotal("a", "a");
    LexTotal("a0", "a0");
    assert KeyLe(StringKey("a\0"), StringKey("a0\0"));
    NumbersFollowKeys(StringKey("a\0"), StringKey("a0\0"), 1);
  }

  lemma BeyondFirstSlice(chars: string)
    requires Text(chars) == "a" || Text(chars) == "a0"
    requires |chars| <= 3
    ensures ValidKey(StringKey(chars), 1) && GetSliceNum(StringKey(chars), 1) > 0
  {
    var x := StrNum(Text(chars));
    assert Text(chars)[0] == 'a';
    assert Text(chars)[1..] == "" || Text(chars)[1..] == "0";
    StrNumRange(Text(chars)[1..]);
    assert x >= 0.5;
    ProductMonotone(0.5, x, TotalKeys(1) as real);
    QuotientBelow(KeyNum(StringKey(chars), 1), 1, 1);
  }

  // ---------------------------------------------------------------- the statistics database

  ghost predicate Same(a: Stats, b: Stats) {
    forall s :: (s in a <==> s in b) && (s in a ==> a[s] == b[s])
  }

  /** What is in either table, the second taking precedence. */
  ghost predicate Merged(whole: Stats, a: Stats, b: Stats) {
    forall s :: (s in whole <==> s in a || s in b) && (s in whole ==> whole[s] == if s in b then b[s] else a[s])
  }

  lemma SplitAt<T>(s: seq<T>, i: nat)
    requires i < |s|
    ensures s[i..] == [s[i]] + s[i + 1..] && s[..i + 1] == s[..i] + [s[i]]
  {
  }

  /** Writing: every entry, in the order in which the table hands them out, goes to the database and leaves the table. */
  method WriteStats(stats: Stats, order: seq<int>, db: Stats) returns (stats': Stats, db': Stats)
    requires Meets(order, stats) && forall i, j :: 0 <= i < j < |order| ==> order[i] != order[j]
    ensures (forall s :: s !in stats') && Merged(db', db, stats)
  {
    stats', db' := stats, db;
    for i := 0 to |order|
      invariant forall s :: s in stats' <==> s in order[i..]
      invariant forall s :: s in stats' ==> s in stats && stats'[s] == stats[s]
      invariant forall s :: s in db' <==> s in db || s in order[..i]
      invariant forall s :: s in db' ==> db'[s] == if s in order[..i] then stats[s] else db[s]
    {
      var s: int := order[i];
      assert s in order[i..];
      SplitAt(order, i);
      assert s !in order[i + 1..] && s !in order[..i];
      db' := db'[s := stats'[s]];
      stats' := stats' - {s};
    }
    assert order[..|order|] == order;
  }

  predicate Behind(s: int, after: Option<int>) {
    after.Some? ==> s > after.value
  }

  /** The database's record with the least key above the one given, as its iterator hands it out. */
  ghost predicate IsNextRecord(db: Stats, after: Option<int>, next: int) {
    next in db && Behind(next, after) && forall s :: s in db && Behind(s, after) ==> next <= s
  }

  ghost function Between(db: Stats, after: Option<int>, some: int): set<int> {
    set s | s in db && Behind(s, after) && s < some
  }

  lemma NextRecordExists(db: Stats, after: Option<int>, some: int)
    requires some in db && Behind(some, after)
    ensures exists next :: IsNextRecord(db, after, next)
    decreases Between(db, after, some)
  {
    if !IsNextRecord(db, after, some) {
      var s :| s in db && Behind(s, after) && s < some;
      assert s in Between(db, after, some) && s !in Between(db, after, s);
      NextRecordExists(db, after, s);
    }
  }

  method NextRecord(db: Stats, after: Option<int>) returns (next: Option<int>)
    ensures next.Some? ==> IsNextRecord(db, after, next.value)
    ensures next.None? ==> forall s :: s in db ==> after.Some? && s <= after.value
  {
    if s :| s in db.Keys && Behind(s, after) {
      NextRecordExists(db, after, s);
      ghost var wanted :| IsNextRecord(db, after, wanted);
      var least :| least in db.Keys && Behind(least, after) && forall s :: s in db.Keys && Behind(s, after) ==> least <= s;
      next := Some(least);
    } else {
      next := None;
    }
  }

  // The table holds the database's records up to the one last read.
  ghost predicate Loaded(db: Stats, stats: Stats, upTo: Option<int>) {
    && (forall s :: s in stats <==> s in db && upTo.Some? && s <= upTo.value)
    && (forall s :: s in stats ==> stats[s] == db[s])
  }

  lemma LoadedNext(db: Stats, stats: Stats, upTo: Option<int>, next: int)
    requires Loaded(db, stats, upTo) && IsNextRecord(db, upTo, next)
    ensures Loaded(db, stats[next := db[next]], Some(next)) && next in db.Keys - stats.Keys
  {
  }

  lemma LoadedAll(db: Stats, stats: Stats, upTo: Option<int>)
    requires Loaded(db, stats, upTo) && forall s :: s in db ==> upTo.Some? && s <= upTo.value
    ensures Same(stats, db)
  {
  }

  /** Loading: the database is read from its first record on, each read starting behind the last. */
  method LoadStats(db: Stats) returns (stats: Stats)
    ensures Same(stats, db)
  {
    hide Loaded, IsNextRecord;
    stats := map[];
    StartLoading(db);
    var slice: Option<int> := None;
    var done := false;
    while !done
      invariant !done ==> Loaded(db, stats, slice)
      invariant done ==> Same(stats, db)
      decreases !done, db.Keys - stats.Keys
    {
      var next := NextRecord(db, slice);
      if next.None? {
        LoadedAll(db, stats, slice);
        done := true;
      } else {
        LoadedNext(db, stats, slice, next.value);
        InDatabase(db, slice, next.value);
        ghost var left := db.Keys - stats.Keys;
        assert next.value in left;
        stats := stats[next.value := db[next.value]];
        assert next.value !in db.Keys - stats.Keys;
        slice := next;
      }
    }
  }

  lemma InDatabase(db: Stats, after: Option<int>, next: int)
    requires IsNextRecord(db, after, next)
    ensures next in db
  {
  }

  lemma StartLoading(db: Stats)
    ensures Loaded(db, map[], None)
  {
  }

  /** Loading what was written restores the table exactly when the database held no slice that the table did not have. */
  lemma WrittenStatsLoad(stats: Stats, db: Stats, db': Stats, loaded: Stats)
    requires Merged(db', db, stats) && Same(loaded, db')
    ensures Same(loaded, stats) <==> forall s :: s in db ==> s in stats
  {
  }
}
