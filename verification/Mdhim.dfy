/**
  The client operations over all range servers: every key is sent to the server of its slice, a
  bulk operation as one message per server, and together the servers behave as one map.
 */
module Mdhim {
  import opened Options
  import opened Division
  import opened Partitioner
  import opened KeySlices
  import opened RangeServer
  import SliceStats

  const MAX_BULK_OPS := 1000000

  /** The index of the server a valid key belongs to. */
  function Route(key: Key, recs: nat, n: nat): (i: nat)
    requires recs > 0 && n > 0 && ValidKey(key, recs)
    ensures i < n
  {
    SliceInRange(key, recs);
    ServerOf(GetSliceNum(key, recs), n) - 1
  }

  predicate GoesTo(key: Key, recs: nat, n: nat, i: nat)
    requires recs > 0 && n > 0
  {
    ValidKey(key, recs) && Route(key, recs, n) == i
  }

  /** The elements whose keys go to server i, in order. */
  function Sub<T>(xs: seq<T>, keyOf: T -> Key, recs: nat, n: nat, i: nat): seq<T>
    requires recs > 0 && n > 0
  {
    if xs == [] then []
    else
      var last := xs[|xs| - 1];
      Sub(xs[..|xs| - 1], keyOf, recs, n, i) + (if GoesTo(keyOf(last), recs, n, i) then [last] else [])
  }

  /** The elements with valid keys, in order. */
  function ValidOnes<T>(xs: seq<T>, keyOf: T -> Key, recs: nat): seq<T>
    requires recs > 0
  {
    if xs == [] then []
    else
      var last := xs[|xs| - 1];
      ValidOnes(xs[..|xs| - 1], keyOf, recs) + (if ValidKey(keyOf(last), recs) then [last] else [])
  }

  /** The rank that serves a slice, in numbers: the slices take turns over the multiples of the factor. */
  predicate GoesToRank(size: nat, factor: nat, slice: nat, rank: nat)
    requires size > 0 && factor > 0
  {
    rank == if size - 1 < factor then size - 1 else slice % ((size - 1) / factor + 1) * factor
  }

  lemma RankOfSlice(size: nat, factor: nat, slice: nat)
    requires size > 0 && factor > 0 && NumRangeServers(size, factor) > 0
    ensures GoesToRank(size, factor, slice, RankOf(size, factor, ServerOf(slice, NumRangeServers(size, factor))))
  {
    hide NumRangeServers;
    ServersCounted(size, factor);
    RemainderIsMod(slice, NumRangeServers(size, factor));
  }

  function RecordKey(r: Record): Key {
    r.key
  }

  function Self(key: Key): Key {
    key
  }

  // ---------------------------------------------------------------- many stores as one map

  /** Every key is in the store of its server and in no other, and the map has what the stores have. */
  ghost predicate Partitioned(stores: seq<Store>, model: Store, recs: nat)
    requires recs > 0 && |stores| > 0
  {
    && (forall i, k {:trigger k in stores[i]} :: 0 <= i < |stores| && k in stores[i] ==> GoesTo(k, recs, |stores|, i))
    && (forall k {:trigger k in model} :: k in model ==> ValidKey(k, recs))
    && (forall k {:trigger ValidKey(k, recs)} :: ValidKey(k, recs) ==> SameFor(stores[Route(k, recs, |stores|)], model, k))
  }

  ghost predicate SameFor(a: Store, b: Store, k: Key) {
    (k in a <==> k in b) && Lookup(a, k) == Lookup(b, k)
  }

  lemma {:induction false} SubWithKey(rs: seq<Record>, recs: nat, n: nat, key: Key, i: nat)
    requires recs > 0 && n > 0
    ensures WithKey(Sub(rs, RecordKey, recs, n, i), key) == if GoesTo(key, recs, n, i) then WithKey(rs, key) else []
    ensures WithKey(ValidOnes(rs, RecordKey, recs), key) == if ValidKey(key, recs) then WithKey(rs, key) else []
  {
    if rs != [] {
      var last := |rs| - 1;
      SubWithKey(rs[..last], recs, n, key, i);
      WithKeySnoc(Sub(rs[..last], RecordKey, recs, n, i), rs[last], key);
      WithKeySnoc(ValidOnes(rs[..last], RecordKey, recs), rs[last], key);
    }
  }

  lemma WithKeySnoc(rs: seq<Record>, r: Record, key: Key)
    ensures WithKey(rs + [r], key) == WithKey(rs, key) + (if r.key == key then [r.value] else [])
    ensures WithKey(rs + [], key) == WithKey(rs, key)
  {
    assert (rs + [r])[..|rs|] == rs && rs + [] == rs;
  }

  lemma PutValue(append: bool, model: Store, r: Record)
    ensures AfterPut(append, model, r) == model[r.key := if append && r.key in model then model[r.key] + r.value else r.value]
  {
    assert [] + r.value == r.value;
  }

  /** A key after a bulk put: the last record that has it decides, put on top of what was there before the batch; a key
      that no record has stays as it was. */
  lemma BulkPutOf(append: bool, recs: nat, model: Store, rs: seq<Record>, key: Key, i: nat)
    requires recs > 0 && ValidKey(key, recs) && i <= |rs|
    requires i < |rs| ==> rs[i].key == key
    requires forall j :: 0 <= j < |rs| && (i < j || i == |rs|) ==> rs[j].key != key
    ensures var after := AfterBulkPut(append, model, ValidOnes(rs, RecordKey, recs));
            if i == |rs| then (key in after <==> key in model) && (key in model ==> after[key] == model[key])
            else key in after && after[key] == if append && key in model then model[key] + rs[i].value else rs[i].value
  {
    hide AfterBulkPut, WithKey, ValidOnes, ValidKey, Appended, Sub, GoesTo, RecordKey;
    var valid := ValidOnes(rs, RecordKey, recs);
    SubWithKey(rs, recs, 1, key, 0);
    BulkPerKey(append, model, valid, key);
    if i < |rs| {
      LastWithKey(rs, i);
      AppendedOnce(append, Lookup(model, key), rs[i].value);
      assert [] + rs[i].value == rs[i].value;
    } else {
      NoneWithKey(rs, key);
    }
  }

  lemma AppendedOnce(append: bool, old': Value, v: Value)
    ensures Appended(append, old', [v]) == if append then old' + v else v
  {
    AppendedSnoc(append, old', [], v);
    NothingAppended(append, old');
    assert [] + [v] == [v];
  }

  /** Bulk puts to the servers, each of its own records, make one bulk put to the map. */
  lemma BulkPutPartitioned(append: bool, stores: seq<Store>, model: Store, stores': seq<Store>, rs: seq<Record>, recs: nat)
    requires recs > 0 && |stores| == |stores'| > 0 && Partitioned(stores, model, recs)
    requires forall i :: 0 <= i < |stores| ==>
               stores'[i] == AfterBulkPut(append, stores[i], Sub(rs, RecordKey, recs, |stores|, i))
    ensures Partitioned(stores', AfterBulkPut(append, model, ValidOnes(rs, RecordKey, recs)), recs)
  {
    hide AfterBulkPut, Lookup, WithKey, Route;
    var n, valid := |stores|, ValidOnes(rs, RecordKey, recs);
    var model' := AfterBulkPut(append, model, valid);
    forall i, k {:trigger k in stores'[i]} | 0 <= i < n && k in stores'[i]
      ensures GoesTo(k, recs, n, i)
    {
      BulkPerKey(append, stores[i], Sub(rs, RecordKey, recs, n, i), k);
      SubWithKey(rs, recs, n, k, i);
    }
    forall k {:trigger k in model'} | k in model'
      ensures ValidKey(k, recs)
    {
      BulkPerKey(append, model, valid, k);
      SubWithKey(rs, recs, n, k, 0);
    }
    forall k {:trigger ValidKey(k, recs)} | ValidKey(k, recs)
      ensures SameFor(stores'[Route(k, recs, n)], model', k)
    {
      var i := Route(k, recs, n);
      assert SameFor(stores[i], model, k);
      BulkPerKey(append, stores[i], Sub(rs, RecordKey, recs, n, i), k);
      BulkPerKey(append, model, valid, k);
      SubWithKey(rs, recs, n, k, i);
    }
  }

  lemma {:induction false} SubHolds(keys: seq<Key>, recs: nat, n: nat, key: Key, i: nat)
    requires recs > 0 && n > 0
    ensures key in Sub(keys, Self, recs, n, i) <==> key in keys && GoesTo(key, recs, n, i)
    ensures key in ValidOnes(keys, Self, recs) <==> key in keys && ValidKey(key, recs)
  {
    if keys != [] {
      SubHolds(keys[..|keys| - 1], recs, n, key, i);
    }
  }

  /** Bulk deletes at the servers make one bulk delete from the map. */
  lemma BulkDeletePartitioned(stores: seq<Store>, model: Store, stores': seq<Store>, keys: seq<Key>, recs: nat)
    requires recs > 0 && |stores| == |stores'| > 0 && Partitioned(stores, model, recs)
    requires forall i :: 0 <= i < |stores| ==> stores'[i] == AfterDeletes(stores[i], Sub(keys, Self, recs, |stores|, i))
    ensures Partitioned(stores', AfterDeletes(model, ValidOnes(keys, Self, recs)), recs)
  {
    hide AfterDeletes, Route;
    var n, valid := |stores|, ValidOnes(keys, Self, recs);
    var model' := AfterDeletes(model, valid);
    forall i, k {:trigger k in stores'[i]} | 0 <= i < n && k in stores'[i]
      ensures GoesTo(k, recs, n, i)
    {
      DeletesPerKey(stores[i], Sub(keys, Self, recs, n, i), k);
    }
    forall k {:trigger k in model'} | k in model'
      ensures ValidKey(k, recs)
    {
      DeletesPerKey(model, valid, k);
    }
    forall k {:trigger ValidKey(k, recs)} | ValidKey(k, recs)
      ensures SameFor(stores'[Route(k, recs, n)], model', k)
    {
      var i := Route(k, recs, n);
      assert SameFor(stores[i], model, k);
      DeletesPerKey(stores[i], Sub(keys, Self, recs, n, i), k);
      DeletesPerKey(model, valid, k);
      SubHolds(keys, recs, n, k, i);
    }
  }

  /** Of the map, which has valid keys only, just the keys asked for are deleted. */
  lemma DeletesFromModel(stores: seq<Store>, model: Store, keys: seq<Key>, recs: nat)
    requires recs > 0 && |stores| > 0 && Partitioned(stores, model, recs)
    ensures var after := AfterDeletes(model, ValidOnes(keys, Self, recs));
            forall k :: (k in after <==> k in model && k !in keys) && (k in after ==> after[k] == model[k])
  {
    hide AfterDeletes, ValidOnes, ValidKey;
    var valid := ValidOnes(keys, Self, recs);
    var after := AfterDeletes(model, valid);
    forall k
      ensures (k in after <==> k in model && k !in keys) && (k in after ==> after[k] == model[k])
    {
      DeletesPerKey(model, valid, k);
      SubHolds(keys, recs, 1, k, 0);
    }
  }

  // ---------------------------------------------------------------- the client

  /** One server's answer to a bulk get. */
  datatype Reply = Reply(rank: nat, keys: seq<Key>, values: seq<Value>)

  ghost function Lookups(model: Store, keys: seq<Key>): seq<Value> {
    seq(|keys|, i requires 0 <= i < |keys| => Lookup(model, keys[i]))
  }

  /** All ranks of the communicator and the servers among them; any rank can make a call. */
  class Cluster {
    const size: nat
    const factor: nat
    const recs: nat
    const append: bool
    const numRangesrvs: nat
    const rangesrvs: seq<RangesrvInfo>
    const servers: seq<Server>

    /** What all servers together hold. */
    ghost var Model: Store

    /** The shape of the system, which no operation changes. */
    ghost predicate Configured() {
      && size > 0 && factor > 0 && recs > 0
      && numRangesrvs == NumRangeServers(size, factor) == |servers| > 0
      && rangesrvs == Rangesrvs(Reported(size, factor))
      && (forall i :: 0 <= i < |servers| ==> servers[i].recs == recs && servers[i].append == append)
      && (forall i, j :: 0 <= i < j < |servers| ==> servers[i] != servers[j])
    }

    ghost function Stores(): (stores: seq<Store>)
      reads servers
      ensures |stores| == |servers|
    {
      seq(|servers|, i requires 0 <= i < |servers| reads servers => servers[i].store)
    }

    ghost function Tables(): (tables: seq<Stats>)
      reads servers
      ensures |tables| == |servers|
    {
      seq(|servers|, i requires 0 <= i < |servers| reads servers => servers[i].stats)
    }

    ghost predicate Valid()
      reads this, servers
    {
      Configured() && Partitioned(Stores(), Model, recs) && TrackedIn(Stores(), Tables(), recs)
    }

    /** Every server's statistics are exact about the keys it holds. */
    ghost predicate Counted()
      requires recs > 0
      reads this, servers
    {
      CountedIn(Stores(), Tables(), recs)
    }

    constructor (size: nat, factor: nat, recs: nat, append: bool)
      requires size > 0 && factor > 0 && recs > 0
      ensures Valid() && Model == map[] && Counted()
      ensures this.size == size && this.factor == factor && this.recs == recs && this.append == append
    {
      var n, list := FindServers(size, factor);
      var made := MakeServers(n, append, recs);
      this.size, this.factor, this.recs, this.append := size, factor, recs, append;
      numRangesrvs, rangesrvs, servers, Model := n, list, made, map[];
      new;
      NothingStored(Stores(), Tables(), recs);
    }

    static method FindServers(size: nat, factor: nat) returns (n: nat, list: seq<RangesrvInfo>)
      requires size > 0 && factor > 0
      ensures n == NumRangeServers(size, factor) > 0 && list == Rangesrvs(Reported(size, factor))
    {
      MultiplesCount(size - 1, factor);
      n := GetNumRangeServers(size, factor);
      var master;
      list, master := GetRangesrvs(Reported(size, factor));
    }

    static method MakeServers(n: nat, append: bool, recs: nat) returns (made: seq<Server>)
      ensures |made| == n
      ensures forall i :: 0 <= i < n ==>
                made[i].recs == recs && made[i].append == append && made[i].store == map[] && made[i].stats == map[]
      ensures forall i, j :: 0 <= i < j < n ==> made[i] != made[j]
    {
      made := [];
      while |made| < n
        invariant |made| <= n
        invariant forall i :: 0 <= i < |made| ==>
                    made[i].recs == recs && made[i].append == append && made[i].store == map[] && made[i].stats == map[]
        invariant forall i, j :: 0 <= i < j < |made| ==> made[i] != made[j]
      {
        var server := new Server(append, recs);
        made := made + [server];
      }
    }

    /** The server a key belongs to, by way of the server list. */
    method GetRangeServer(key: Key) returns (ri: Option<RangesrvInfo>)
      requires Configured()
      ensures ri.None? <==> !ValidKey(key, recs)
      ensures ri.Some? ==> ri.value.rangesrvNum == Route(key, recs, numRangesrvs) + 1
                           && ri.value.rank == RankOf(size, factor, ri.value.rangesrvNum) < size
      ensures ri.Some? ==> GoesToRank(size, factor, GetSliceNum(key, recs), ri.value.rank)
    {
      var sliceNum := GetSliceNum(key, recs);
      SliceInRange(key, recs);
      if sliceNum == MDHIM_ERROR {
        return None;
      }
      ri := GetRangeServerBySlice(rangesrvs, numRangesrvs, sliceNum);
      ghost var k := ServerOf(sliceNum, numRangesrvs);
      ghost var info := RangesrvInfo(RankOf(size, factor, k), k);
      RoutingIsTotal(size, factor, sliceNum, info);
      assert info in rangesrvs;
      if ri.Some? {
        RoutingIsTotal(size, factor, sliceNum, ri.value);
      }
      ServersAreNumbered(size, factor, k, 0);
      RankOfSlice(size, factor, sliceNum);
    }

    /** The server that a message to a rank reaches. */
    method ServerAt(at: nat, ghost k: nat) returns (server: Server)
      requires Configured() && 1 <= k <= numRangesrvs && at == RankOf(size, factor, k) < size
      ensures server == servers[k - 1]
    {
      ServersAreNumbered(size, factor, k, at);
      server := servers[IsRangeServer(size, factor, numRangesrvs, at) - 1];
    }

    /** One record, to the rank that is server k. */
    method SendPut(k: nat, at: nat, r: Record)
      requires Configured() && 1 <= k <= numRangesrvs && at == RankOf(size, factor, k) < size
      modifies servers
      ensures Stores() == old(Stores())[k - 1 := AfterPut(append, old(Stores())[k - 1], r)]
      ensures Tables() == old(Tables())[k - 1 := UpdateStats(old(Tables())[k - 1], old(Stores())[k - 1], [r], recs)]
    {
      hide AfterPut, UpdateStats;
      var server := ServerAt(at, k);
      server.Put(r);
    }

    /** A put reaches the server of its key and extends the map, or is refused and changes nothing. */
    method Put(r: Record) returns (accepted: bool)
      requires Valid()
      modifies this`Model, servers
      ensures Valid() && (accepted <==> ValidKey(r.key, recs))
      ensures match r.key
              case IntKey(value) => accepted <==> value < 2147483647 * recs
              case StringKey(chars) =>
                accepted <==> |chars| <= 262144 && forall i :: 0 <= i < |chars| ==>
                  '0' <= chars[i] <= '9' || 'A' <= chars[i] <= 'Z' || 'a' <= chars[i] <= 'z' || (i == |chars| - 1 && chars[i] == '\0')
      ensures Model == if accepted then AfterPut(append, old(Model), r) else old(Model)
      ensures accepted ==>
                Model == old(Model)[r.key := if append && r.key in old(Model) then old(Model)[r.key] + r.value else r.value]
      ensures Counted() <==> old(Counted()) && KeepsCounted(append, recs, old(Model), PutCall(r))
    {
      hide CountedIn, TrackedIn, UpdateStats, AfterPut, Partitioned, RankOf, ValidKey, GoesToRank;
      ValidKeys(r.key, recs);
      PutValue(append, Model, r);
      var ri := GetRangeServer(r.key);
      if ri.None? {
        return false;
      }
      ghost var stores, tables := Stores(), Tables();
      SendPut(ri.value.rangesrvNum, ri.value.rank, r);
      PutCounted(append, stores, tables, Model, r, recs);
      PutPartitioned(append, stores, Model, Stores(), r, recs);
      Model := AfterPut(append, Model, r);
      return true;
    }

    /** One key, to the rank that is server k. */
    method SendDelete(k: nat, at: nat, key: Key)
      requires Configured() && 1 <= k <= numRangesrvs && at == RankOf(size, factor, k) < size
      modifies servers
      ensures Stores() == old(Stores())[k - 1 := old(Stores())[k - 1] - {key}] && Tables() == old(Tables())
    {
      var server := ServerAt(at, k);
      server.Delete(key);
    }

    /** A delete reaches the server of its key, or is refused; the statistics are left alone. */
    method Delete(key: Key) returns (accepted: bool)
      requires Valid()
      modifies this`Model, servers
      ensures Valid() && (accepted <==> ValidKey(key, recs))
      ensures Model == if accepted then old(Model) - {key} else old(Model)
      ensures Counted() <==> old(Counted()) && KeepsCounted(append, recs, old(Model), DeleteCall(key))
    {
      hide CountedIn, TrackedIn, Partitioned, RankOf;
      var ri := GetRangeServer(key);
      if ri.None? {
        return false;
      }
      ghost var stores := Stores();
      SendDelete(ri.value.rangesrvNum, ri.value.rank, key);
      DeleteCounted(stores, Tables(), Model, key, recs);
      DeletePartitioned(stores, Model, Stores(), key, recs);
      Model := Model - {key};
      return true;
    }

    /** A get with equality answers as the map does; a key without a slice gets no answer. */
    method Get(key: Key) returns (value: Option<Value>)
      requires Valid()
      ensures value == if ValidKey(key, recs) then Some(Lookup(Model, key)) else None
    {
      var ri := GetRangeServer(key);
      if ri.None? {
        return None;
      }
      var server := ServerAt(ri.value.rank, ri.value.rangesrvNum);
      var values := server.BulkGet([key]);
      assert SameFor(Stores()[Route(key, recs, numRangesrvs)], Model, key);
      return Some(values[0]);
    }

    /** The index of a rank's own server, -1 when it is none. */
    function Own(rank: nat): int
      requires Configured()
    {
      IsRangeServer(size, factor, numRangesrvs, rank) - 1
    }

    /** The messages of a bulk operation, one for every other server and one for the rank itself, from one pass over the records. */
    method Distribute<T>(rank: nat, xs: seq<T>, keyOf: T -> Key) returns (lists: array<seq<T>>, local: seq<T>)
      requires Configured() && rank < size
      ensures fresh(lists) && lists.Length == numRangesrvs && Distributed(lists[..], local, Own(rank), xs, keyOf, recs, numRangesrvs)
    {
      hide Distributed;
      lists := new seq<T>[numRangesrvs](_ => []);
      local := [];
      NothingDistributed(lists[..], Own(rank), keyOf, recs, numRangesrvs);
      assert xs[..0] == [];
      for j := 0 to |xs|
        invariant Distributed(lists[..], local, Own(rank), xs[..j], keyOf, recs, numRangesrvs)
      {
        ghost var before := lists[..];
        DistributedStep(before, local, Own(rank), xs, j, keyOf, recs, numRangesrvs);
        var ri := GetRangeServer(keyOf(xs[j]));
        if ri.None? {
          continue;
        }
        ServersAreNumbered(size, factor, ri.value.rangesrvNum, rank);
        var i := ri.value.rangesrvNum - 1;
        if ri.value.rank != rank {
          lists[i] := lists[i] + [xs[j]];
          assert lists[..] == before[i := before[i] + [xs[j]]];
        } else {
          local := local + [xs[j]];
        }
      }
      assert xs[..|xs|] == xs;
    }

    /** One message, to the rank that is server k. */
    method SendBulkPut(ghost k: nat, at: nat, rs: seq<Record>)
      requires Configured() && 1 <= k <= numRangesrvs && at == RankOf(size, factor, k) < size
      modifies servers
      ensures Stores() == old(Stores())[k - 1 := AfterBulkPut(append, old(Stores())[k - 1], rs)]
      ensures Tables() == old(Tables())[k - 1 := UpdateStats(old(Tables())[k - 1], old(Stores())[k - 1], rs, recs)]
    {
      hide AfterBulkPut, UpdateStats;
      var server := ServerAt(at, k);
      server.BulkPut(rs);
    }

    /** One message to every server that has records in the list of messages. */
    method SendBulkPuts(lists: array<seq<Record>>)
      requires Configured() && lists.Length == numRangesrvs
      modifies servers
      ensures AllPut(append, recs, old(Stores()), old(Tables()), lists[..], Stores(), Tables())
    {
      hide AfterBulkPut, UpdateStats, RankOf, IsRangeServer;
      ghost var stores, tables := Stores(), Tables();
      ghost var stores', tables' := stores, tables;
      for i := 0 to numRangesrvs
        modifies servers
        invariant stores' == Stores() && tables' == Tables()
        invariant forall j :: 0 <= j < numRangesrvs ==>
                    stores'[j] == if j < i then AfterBulkPut(append, stores[j], lists[j]) else stores[j]
        invariant forall j :: 0 <= j < numRangesrvs ==>
                    tables'[j] == if j < i then UpdateStats(tables[j], stores[j], lists[j], recs) else tables[j]
      {
        NothingPut(append, stores[i], tables[i], recs);
        if lists[i] != [] {
          ServersAreNumbered(size, factor, i + 1, 0);
          SendBulkPut(i + 1, RankOf(size, factor, i + 1), lists[i]);
          tables' := tables'[i := UpdateStats(tables'[i], stores'[i], lists[i], recs)];
          stores' := stores'[i := AfterBulkPut(append, stores'[i], lists[i])];
        }
      }
    }

    method SendBulkDelete(ghost k: nat, at: nat, keys: seq<Key>)
      requires Configured() && 1 <= k <= numRangesrvs && at == RankOf(size, factor, k) < size
      modifies servers
      ensures Stores() == old(Stores())[k - 1 := AfterDeletes(old(Stores())[k - 1], keys)] && Tables() == old(Tables())
    {
      hide AfterDeletes;
      var server := ServerAt(at, k);
      server.BulkDelete(keys);
    }

    method SendBulkDeletes(lists: array<seq<Key>>)
      requires Configured() && lists.Length == numRangesrvs
      modifies servers
      ensures AllDeleted(old(Stores()), lists[..], Stores()) && Tables() == old(Tables())
    {
      hide AfterDeletes, RankOf, IsRangeServer;
      ghost var stores := Stores();
      ghost var stores' := stores;
      for i := 0 to numRangesrvs
        modifies servers
        invariant stores' == Stores() && Tables() == old(Tables())
        invariant forall j :: 0 <= j < numRangesrvs ==> stores'[j] == if j < i then AfterDeletes(stores[j], lists[j]) else stores[j]
      {
        NothingDeleted(stores[i]);
        if lists[i] != [] {
          ServersAreNumbered(size, factor, i + 1, 0);
          SendBulkDelete(i + 1, RankOf(size, factor, i + 1), lists[i]);
          stores' := stores'[i := AfterDeletes(stores'[i], lists[i])];
        }
      }
    }

    /** A bulk put: too many records are refused; otherwise those with valid keys reach their servers and extend the map. */
    method BulkPut(rank: nat, rs: seq<Record>) returns (accepted: bool)
      requires Valid() && rank < size
      modifies this`Model, servers
      ensures Valid() && (accepted <==> |rs| <= 1000000)
      ensures Model == if accepted then AfterBulkPut(append, old(Model), ValidOnes(rs, RecordKey, recs)) else old(Model)
      ensures Counted() <==> old(Counted()) && KeepsCounted(append, recs, old(Model), BulkPutCall(rs))
    {
      hide Partitioned, AfterBulkPut, UpdateStats, CountedIn, TrackedIn, SliceStats.CountsRight, Sub, ValidOnes;
      if |rs| > MAX_BULK_OPS {
        return false;
      }
      ghost var stores, tables := Stores(), Tables();
      SendAllPuts(rank, rs);
      BulkPutPartitioned(append, stores, Model, Stores(), rs, recs);
      BulkPutCounted(append, recs, stores, tables, Model, Stores(), Tables(), rs);
      Model := AfterBulkPut(append, Model, ValidOnes(rs, RecordKey, recs));
      return true;
    }

    /** The messages to the other servers, and then the own one. */
    method SendAllPuts(rank: nat, rs: seq<Record>)
      requires Configured() && rank < size
      modifies servers
      ensures forall i :: 0 <= i < numRangesrvs ==>
                Stores()[i] == AfterBulkPut(append, old(Stores())[i], Sub(rs, RecordKey, recs, numRangesrvs, i))
      ensures forall i :: 0 <= i < numRangesrvs ==>
                Tables()[i] == UpdateStats(old(Tables())[i], old(Stores())[i], Sub(rs, RecordKey, recs, numRangesrvs, i), recs)
    {
      hide AfterBulkPut, UpdateStats, Distributed, RankOf, IsRangeServer, AllPut, Sub;
      ghost var stores, tables := Stores(), Tables();
      var lists, local := Distribute(rank, rs, RecordKey);
      ghost var own := Own(rank);
      SendBulkPuts(lists);
      ghost var stores', tables' := Stores(), Tables();
      if local != [] {
        LocalIs(lists[..], local, own, rs, RecordKey, recs, numRangesrvs);
        ServersAreNumbered(size, factor, own + 1, rank);
        SendBulkPut(own + 1, rank, local);
      }
      LocalPutLast(append, recs, stores, tables, lists[..], stores', tables', local, own, rs, Stores(), Tables());
    }

    method BulkDelete(rank: nat, keys: seq<Key>) returns (accepted: bool)
      requires Valid() && rank < size
      modifies this`Model, servers
      ensures Valid() && (accepted <==> |keys| <= 1000000)
      ensures Model == if accepted then AfterDeletes(old(Model), ValidOnes(keys, Self, recs)) else old(Model)
      ensures accepted ==> forall k :: k in Model <==> k in old(Model) && k !in keys
      ensures forall k :: k in Model ==> k in old(Model) && Model[k] == old(Model)[k]
      ensures Counted() <==> old(Counted()) && KeepsCounted(append, recs, old(Model), BulkDeleteCall(keys))
    {
      hide Partitioned, AfterDeletes, CountedIn, TrackedIn, Sub, ValidOnes;
      if |keys| > MAX_BULK_OPS {
        return false;
      }
      ghost var stores := Stores();
      SendAllDeletes(rank, keys);
      BulkDeletePartitioned(stores, Model, Stores(), keys, recs);
      BulkDeleteCounted(recs, stores, Tables(), Model, Stores(), keys);
      DeletesFromModel(stores, Model, keys, recs);
      Model := AfterDeletes(Model, ValidOnes(keys, Self, recs));
      return true;
    }

    method SendAllDeletes(rank: nat, keys: seq<Key>)
      requires Configured() && rank < size
      modifies servers
      ensures forall i :: 0 <= i < numRangesrvs ==>
                Stores()[i] == AfterDeletes(old(Stores())[i], Sub(keys, Self, recs, numRangesrvs, i))
      ensures Tables() == old(Tables())
    {
      hide AfterDeletes, Distributed, RankOf, IsRangeServer, AllDeleted, Sub;
      ghost var stores := Stores();
      var lists, local := Distribute(rank, keys, Self);
      ghost var own := Own(rank);
      SendBulkDeletes(lists);
      ghost var stores' := Stores();
      if local != [] {
        LocalIs(lists[..], local, own, keys, Self, recs, numRangesrvs);
        ServersAreNumbered(size, factor, own + 1, rank);
        SendBulkDelete(own + 1, rank, local);
      }
      LocalDeletedLast(recs, stores, lists[..], stores', local, own, keys, Stores());
    }

    /** What each server says to a bulk get, whether it is asked or not. */
    ghost function Answers(keys: seq<Key>): (all: seq<Reply>)
      requires Configured()
      reads this
      ensures |all| == numRangesrvs
    {
      seq(numRangesrvs, i requires 0 <= i < numRangesrvs reads this => AnswerOf(keys, i))
    }

    ghost function AnswerOf(keys: seq<Key>, i: nat): Reply
      requires Configured() && i < numRangesrvs
      reads this
    {
      var sub := Sub(keys, Self, recs, numRangesrvs, i);
      Reply(RankOf(size, factor, i + 1), sub, Lookups(Model, sub))
    }

    /** A bulk get: the answers of the servers that have keys, the local one first. */
    method BulkGet(rank: nat, keys: seq<Key>) returns (accepted: bool, replies: seq<Reply>)
      requires Valid() && rank < size
      ensures accepted <==> |keys| <= 1000000
      ensures replies == if accepted then Replies(Answers(keys), Own(rank)) else []
    {
      hide Partitioned, Distributed, RankOf, IsRangeServer, Others, Answers;
      if |keys| > MAX_BULK_OPS {
        return false, [];
      }
      var lists, local := Distribute(rank, keys, Self);
      ghost var own := Own(rank);
      IsDistributed(lists[..], local, own, keys, Self, recs, numRangesrvs);
      replies := AskOthers(keys, lists, own);
      if 0 <= own < numRangesrvs {
        AnswersAt(keys, own);
      }
      if local != [] {
        ServersAreNumbered(size, factor, own + 1, rank);
        var reply := Ask(rank, keys, local, own);
        replies := [reply] + replies;
      }
      return true, replies;
    }

    /** One message to every server that has keys in the list of messages. */
    method AskOthers(ghost keys: seq<Key>, lists: array<seq<Key>>, ghost own: int) returns (replies: seq<Reply>)
      requires Valid() && lists.Length == numRangesrvs
      requires forall i {:trigger lists[i]} :: 0 <= i < numRangesrvs ==>
                 lists[i] == if i == own then [] else Sub(keys, Self, recs, numRangesrvs, i)
      ensures replies == Others(Answers(keys), own)
    {
      hide Partitioned, RankOf, Others, Answers, AnswerOf;
      ghost var all := Answers(keys);
      replies := [];
      OthersNone(all, own);
      for i := 0 to numRangesrvs
        invariant replies == Others(all[..i], own)
      {
        OthersSnoc(all, i, own);
        AnswersAt(keys, i);
        if lists[i] != [] {
          ServersAreNumbered(size, factor, i + 1, 0);
          var reply := Ask(RankOf(size, factor, i + 1), keys, lists[i], i);
          replies := replies + [reply];
        }
      }
      assert all[..numRangesrvs] == all;
    }

    lemma AnswersAt(keys: seq<Key>, i: nat)
      requires Configured() && i < numRangesrvs
      ensures Answers(keys)[i] == AnswerOf(keys, i) && AnswerOf(keys, i).keys == Sub(keys, Self, recs, numRangesrvs, i)
    {
    }

    method Ask(at: nat, ghost all: seq<Key>, keys: seq<Key>, ghost i: nat) returns (reply: Reply)
      requires Valid() && i < numRangesrvs && at == RankOf(size, factor, i + 1) < size
      requires keys == Sub(all, Self, recs, numRangesrvs, i)
      ensures reply == AnswerOf(all, i)
    {
      hide Lookup;
      var server := ServerAt(at, i + 1);
      var values := server.BulkGet(keys);
      reply := Reply(at, keys, values);
      forall j | 0 <= j < |keys|
        ensures values[j] == Lookup(Model, keys[j])
      {
        SubHolds(all, recs, numRangesrvs, keys[j], i);
        assert keys[j] in keys;
        assert SameFor(Stores()[Route(keys[j], recs, numRangesrvs)], Model, keys[j]);
      }
      assert values == Lookups(Model, keys);
    }

    /** The answers to a bulk get are those of the servers that have keys, each once, and every valid
        key is answered with the map's value. */
    lemma BulkGetAnswersAll(rank: nat, keys: seq<Key>)
      requires Configured() && rank < size
      ensures var replies := Replies(Answers(keys), Own(rank));
              && (forall r :: r in replies <==> r.keys != [] && r in Answers(keys))
              && (forall a, b :: 0 <= a < b < |replies| ==>
                    replies[b].rank != rank && (replies[a].rank == rank || replies[a].rank < replies[b].rank))
      ensures forall key :: key in keys && ValidKey(key, recs) ==>
                Found(Replies(Answers(keys), Own(rank)), key, Lookup(Model, key))
    {
      hide RankOf, IsRangeServer, Lookup, Route;
      var all, own := Answers(keys), Own(rank);
      forall i | 0 <= i < |all|
        ensures all[i].rank == rank <==> i == own
      {
        ServersAreNumbered(size, factor, i + 1, rank);
      }
      forall i, j | 0 <= i < j < |all|
        ensures all[i].rank < all[j].rank
      {
        RanksIncrease(size, factor, i + 1, j + 1);
      }
      RepliesAre(all, own, rank);
      forall key | key in keys && ValidKey(key, recs)
        ensures Found(Replies(all, own), key, Lookup(Model, key))
      {
        var i := Route(key, recs, numRangesrvs);
        SubHolds(keys, recs, numRangesrvs, key, i);
        var m :| 0 <= m < |all[i].keys| && all[i].keys[m] == key;
        assert all[i] in all && all[i] in Replies(all, own);
        assert FoundAt(all[i], m, key, Lookup(Model, key));
      }
    }
  }

  /** The answers with keys of all servers but one. */
  function Others(all: seq<Reply>, own: int): seq<Reply> {
    if all == [] then []
    else
      var last := |all| - 1;
      Others(all[..last], own) + (if last != own && all[last].keys != [] then [all[last]] else [])
  }

  lemma OthersNone(all: seq<Reply>, own: int)
    ensures Others(all[..0], own) == []
  {
  }

  lemma OthersSnoc(all: seq<Reply>, i: nat, own: int)
    requires i < |all|
    ensures Others(all[..i + 1], own) == Others(all[..i], own) + (if i != own && all[i].keys != [] then [all[i]] else [])
  {
    assert all[..i + 1][..i] == all[..i];
  }

  /** What a bulk get returns: the own answer before the others. */
  function Replies(all: seq<Reply>, own: int): seq<Reply> {
    (if 0 <= own < |all| && all[own].keys != [] then [all[own]] else []) + Others(all, own)
  }

  ghost predicate FoundAt(r: Reply, m: nat, key: Key, value: Value) {
    m < |r.keys| == |r.values| && r.keys[m] == key && r.values[m] == value
  }

  ghost predicate Found(replies: seq<Reply>, key: Key, value: Value) {
    exists r, m :: r in replies && FoundAt(r, m, key, value)
  }

  ghost predicate InRankOrder(all: seq<Reply>) {
    forall i, j :: 0 <= i < j < |all| ==> all[i].rank < all[j].rank
  }

  lemma {:induction false} OthersAre(all: seq<Reply>, own: int)
    ensures forall r :: r in Others(all, own) <==> r.keys != [] && exists i :: 0 <= i < |all| && i != own && all[i] == r
  {
    if all != [] {
      OthersAre(all[..|all| - 1], own);
    }
  }

  lemma {:induction false} OthersInOrder(all: seq<Reply>, own: int)
    requires InRankOrder(all)
    ensures InRankOrder(Others(all, own))
  {
    if all != [] {
      var last := |all| - 1;
      OthersInOrder(all[..last], own);
      OthersAre(all[..last], own);
      var before := Others(all[..last], own);
      forall a | 0 <= a < |before|
        ensures before[a].rank < all[last].rank
      {
        assert before[a] in before;
      }
    }
  }

  lemma RepliesAre(all: seq<Reply>, own: int, rank: nat)
    requires InRankOrder(all) && forall i :: 0 <= i < |all| ==> (all[i].rank == rank <==> i == own)
    ensures forall r :: r in Replies(all, own) <==> r.keys != [] && r in all
    ensures forall b :: 0 < b < |Replies(all, own)| ==> Replies(all, own)[b].rank != rank
    ensures forall a, b :: 0 <= a < b < |Replies(all, own)| ==>
              Replies(all, own)[a].rank == rank || Replies(all, own)[a].rank < Replies(all, own)[b].rank
  {
    OthersAre(all, own);
    OthersInOrder(all, own);
    var others := Others(all, own);
    forall a | 0 <= a < |others|
      ensures others[a].rank != rank
    {
      assert others[a] in others;
    }
  }

  lemma IsDistributed<T>(sent: seq<seq<T>>, local: seq<T>, own: int, xs: seq<T>, keyOf: T -> Key, recs: nat, n: nat)
    requires recs > 0 && n > 0 && Distributed(sent, local, own, xs, keyOf, recs, n)
    ensures |sent| == n
    ensures forall i {:trigger sent[i]} :: 0 <= i < n ==> sent[i] == if i == own then [] else Sub(xs, keyOf, recs, n, i)
    ensures local == if 0 <= own < n then Sub(xs, keyOf, recs, n, own) else []
  {
  }

  lemma LocalIs<T>(sent: seq<seq<T>>, local: seq<T>, own: int, xs: seq<T>, keyOf: T -> Key, recs: nat, n: nat)
    requires recs > 0 && n > 0 && Distributed(sent, local, own, xs, keyOf, recs, n) && local != []
    ensures |sent| == n && 0 <= own < n && sent[own] == [] && local == Sub(xs, keyOf, recs, n, own)
  {
  }

  /** Every server has done the bulk put of its message, in its store and in its statistics. */
  ghost predicate AllPut(append: bool, recs: nat, stores: seq<Store>, tables: seq<Stats>, lists: seq<seq<Record>>,
                         stores': seq<Store>, tables': seq<Stats>)
    requires recs > 0
  {
    && |stores| == |tables| == |lists| == |stores'| == |tables'|
    && (forall j :: 0 <= j < |stores| ==> stores'[j] == AfterBulkPut(append, stores[j], lists[j]))
    && (forall j :: 0 <= j < |stores| ==> tables'[j] == UpdateStats(tables[j], stores[j], lists[j], recs))
  }

  ghost predicate AllDeleted(stores: seq<Store>, lists: seq<seq<Key>>, stores': seq<Store>) {
    && |stores| == |lists| == |stores'|
    && forall j :: 0 <= j < |stores| ==> stores'[j] == AfterDeletes(stores[j], lists[j])
  }

  lemma NothingPut(append: bool, store: Store, stats: Stats, recs: nat)
    requires recs > 0
    ensures AfterBulkPut(append, store, []) == store && UpdateStats(stats, store, [], recs) == stats
  {
    assert NewRecords(append, store, []) == [];
  }

  lemma NothingDeleted(store: Store)
    ensures AfterDeletes(store, []) == store
  {
  }

  /** The messages to the others and then the local one: every server has done the bulk put of all its own records. */
  lemma LocalPutLast(append: bool, recs: nat, stores: seq<Store>, tables: seq<Stats>, sent: seq<seq<Record>>,
                     stores': seq<Store>, tables': seq<Stats>, local: seq<Record>, own: int, rs: seq<Record>,
                     stores'': seq<Store>, tables'': seq<Stats>)
    requires recs > 0 && |stores| > 0 && AllPut(append, recs, stores, tables, sent, stores', tables')
    requires Distributed(sent, local, own, rs, RecordKey, recs, |stores|)
    requires local == [] ==> stores'' == stores' && tables'' == tables'
    requires local != [] ==> 0 <= own < |stores|
                             && stores'' == stores'[own := AfterBulkPut(append, stores'[own], local)]
                             && tables'' == tables'[own := UpdateStats(tables'[own], stores'[own], local, recs)]
    ensures |stores''| == |tables''| == |tables| == |stores|
    ensures forall i :: 0 <= i < |stores| ==>
              stores''[i] == AfterBulkPut(append, stores[i], Sub(rs, RecordKey, recs, |stores|, i))
    ensures forall i :: 0 <= i < |stores| ==>
              tables''[i] == UpdateStats(tables[i], stores[i], Sub(rs, RecordKey, recs, |stores|, i), recs)
  {
    hide AfterBulkPut, UpdateStats, Sub;
    forall i | 0 <= i < |stores|
      ensures stores''[i] == AfterBulkPut(append, stores[i], Sub(rs, RecordKey, recs, |stores|, i))
      ensures tables''[i] == UpdateStats(tables[i], stores[i], Sub(rs, RecordKey, recs, |stores|, i), recs)
    {
      NothingPut(append, stores[i], tables[i], recs);
      assert sent[i] == if i == own then [] else Sub(rs, RecordKey, recs, |stores|, i);
    }
  }

  lemma LocalDeletedLast(recs: nat, stores: seq<Store>, sent: seq<seq<Key>>, stores': seq<Store>, local: seq<Key>, own: int,
                         keys: seq<Key>, stores'': seq<Store>)
    requires recs > 0 && |stores| > 0 && AllDeleted(stores, sent, stores')
    requires Distributed(sent, local, own, keys, Self, recs, |stores|)
    requires local == [] ==> stores'' == stores'
    requires local != [] ==> 0 <= own < |stores| && stores'' == stores'[own := AfterDeletes(stores'[own], local)]
    ensures |stores''| == |stores|
    ensures forall i :: 0 <= i < |stores| ==> stores''[i] == AfterDeletes(stores[i], Sub(keys, Self, recs, |stores|, i))
  {
    hide AfterDeletes, Sub;
    forall i | 0 <= i < |stores|
      ensures stores''[i] == AfterDeletes(stores[i], Sub(keys, Self, recs, |stores|, i))
    {
      NothingDeleted(stores[i]);
      assert sent[i] == if i == own then [] else Sub(keys, Self, recs, |stores|, i);
    }
  }

  // ---------------------------------------------------------------- the servers' statistics

  ghost predicate CountedIn(stores: seq<Store>, tables: seq<Stats>, recs: nat)
    requires recs > 0
  {
    |stores| == |tables| &&
    forall i {:trigger tables[i]} :: 0 <= i < |stores| ==> SliceStats.Exact(tables[i], SliceStats.Present(stores[i]), recs)
  }

  lemma NothingStored(stores: seq<Store>, tables: seq<Stats>, recs: nat)
    requires recs > 0 && |stores| == |tables| > 0
    requires forall i :: 0 <= i < |stores| ==> stores[i] == map[]
    requires forall i :: 0 <= i < |tables| ==> tables[i] == map[]
    ensures Partitioned(stores, map[], recs) && CountedIn(stores, tables, recs) && TrackedIn(stores, tables, recs)
  {
    hide SliceStats.Exact;
    SliceStats.NothingIsExact(recs);
  }

  /** Every server's statistics are exact, or have counted too much for good. */
  ghost predicate TrackedIn(stores: seq<Store>, tables: seq<Stats>, recs: nat)
    requires recs > 0
  {
    |stores| == |tables| &&
    forall i {:trigger tables[i]} :: 0 <= i < |stores| ==> SliceStats.Tracked(tables[i], SliceStats.Present(stores[i]), recs)
  }

  /** A bulk put counts right at every server exactly when it counts right in the map. */
  lemma CountsRightTogether(append: bool, stores: seq<Store>, model: Store, rs: seq<Record>, recs: nat)
    requires recs > 0 && |stores| > 0 && Partitioned(stores, model, recs)
    ensures SliceStats.CountsRight(append, model, ValidOnes(rs, RecordKey, recs)) <==>
            forall i :: 0 <= i < |stores| ==> SliceStats.CountsRight(append, stores[i], Sub(rs, RecordKey, recs, |stores|, i))
  {
    hide SliceStats.CountsRight, SliceStats.KeyCountsRight, Partitioned, ValidOnes, Sub;
    var n, valid := |stores|, ValidOnes(rs, RecordKey, recs);
    SliceStats.CountsRightPerKey(append, model, valid);
    if SliceStats.CountsRight(append, model, valid) {
      forall i | 0 <= i < n
        ensures SliceStats.CountsRight(append, stores[i], Sub(rs, RecordKey, recs, n, i))
      {
        SliceStats.CountsRightPerKey(append, stores[i], Sub(rs, RecordKey, recs, n, i));
        forall key
          ensures SliceStats.KeyCountsRight(append, stores[i], Sub(rs, RecordKey, recs, n, i), key)
        {
          KeyCountsTogether(append, stores, model, rs, recs, i, key);
        }
      }
    }
    if forall i :: 0 <= i < n ==> SliceStats.CountsRight(append, stores[i], Sub(rs, RecordKey, recs, n, i)) {
      forall key
        ensures SliceStats.KeyCountsRight(append, model, valid, key)
      {
        InvalidKeyCounts(append, model, rs, recs, n, key);
        if ValidKey(key, recs) {
          var i := Route(key, recs, n);
          SliceStats.CountsRightPerKey(append, stores[i], Sub(rs, RecordKey, recs, n, i));
          KeyCountsTogether(append, stores, model, rs, recs, i, key);
        }
      }
    }
  }

  lemma KeyCountsTogether(append: bool, stores: seq<Store>, model: Store, rs: seq<Record>, recs: nat, i: nat, key: Key)
    requires recs > 0 && |stores| > 0 && Partitioned(stores, model, recs) && i < |stores|
    ensures SliceStats.KeyCountsRight(append, stores[i], Sub(rs, RecordKey, recs, |stores|, i), key) <==>
              (GoesTo(key, recs, |stores|, i) ==> SliceStats.KeyCountsRight(append, model, ValidOnes(rs, RecordKey, recs), key))
  {
    hide SliceStats.KeyCountsRight, Route;
    SubWithKey(rs, recs, |stores|, key, i);
    if GoesTo(key, recs, |stores|, i) {
      assert SameFor(stores[i], model, key);
      SliceStats.SameForKey(append, stores[i], Sub(rs, RecordKey, recs, |stores|, i), model, ValidOnes(rs, RecordKey, recs), key);
    } else {
      AbsentKeyCounts(append, stores[i], Sub(rs, RecordKey, recs, |stores|, i), key);
    }
  }

  lemma AbsentKeyCounts(append: bool, store: Store, rs: seq<Record>, key: Key)
    requires WithKey(rs, key) == []
    ensures SliceStats.KeyCountsRight(append, store, rs, key)
  {
  }

  lemma InvalidKeyCounts(append: bool, model: Store, rs: seq<Record>, recs: nat, n: nat, key: Key)
    requires recs > 0 && n > 0
    ensures !ValidKey(key, recs) ==> SliceStats.KeyCountsRight(append, model, ValidOnes(rs, RecordKey, recs), key)
    ensures ValidKey(key, recs) ==> GoesTo(key, recs, n, Route(key, recs, n))
  {
    hide SliceStats.KeyCountsRight;
    SubWithKey(rs, recs, n, key, 0);
    if !ValidKey(key, recs) {
      AbsentKeyCounts(append, model, ValidOnes(rs, RecordKey, recs), key);
    }
  }

  /** A bulk put, split among the servers, leaves all statistics exact exactly when they were and it counts right. */
  lemma BulkPutCounted(append: bool, recs: nat, stores: seq<Store>, tables: seq<Stats>, model: Store,
                       stores': seq<Store>, tables': seq<Stats>, rs: seq<Record>)
    requires recs > 0 && |stores| == |stores'| == |tables'| > 0
    requires TrackedIn(stores, tables, recs) && Partitioned(stores, model, recs)
    requires forall i :: 0 <= i < |stores| ==>
               stores'[i] == AfterBulkPut(append, stores[i], Sub(rs, RecordKey, recs, |stores|, i))
    requires forall i :: 0 <= i < |stores| ==>
               tables'[i] == UpdateStats(tables[i], stores[i], Sub(rs, RecordKey, recs, |stores|, i), recs)
    ensures TrackedIn(stores', tables', recs)
    ensures CountedIn(stores', tables', recs) <==>
              CountedIn(stores, tables, recs) && SliceStats.CountsRight(append, model, ValidOnes(rs, RecordKey, recs))
  {
    hide AfterBulkPut, UpdateStats, Sub, SliceStats.Exact, SliceStats.Tracked, SliceStats.Present, SliceStats.CountsRight, Partitioned;
    CountsRightTogether(append, stores, model, rs, recs);
    forall i {:trigger tables'[i]} | 0 <= i < |stores|
      ensures SliceStats.Tracked(tables'[i], SliceStats.Present(stores'[i]), recs)
      ensures SliceStats.Exact(tables'[i], SliceStats.Present(stores'[i]), recs) <==>
                SliceStats.Exact(tables[i], SliceStats.Present(stores[i]), recs)
                && SliceStats.CountsRight(append, stores[i], Sub(rs, RecordKey, recs, |stores|, i))
    {
      SliceStats.BulkPutTracks(append, stores[i], tables[i], Sub(rs, RecordKey, recs, |stores|, i), recs);
    }
    assert forall i :: 0 <= i < |stores| ==> tables[i] == tables[i] && tables'[i] == tables'[i];
  }

  /** One server's part changes, the others stay. */
  lemma OneServerCounts(stores: seq<Store>, tables: seq<Stats>, i: nat, store: Store, stats: Stats, recs: nat, right: bool)
    requires recs > 0 && TrackedIn(stores, tables, recs) && i < |stores|
    requires SliceStats.Tracked(stats, SliceStats.Present(store), recs)
    requires SliceStats.Exact(stats, SliceStats.Present(store), recs) <==>
               SliceStats.Exact(tables[i], SliceStats.Present(stores[i]), recs) && right
    ensures TrackedIn(stores[i := store], tables[i := stats], recs)
    ensures CountedIn(stores[i := store], tables[i := stats], recs) <==> CountedIn(stores, tables, recs) && right
  {
    hide SliceStats.Exact, SliceStats.Tracked, SliceStats.Present;
    var stores', tables' := stores[i := store], tables[i := stats];
    assert forall j :: 0 <= j < |tables| && j != i ==> tables'[j] == tables[j] && stores'[j] == stores[j];
    if CountedIn(stores', tables', recs) {
      assert tables'[i] == stats;
      forall j {:trigger tables[j]} | 0 <= j < |stores|
        ensures SliceStats.Exact(tables[j], SliceStats.Present(stores[j]), recs)
      {
        assert SliceStats.Exact(tables'[j], SliceStats.Present(stores'[j]), recs);
      }
    }
  }

  lemma PutCounted(append: bool, stores: seq<Store>, tables: seq<Stats>, model: Store, r: Record, recs: nat)
    requires recs > 0 && |stores| > 0 && TrackedIn(stores, tables, recs) && Partitioned(stores, model, recs) && ValidKey(r.key, recs)
    ensures var i := Route(r.key, recs, |stores|);
            var stores', tables' := stores[i := AfterPut(append, stores[i], r)],
                                    tables[i := UpdateStats(tables[i], stores[i], [r], recs)];
            && TrackedIn(stores', tables', recs)
            && (CountedIn(stores', tables', recs) <==> CountedIn(stores, tables, recs) && NewValue(append, model, r) != [])
  {
    hide AfterBulkPut, UpdateStats, SliceStats.Exact, SliceStats.Tracked, SliceStats.Present, SliceStats.CountsRight, Route;
    var i := Route(r.key, recs, |stores|);
    assert SameFor(stores[i], model, r.key);
    assert SliceStats.Tracked(tables[i], SliceStats.Present(stores[i]), recs);
    SliceStats.PutIsBulkPut(append, stores[i], r);
    SliceStats.PutCountsRight(append, stores[i], r);
    SliceStats.BulkPutTracks(append, stores[i], tables[i], [r], recs);
    OneServerCounts(stores, tables, i, AfterPut(append, stores[i], r), UpdateStats(tables[i], stores[i], [r], recs), recs,
                    NewValue(append, model, r) != []);
  }

  lemma DeleteCounted(stores: seq<Store>, tables: seq<Stats>, model: Store, key: Key, recs: nat)
    requires recs > 0 && |stores| > 0 && TrackedIn(stores, tables, recs) && Partitioned(stores, model, recs) && ValidKey(key, recs)
    ensures var i := Route(key, recs, |stores|);
            var stores' := stores[i := stores[i] - {key}];
            && TrackedIn(stores', tables, recs)
            && (CountedIn(stores', tables, recs) <==> CountedIn(stores, tables, recs) && !Exists(model, key))
  {
    hide SliceStats.Exact, SliceStats.Tracked, SliceStats.Present, Route;
    var i := Route(key, recs, |stores|);
    assert SameFor(stores[i], model, key);
    assert SliceStats.Tracked(tables[i], SliceStats.Present(stores[i]), recs);
    SliceStats.OneDelete(stores[i], key);
    SliceStats.DeletesTrack(stores[i], tables[i], [key], recs);
    assert key in [key];
    OneServerCounts(stores, tables, i, stores[i] - {key}, tables[i], recs, !Exists(model, key));
    assert tables[i := tables[i]] == tables;
  }

  lemma BulkDeleteCounted(recs: nat, stores: seq<Store>, tables: seq<Stats>, model: Store, stores': seq<Store>, keys: seq<Key>)
    requires recs > 0 && |stores| == |stores'| > 0
    requires TrackedIn(stores, tables, recs) && Partitioned(stores, model, recs)
    requires forall i :: 0 <= i < |stores| ==> stores'[i] == AfterDeletes(stores[i], Sub(keys, Self, recs, |stores|, i))
    ensures TrackedIn(stores', tables, recs)
    ensures CountedIn(stores', tables, recs) <==>
              CountedIn(stores, tables, recs) && AllAbsent(model, ValidOnes(keys, Self, recs))
  {
    hide AfterDeletes, Sub, ValidOnes, SliceStats.Exact, SliceStats.Tracked, SliceStats.Present, Partitioned, Exists;
    forall i {:trigger tables[i]} | 0 <= i < |stores|
      ensures SliceStats.Tracked(tables[i], SliceStats.Present(stores'[i]), recs)
      ensures SliceStats.Exact(tables[i], SliceStats.Present(stores'[i]), recs) <==>
                SliceStats.Exact(tables[i], SliceStats.Present(stores[i]), recs)
                && AllAbsent(stores[i], Sub(keys, Self, recs, |stores|, i))
    {
      SliceStats.DeletesTrack(stores[i], tables[i], Sub(keys, Self, recs, |stores|, i), recs);
    }
    AbsentTogether(stores, model, keys, recs);
    if CountedIn(stores', tables, recs) {
      forall i | 0 <= i < |stores|
        ensures AllAbsent(stores[i], Sub(keys, Self, recs, |stores|, i))
      {
        assert SliceStats.Exact(tables[i], SliceStats.Present(stores'[i]), recs);
      }
    }
  }

  lemma AbsentTogether(stores: seq<Store>, model: Store, keys: seq<Key>, recs: nat)
    requires recs > 0 && |stores| > 0 && Partitioned(stores, model, recs)
    ensures AllAbsent(model, ValidOnes(keys, Self, recs)) <==>
            forall i :: 0 <= i < |stores| ==> AllAbsent(stores[i], Sub(keys, Self, recs, |stores|, i))
  {
    hide Sub, ValidOnes, Partitioned, Exists;
    var valid := ValidOnes(keys, Self, recs);
    if AllAbsent(model, valid) {
      forall i, k | 0 <= i < |stores| && k in Sub(keys, Self, recs, |stores|, i)
        ensures !Exists(stores[i], k)
      {
        AtItsServer(stores, model, keys, recs, k, i);
      }
    } else {
      var k :| k in valid && Exists(model, k);
      SubHolds(keys, recs, |stores|, k, 0);
      var i := Route(k, recs, |stores|);
      SubHolds(keys, recs, |stores|, k, i);
      AtItsServer(stores, model, keys, recs, k, i);
      assert !AllAbsent(stores[i], Sub(keys, Self, recs, |stores|, i));
    }
  }

  ghost predicate AllAbsent(store: Store, keys: seq<Key>) {
    forall k :: k in keys ==> !Exists(store, k)
  }

  lemma AtItsServer(stores: seq<Store>, model: Store, keys: seq<Key>, recs: nat, k: Key, i: nat)
    requires recs > 0 && |stores| > 0 && Partitioned(stores, model, recs) && i < |stores|
    ensures k in Sub(keys, Self, recs, |stores|, i) ==> k in ValidOnes(keys, Self, recs) && (Exists(stores[i], k) <==> Exists(model, k))
  {
    hide Sub, ValidOnes, Route;
    SubHolds(keys, recs, |stores|, k, i);
    if GoesTo(k, recs, |stores|, i) {
      assert SameFor(stores[i], model, k);
    }
  }

  /** What belongs to the own server is in the local message, everything else in the message of its server. */
  ghost predicate Distributed<T>(lists: seq<seq<T>>, local: seq<T>, own: int, xs: seq<T>, keyOf: T -> Key, recs: nat, n: nat)
    requires recs > 0 && n > 0
  {
    && |lists| == n
    && (forall i {:trigger lists[i]} :: 0 <= i < n ==> lists[i] == if i == own then [] else Sub(xs, keyOf, recs, n, i))
    && local == if 0 <= own < n then Sub(xs, keyOf, recs, n, own) else []
  }

  lemma NothingDistributed<T>(lists: seq<seq<T>>, own: int, keyOf: T -> Key, recs: nat, n: nat)
    requires recs > 0 && n > 0 && |lists| == n && forall i :: 0 <= i < n ==> lists[i] == []
    ensures Distributed(lists, [], own, [], keyOf, recs, n)
  {
  }

  lemma DistributedStep<T>(lists: seq<seq<T>>, local: seq<T>, own: int, xs: seq<T>, j: nat, keyOf: T -> Key, recs: nat, n: nat)
    requires recs > 0 && n > 0 && j < |xs| && Distributed(lists, local, own, xs[..j], keyOf, recs, n)
    ensures |lists| == n
    ensures !ValidKey(keyOf(xs[j]), recs) ==> Distributed(lists, local, own, xs[..j + 1], keyOf, recs, n)
    ensures ValidKey(keyOf(xs[j]), recs) ==>
              var i := Route(keyOf(xs[j]), recs, n);
              if i == own then Distributed(lists, local + [xs[j]], own, xs[..j + 1], keyOf, recs, n)
              else Distributed(lists[i := lists[i] + [xs[j]]], local, own, xs[..j + 1], keyOf, recs, n)
  {
    hide Route;
    assert xs[..j + 1][..j] == xs[..j];
  }

  lemma PutPartitioned(append: bool, stores: seq<Store>, model: Store, stores': seq<Store>, r: Record, recs: nat)
    requires recs > 0 && |stores| == |stores'| > 0 && Partitioned(stores, model, recs) && ValidKey(r.key, recs)
    requires var i := Route(r.key, recs, |stores|); stores' == stores[i := AfterPut(append, stores[i], r)]
    ensures Partitioned(stores', AfterPut(append, model, r), recs)
  {
    hide Route;
    var i := Route(r.key, recs, |stores|);
    var model' := AfterPut(append, model, r);
    forall k {:trigger ValidKey(k, recs)} | ValidKey(k, recs)
      ensures SameFor(stores'[Route(k, recs, |stores|)], model', k)
    {
      assert SameFor(stores[Route(k, recs, |stores|)], model, k);
      OnePut(append, stores[i], r, k);
      OnePut(append, model, r, k);
    }
    forall j, k {:trigger k in stores'[j]} | 0 <= j < |stores| && k in stores'[j]
      ensures GoesTo(k, recs, |stores|, j)
    {
      OnePut(append, stores[i], r, k);
    }
    forall k {:trigger k in model'} | k in model'
      ensures ValidKey(k, recs)
    {
      OnePut(append, model, r, k);
    }
  }

  lemma DeletePartitioned(stores: seq<Store>, model: Store, stores': seq<Store>, key: Key, recs: nat)
    requires recs > 0 && |stores| == |stores'| > 0 && Partitioned(stores, model, recs) && ValidKey(key, recs)
    requires var i := Route(key, recs, |stores|); stores' == stores[i := stores[i] - {key}]
    ensures Partitioned(stores', model - {key}, recs)
  {
    hide Route;
    forall k {:trigger ValidKey(k, recs)} | ValidKey(k, recs)
      ensures SameFor(stores'[Route(k, recs, |stores|)], model - {key}, k)
    {
      assert SameFor(stores[Route(k, recs, |stores|)], model, k);
    }
  }

  // ---------------------------------------------------------------- runs of client calls

  datatype Call = PutCall(record: Record) | BulkPutCall(records: seq<Record>) | DeleteCall(key: Key) | BulkDeleteCall(keys: seq<Key>)

  /** What one call does to the map, as the client's methods state it. */
  ghost function Called(append: bool, recs: nat, model: Store, call: Call): Store
    requires recs > 0
  {
    match call
    case PutCall(r) => if ValidKey(r.key, recs) then AfterPut(append, model, r) else model
    case BulkPutCall(rs) => if |rs| <= MAX_BULK_OPS then AfterBulkPut(append, model, ValidOnes(rs, RecordKey, recs)) else model
    case DeleteCall(key) => if ValidKey(key, recs) then model - {key} else model
    case BulkDeleteCall(keys) => if |keys| <= MAX_BULK_OPS then AfterDeletes(model, ValidOnes(keys, Self, recs)) else model
  }

  /** A call that exact statistics stay exact under: one that is refused; a put whose new value is not empty; a bulk put
      in which no new key is repeated and after which every key of it is present; a delete of absent keys. */
  ghost predicate KeepsCounted(append: bool, recs: nat, model: Store, call: Call)
    requires recs > 0
  {
    match call
    case PutCall(r) => ValidKey(r.key, recs) ==> NewValue(append, model, r) != []
    case BulkPutCall(rs) => |rs| <= MAX_BULK_OPS ==> SliceStats.CountsRight(append, model, ValidOnes(rs, RecordKey, recs))
    case DeleteCall(key) => ValidKey(key, recs) ==> !Exists(model, key)
    case BulkDeleteCall(keys) => |keys| <= MAX_BULK_OPS ==> AllAbsent(model, ValidOnes(keys, Self, recs))
  }

  /** No such call makes a key absent. */
  lemma CountedCallKeepsKeys(append: bool, recs: nat, model: Store, call: Call)
    requires recs > 0 && KeepsCounted(append, recs, model, call)
    ensures SliceStats.Present(model) <= SliceStats.Present(Called(append, recs, model, call))
  {
    hide AfterBulkPut, AfterDeletes, ValidOnes, ValidKey;
    match call
    case PutCall(_) =>
    case BulkPutCall(rs) =>
      SliceStats.PresentAfterBulkPut(append, model, ValidOnes(rs, RecordKey, recs));
    case DeleteCall(_) =>
    case BulkDeleteCall(keys) =>
      SliceStats.PresentAfterDeletes(model, ValidOnes(keys, Self, recs));
  }

  lemma {:induction false} CountedRunKeepsKeys(append: bool, recs: nat, model: Store, calls: seq<Call>)
    requires recs > 0
    requires forall k :: 0 <= k < |calls| ==> KeepsCounted(append, recs, Run(append, recs, model, calls[..k]), calls[k])
    ensures SliceStats.Present(model) <= SliceStats.Present(Run(append, recs, model, calls))
  {
    hide KeepsCounted, Called, SliceStats.Present;
    if calls != [] {
      var init := calls[..|calls| - 1];
      forall k | 0 <= k < |init|
        ensures KeepsCounted(append, recs, Run(append, recs, model, init[..k]), init[k])
      {
        assert init[..k] == calls[..k] && init[k] == calls[k];
      }
      CountedRunKeepsKeys(append, recs, model, init);
      CountedCallKeepsKeys(append, recs, Run(append, recs, model, init), calls[|calls| - 1]);
    }
  }

  ghost function Run(append: bool, recs: nat, model: Store, calls: seq<Call>): Store
    requires recs > 0
  {
    if calls == [] then model else Called(append, recs, Run(append, recs, model, calls[..|calls| - 1]), calls[|calls| - 1])
  }

  ghost function PutCalls(rs: seq<Record>): seq<Call> {
    if rs == [] then [] else PutCalls(rs[..|rs| - 1]) + [PutCall(rs[|rs| - 1])]
  }

  ghost function DeleteCalls(keys: seq<Key>): seq<Call> {
    if keys == [] then [] else DeleteCalls(keys[..|keys| - 1]) + [DeleteCall(keys[|keys| - 1])]
  }

  /** The single calls a bulk call stands for. */
  ghost function Singles(call: Call): seq<Call> {
    match call
    case BulkPutCall(rs) => if |rs| <= MAX_BULK_OPS then PutCalls(rs) else []
    case BulkDeleteCall(keys) => if |keys| <= MAX_BULK_OPS then DeleteCalls(keys) else []
    case _ => [call]
  }

  ghost function OneByOne(calls: seq<Call>): seq<Call> {
    if calls == [] then [] else OneByOne(calls[..|calls| - 1]) + Singles(calls[|calls| - 1])
  }

  lemma {:induction false} RunConcat(append: bool, recs: nat, model: Store, a: seq<Call>, b: seq<Call>)
    requires recs > 0
    ensures Run(append, recs, model, a + b) == Run(append, recs, Run(append, recs, model, a), b)
  {
    if b == [] {
      assert a + b == a;
    } else {
      RunConcat(append, recs, model, a, b[..|b| - 1]);
      assert (a + b)[..|a + b| - 1] == a + b[..|b| - 1];
    }
  }

  lemma RunSnoc(append: bool, recs: nat, model: Store, calls: seq<Call>, call: Call)
    requires recs > 0
    ensures Run(append, recs, model, calls + [call]) == Called(append, recs, Run(append, recs, model, calls), call)
  {
    hide Called;
    assert (calls + [call])[..|calls|] == calls;
  }

  lemma ValidOnesLast<T>(xs: seq<T>, keyOf: T -> Key, recs: nat)
    requires recs > 0 && xs != []
    ensures var init, last := ValidOnes(xs[..|xs| - 1], keyOf, recs), xs[|xs| - 1];
            ValidOnes(xs, keyOf, recs) == if ValidKey(keyOf(last), recs) then init + [last] else init
  {
    var init := ValidOnes(xs[..|xs| - 1], keyOf, recs);
    assert init + [] == init;
  }

  lemma {:induction false} PutsOneByOne(append: bool, recs: nat, model: Store, rs: seq<Record>)
    requires recs > 0
    ensures Run(append, recs, model, PutCalls(rs)) == AfterPuts(append, model, ValidOnes(rs, RecordKey, recs))
  {
    hide Run, ValidOnes, AfterPut, ValidKey;
    if rs == [] {
      NoCalls(append, recs, model);
    } else {
      var init, last := rs[..|rs| - 1], rs[|rs| - 1];
      PutsOneByOne(append, recs, model, init);
      RunSnoc(append, recs, model, PutCalls(init), PutCall(last));
      ValidOnesLast(rs, RecordKey, recs);
      var before := ValidOnes(init, RecordKey, recs);
      assert (before + [last])[..|before|] == before;
    }
  }

  lemma {:induction false} DeletesOneByOne(append: bool, recs: nat, model: Store, keys: seq<Key>)
    requires recs > 0
    ensures Run(append, recs, model, DeleteCalls(keys)) == AfterDeletes(model, ValidOnes(keys, Self, recs))
  {
    hide Run, ValidOnes, ValidKey;
    if keys == [] {
      NoCalls(append, recs, model);
    } else {
      var init, last := keys[..|keys| - 1], keys[|keys| - 1];
      DeletesOneByOne(append, recs, model, init);
      RunSnoc(append, recs, model, DeleteCalls(init), DeleteCall(last));
      ValidOnesLast(keys, Self, recs);
      var before := ValidOnes(init, Self, recs);
      assert (before + [last])[..|before|] == before;
    }
  }

  lemma NoCalls(append: bool, recs: nat, model: Store)
    requires recs > 0
    ensures Run(append, recs, model, []) == model
    ensures ValidOnes([], RecordKey, recs) == [] && ValidOnes([], Self, recs) == []
  {
  }

  /** Without appending, any run of calls leaves the map as the same single puts and deletes in order do. */
  lemma {:induction false} BulkCallsAreSingleCalls(recs: nat, model: Store, calls: seq<Call>)
    requires recs > 0
    ensures Run(false, recs, model, calls) == Run(false, recs, model, OneByOne(calls))
  {
    if calls != [] {
      var init, call := calls[..|calls| - 1], calls[|calls| - 1];
      BulkCallsAreSingleCalls(recs, model, init);
      var before := Run(false, recs, model, init);
      RunConcat(false, recs, model, OneByOne(init), Singles(call));
      OneCall(recs, before, call);
    }
  }

  lemma OneCall(recs: nat, model: Store, call: Call)
    requires recs > 0
    ensures Called(false, recs, model, call) == Run(false, recs, model, Singles(call))
  {
    match call
    case BulkPutCall(rs) =>
      PutsOneByOne(false, recs, model, rs);
      BulkPutIsPuts(model, ValidOnes(rs, RecordKey, recs));
    case BulkDeleteCall(keys) =>
      DeletesOneByOne(false, recs, model, keys);
    case _ =>
      assert [call][..0] == [] && Run(false, recs, model, [call][..0]) == model;
  }
}
