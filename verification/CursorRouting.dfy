/**
  From the servers' own statistics to the server a cursor operation is sent to: the flush makes one exact
  table out of exact ones, and the slice chosen from it leads to the server that holds the wanted key.
 */
module CursorRouting {
  import opened Options
  import opened Partitioner
  import opened KeySlices
  import opened RangeServer
  import opened SliceStats
  import opened StatFlush
  import Mdhim

  /** The entries a server sends are those of its statistics. */
  ghost predicate Lists(table: seq<Entry>, stats: Stats) {
    && (forall e :: e in table ==> e.slice in stats && stats[e.slice] == e.stat)
    && (forall s {:trigger s in stats} :: s in stats ==> Entry(s, stats[s]) in table)
  }

  /** Every server's statistics are exact about its own keys, which are those of all the keys that belong to it. */
  ghost predicate Serving(tables: seq<seq<Entry>>, stats: seq<Stats>, keys: seq<set<Key>>, all: set<Key>, recs: nat)
    requires recs > 0
  {
    && |tables| == |stats| == |keys| > 0
    && (forall i {:trigger stats[i]} :: 0 <= i < |stats| ==> Lists(tables[i], stats[i]) && Exact(stats[i], keys[i], recs))
    && (forall i, k {:trigger k in keys[i]} :: 0 <= i < |keys| && k in keys[i] ==> k in all && Mdhim.GoesTo(k, recs, |keys|, i))
    && (forall k {:trigger k in all} :: k in all ==> ValidKey(k, recs) && k in keys[Mdhim.Route(k, recs, |keys|)])
  }

  /** The keys of a slice are all with the server of the slice, and no other server has an entry for it. */
  lemma SliceAtServer(tables: seq<seq<Entry>>, stats: seq<Stats>, keys: seq<set<Key>>, all: set<Key>, recs: nat, s: int, i: nat)
    requires recs > 0 && Serving(tables, stats, keys, all, recs) && i < |keys|
    ensures InSlice(keys[i], s, recs) != {} ==>
              InSlice(all, s, recs) == InSlice(keys[i], s, recs) && s >= 0 && ServerOf(s, |keys|) == i + 1
  {
    if k :| k in InSlice(keys[i], s, recs) {
      SliceInRange(k, recs);
      assert k in keys[i] && Mdhim.GoesTo(k, recs, |keys|, i);
      forall l
        ensures l in InSlice(all, s, recs) <==> l in InSlice(keys[i], s, recs)
      {
        if l in InSlice(all, s, recs) {
          assert l in all && Mdhim.Route(l, recs, |keys|) == Mdhim.Route(k, recs, |keys|);
        }
        if l in InSlice(keys[i], s, recs) {
          assert l in keys[i];
        }
      }
    }
  }

  /** A key of the slice is with some server. */
  lemma SliceSomewhere(tables: seq<seq<Entry>>, stats: seq<Stats>, keys: seq<set<Key>>, all: set<Key>, recs: nat, s: int)
    returns (i: nat)
    requires recs > 0 && Serving(tables, stats, keys, all, recs) && InSlice(all, s, recs) != {}
    ensures i < |keys| && InSlice(keys[i], s, recs) != {}
  {
    var k :| k in InSlice(all, s, recs);
    assert k in all;
    i := Mdhim.Route(k, recs, |keys|);
    assert k in InSlice(keys[i], s, recs);
  }

  /** No slice has entries at two servers. */
  lemma ServingHasOneOwner(tables: seq<seq<Entry>>, stats: seq<Stats>, keys: seq<set<Key>>, all: set<Key>, recs: nat)
    requires recs > 0 && Serving(tables, stats, keys, all, recs)
    ensures OneOwner(tables)
  {
    forall i, j, e, f | 0 <= i < |tables| && 0 <= j < |tables| && e in tables[i] && f in tables[j] && e.slice == f.slice
      ensures e == f
    {
      HasKeys(tables, stats, keys, all, recs, i, e);
      HasKeys(tables, stats, keys, all, recs, j, f);
      SliceAtServer(tables, stats, keys, all, recs, e.slice, i);
      SliceAtServer(tables, stats, keys, all, recs, f.slice, j);
    }
  }

  lemma HasKeys(tables: seq<seq<Entry>>, stats: seq<Stats>, keys: seq<set<Key>>, all: set<Key>, recs: nat, i: nat, e: Entry)
    requires recs > 0 && Serving(tables, stats, keys, all, recs) && i < |tables| && e in tables[i]
    ensures e.slice in stats[i] && stats[i][e.slice] == e.stat
    ensures InSlice(keys[i], e.slice, recs) != {} && ExactEntry(e.stat, InSlice(keys[i], e.slice, recs))
  {
    assert Lists(tables[i], stats[i]) && Exact(stats[i], keys[i], recs);
  }

  lemma SliceEntry(tables: seq<seq<Entry>>, stats: seq<Stats>, keys: seq<set<Key>>, all: set<Key>, recs: nat, i: nat, s: int)
    requires recs > 0 && Serving(tables, stats, keys, all, recs) && i < |tables| && InSlice(keys[i], s, recs) != {}
    ensures s in stats[i] && Entry(s, stats[i][s]) in tables[i]
  {
    assert Lists(tables[i], stats[i]) && Exact(stats[i], keys[i], recs);
  }

  /** A table that a flush goes into has no entry for a slice without keys; an empty one has none at all. */
  ghost predicate Current(before: Stats, all: set<Key>, recs: nat)
    requires recs > 0
  {
    forall s {:trigger s in before} :: s in before ==> InSlice(all, s, recs) != {}
  }

  /** What a flush leaves of one slice: the exact entry if it holds keys, and what was there before if it does not. */
  lemma FlushedSlice(tables: seq<seq<Entry>>, stats: seq<Stats>, keys: seq<set<Key>>, all: set<Key>, recs: nat,
                     before: Stats, flushed: Stats, s: int)
    requires recs > 0 && Serving(tables, stats, keys, all, recs) && Flushed(tables, before, flushed)
    ensures InSlice(all, s, recs) != {} ==> s in flushed && ExactEntry(flushed[s], InSlice(all, s, recs))
    ensures InSlice(all, s, recs) == {} ==> (s in flushed <==> s in before)
  {
    hide Serving, InSlice, ExactEntry;
    ServingShape(tables, stats, keys, all, recs);
    if InSlice(all, s, recs) != {} {
      var i := SliceSomewhere(tables, stats, keys, all, recs, s);
      SliceEntry(tables, stats, keys, all, recs, i, s);
      HasKeys(tables, stats, keys, all, recs, i, Entry(s, stats[i][s]));
      SliceAtServer(tables, stats, keys, all, recs, s, i);
    } else {
      forall i, e | 0 <= i < |tables| && e in tables[i]
        ensures e.slice != s
      {
        HasKeys(tables, stats, keys, all, recs, i, e);
        SliceAtServer(tables, stats, keys, all, recs, e.slice, i);
      }
    }
  }

  /** Flushing exact statistics gives exact statistics about all keys together if and only if the table had no entry for a
      slice that holds none. */
  lemma FlushMakesExact(tables: seq<seq<Entry>>, stats: seq<Stats>, keys: seq<set<Key>>, all: set<Key>, recs: nat,
                        before: Stats, flushed: Stats)
    requires recs > 0 && Serving(tables, stats, keys, all, recs) && Flushed(tables, before, flushed)
    ensures Exact(flushed, all, recs) <==> Current(before, all, recs)
  {
    hide Serving, InSlice, ExactEntry, Flushed;
    forall s
      ensures InSlice(all, s, recs) != {} ==> s in flushed && ExactEntry(flushed[s], InSlice(all, s, recs))
      ensures InSlice(all, s, recs) == {} ==> (s in flushed <==> s in before)
    {
      FlushedSlice(tables, stats, keys, all, recs, before, flushed, s);
    }
    if Exact(flushed, all, recs) {
      forall s | s in before
        ensures InSlice(all, s, recs) != {}
      {
        FlushedSlice(tables, stats, keys, all, recs, before, flushed, s);
      }
    }
  }

  lemma EmptyIsCurrent(all: set<Key>, recs: nat)
    requires recs > 0
    ensures Current(map[], all, recs)
  {
  }

  /** While no key goes, a table made by a flush stays fit for the next. */
  lemma FlushedStaysCurrent(flushed: Stats, all: set<Key>, later: set<Key>, recs: nat)
    requires recs > 0 && Exact(flushed, all, recs) && all <= later
    ensures Current(flushed, later, recs)
  {
    hide ExactEntry, GetSliceNum;
    forall s | s in flushed
      ensures InSlice(later, s, recs) != {}
    {
      var k :| k in InSlice(all, s, recs);
      assert k in InSlice(later, s, recs);
    }
  }

  // One flush: what the servers send, what they hold, and the rank's table afterwards.
  datatype Flush = Flush(tables: seq<seq<Entry>>, stats: seq<Stats>, keys: seq<set<Key>>, all: set<Key>, flushed: Stats)

  ghost function TableBefore(flushes: seq<Flush>, i: nat): Stats
    requires i <= |flushes|
  {
    if i == 0 then map[] else flushes[i - 1].flushed
  }

  /** A rank's flushes, one after the other, into its table that was empty at first, while no key goes. */
  ghost predicate Flushes(flushes: seq<Flush>, recs: nat)
    requires recs > 0
  {
    && (forall i {:trigger flushes[i].stats} :: 0 <= i < |flushes| ==>
          Serving(flushes[i].tables, flushes[i].stats, flushes[i].keys, flushes[i].all, recs))
    && (forall i {:trigger flushes[i].flushed} :: 0 <= i < |flushes| ==>
          Flushed(flushes[i].tables, TableBefore(flushes, i), flushes[i].flushed))
    && (forall i {:trigger flushes[i].all} :: 0 < i < |flushes| ==> flushes[i - 1].all <= flushes[i].all)
  }

  /** Each of them goes into a fit table and makes it exact. */
  lemma {:induction false} EveryFlushIsExact(flushes: seq<Flush>, recs: nat, i: nat)
    requires recs > 0 && Flushes(flushes, recs) && i < |flushes|
    ensures Current(TableBefore(flushes, i), flushes[i].all, recs) && Exact(flushes[i].flushed, flushes[i].all, recs)
  {
    hide Serving, Exact, Flushed, Current;
    var f := flushes[i];
    assert flushes[i].stats == f.stats && flushes[i].flushed == f.flushed && flushes[i].all == f.all;
    if i == 0 {
      EmptyIsCurrent(f.all, recs);
    } else {
      EveryFlushIsExact(flushes, recs, i - 1);
      FlushedStaysCurrent(flushes[i - 1].flushed, flushes[i - 1].all, f.all, recs);
    }
    FlushMakesExact(f.tables, f.stats, f.keys, f.all, recs, TableBefore(flushes, i), f.flushed);
  }

  lemma ServingShape(tables: seq<seq<Entry>>, stats: seq<Stats>, keys: seq<set<Key>>, all: set<Key>, recs: nat)
    requires recs > 0 && Serving(tables, stats, keys, all, recs)
    ensures |tables| == |stats| == |keys| > 0
  {
  }

  /** A slice chosen from flushed statistics is none below 0. */
  lemma ChosenSlice(tables: seq<seq<Entry>>, stats: seq<Stats>, keys: seq<set<Key>>, all: set<Key>, recs: nat,
                    before: Stats, flushed: Stats, key: Key, op: CursorOp, slice: int)
    requires recs > 0 && Serving(tables, stats, keys, all, recs) && Flushed(tables, before, flushed)
    requires Current(before, all, recs)
    requires ValidKey(key, recs) && Chosen(flushed, GetSliceNum(key, recs), KeyStat(key), op, slice)
    ensures slice >= 0
  {
    hide Serving, Flushed, KeyStat, GetSliceNum;
    FlushMakesExact(tables, stats, keys, all, recs, before, flushed);
    SliceInRange(key, recs);
    if slice in flushed {
      var k :| k in InSlice(all, slice, recs);
      SliceInRange(k, recs);
      StoredAreValid(tables, stats, keys, all, recs, k);
    }
  }

  lemma StoredAreValid(tables: seq<seq<Entry>>, stats: seq<Stats>, keys: seq<set<Key>>, all: set<Key>, recs: nat, k: Key)
    requires recs > 0 && Serving(tables, stats, keys, all, recs) && k in all
    ensures ValidKey(k, recs)
    ensures forall i :: 0 <= i < |keys| ==> (k in keys[i] <==> i == ServerOf(GetSliceNum(k, recs), |keys|) - 1)
  {
    SliceInRange(k, recs);
    assert k in keys[Mdhim.Route(k, recs, |keys|)];
    forall i | 0 <= i < |keys| && k in keys[i]
      ensures i == ServerOf(GetSliceNum(k, recs), |keys|) - 1
    {
      assert Mdhim.GoesTo(k, recs, |keys|, i);
    }
  }

  /** What the table says of a request about a key with an own slice and a number: it goes to the own slice, or to a
      neighbouring one, or to the 0 that stands for none, of the same server. */
  ghost predicate StaysAtServer(stats: Stats, cur: nat, number: real, op: CursorOp, n: nat)
    requires n > 0
  {
    match op
    case GetNext =>
      || (cur in stats && stats[cur].max > number)
      || (exists s: nat :: IsNext(Some(s), stats, cur) && ServerOf(s, n) == ServerOf(cur, n))
      || (IsNext(None, stats, cur) && ServerOf(0, n) == ServerOf(cur, n))
    case GetPrev =>
      || (cur in stats && stats[cur].min < number)
      || (exists s: nat :: IsPrev(Some(s), stats, cur) && ServerOf(s, n) == ServerOf(cur, n))
      || (IsPrev(None, stats, cur) && ServerOf(0, n) == ServerOf(cur, n))
    case _ => false
  }

  lemma StaysIfChosen(stats: Stats, cur: nat, number: real, op: CursorOp, n: nat, slice: nat)
    requires n > 0 && (op.GetNext? || op.GetPrev?) && Chosen(stats, cur, number, op, slice)
    ensures StaysAtServer(stats, cur, number, op, n) <==> ServerOf(slice, n) == ServerOf(cur, n)
  {
    hide ServerOf;
    if op.GetNext? {
      assert IsNext(Some(slice), stats, cur) || slice == cur || slice == 0;
    } else {
      assert IsPrev(Some(slice), stats, cur) || slice == cur || slice == 0;
    }
  }

  /** A request for the next key, made after a flush, goes to the server that holds the least
      greater key exactly when that key has a greater number or the table keeps the request at the key's own server. */
  lemma NextGoesToItsServer(tables: seq<seq<Entry>>, stats: seq<Stats>, keys: seq<set<Key>>, all: set<Key>, recs: nat,
                            before: Stats, flushed: Stats, key: Key, next: Key, slice: int)
    requires recs > 0 && Serving(tables, stats, keys, all, recs)
    requires Current(before, all, recs) && Flushed(tables, before, flushed)
    requires ValidKey(key, recs) && Keys(all, key, recs) && IsSuccessor(all, key, next)
    requires Chosen(flushed, GetSliceNum(key, recs), KeyStat(key), GetNext, slice)
    ensures slice >= 0 && GetSliceNum(key, recs) >= 0 && |keys| > 0
    ensures next in keys[ServerOf(slice, |keys|) - 1] <==>
              KeyStat(next) > KeyStat(key) || StaysAtServer(flushed, GetSliceNum(key, recs), KeyStat(key), GetNext, |keys|)
  {
    hide Serving, Exact, Chosen, KeyStat, GetSliceNum, KeyLe, Flushed, Current, StaysAtServer;
    ServingShape(tables, stats, keys, all, recs);
    FlushMakesExact(tables, stats, keys, all, recs, before, flushed);
    ChosenSlice(tables, stats, keys, all, recs, before, flushed, key, GetNext, slice);
    SliceInRange(key, recs);
    SuccessorHasNextNumber(all, key, next, recs);
    NextSliceIsRight(flushed, all, key, next, slice, recs);
    StoredAreValid(tables, stats, keys, all, recs, next);
    StaysIfChosen(flushed, GetSliceNum(key, recs), KeyStat(key), GetNext, |keys|, slice);
  }

  lemma PrevGoesToItsServer(tables: seq<seq<Entry>>, stats: seq<Stats>, keys: seq<set<Key>>, all: set<Key>, recs: nat,
                            before: Stats, flushed: Stats, key: Key, prev: Key, slice: int)
    requires recs > 0 && Serving(tables, stats, keys, all, recs)
    requires Current(before, all, recs) && Flushed(tables, before, flushed)
    requires ValidKey(key, recs) && Keys(all, key, recs) && IsPredecessor(all, key, prev)
    requires Chosen(flushed, GetSliceNum(key, recs), KeyStat(key), GetPrev, slice)
    ensures slice >= 0 && GetSliceNum(key, recs) >= 0 && |keys| > 0
    ensures prev in keys[ServerOf(slice, |keys|) - 1] <==>
              KeyStat(prev) < KeyStat(key) || StaysAtServer(flushed, GetSliceNum(key, recs), KeyStat(key), GetPrev, |keys|)
  {
    hide Serving, Exact, Chosen, KeyStat, GetSliceNum, KeyLe, Flushed, Current, StaysAtServer;
    ServingShape(tables, stats, keys, all, recs);
    FlushMakesExact(tables, stats, keys, all, recs, before, flushed);
    ChosenSlice(tables, stats, keys, all, recs, before, flushed, key, GetPrev, slice);
    SliceInRange(key, recs);
    PredecessorHasPrevNumber(all, key, prev, recs);
    PrevSliceIsRight(flushed, all, key, prev, slice, recs);
    StoredAreValid(tables, stats, keys, all, recs, prev);
    StaysIfChosen(flushed, GetSliceNum(key, recs), KeyStat(key), GetPrev, |keys|, slice);
  }

  // ---------------------------------------------------------------- over the running cluster

  /** The server a cursor request goes to, by way of the flushed statistics and the list of servers. */
  method GetRangeServerFromStats(c: Mdhim.Cluster, stats: Stats, order: seq<int>, key: Option<Key>, op: CursorOp)
    returns (ri: Option<RangesrvInfo>, ghost slice: int)
    requires c.Configured() && Meets(order, stats) && forall s :: s in stats ==> s >= 0
    ensures ri.None? <==> stats == map[] || (if key.Some? then !ValidKey(key.value, c.recs) else op.GetNext? || op.GetPrev?)
    ensures ri.Some? ==> slice >= 0 && ri.value.rangesrvNum == ServerOf(slice, c.numRangesrvs)
                         && ri.value.rank == RankOf(c.size, c.factor, ri.value.rangesrvNum) < c.size
    ensures ri.Some? ==> Chosen(stats, if key.Some? then GetSliceNum(key.value, c.recs) else 0,
                                if key.Some? then KeyStat(key.value) else 0.0, op, slice)
  {
    hide GetSliceNum, KeyStat, RankOf, IsRangeServer;
    slice := 0;
    if stats == map[] {
      return None, slice;
    }
    var curSlice, stat := 0, 0.0;
    if key.Some? {
      curSlice := GetSliceNum(key.value, c.recs);
      SliceInRange(key.value, c.recs);
      if curSlice == MDHIM_ERROR {
        return None, slice;
      }
      stat := KeyStat(key.value);
    } else if op.GetNext? || op.GetPrev? {
      return None, slice;
    }
    var sliceNum := GetSliceFromStat(stats, order, curSlice, stat, op);
    slice := sliceNum;
    ri := GetRangeServerBySlice(c.rangesrvs, c.numRangesrvs, sliceNum);
    ghost var k := ServerOf(sliceNum, c.numRangesrvs);
    ghost var info := RangesrvInfo(RankOf(c.size, c.factor, k), k);
    RoutingIsTotal(c.size, c.factor, sliceNum, info);
    assert info in c.rangesrvs;
    RoutingIsTotal(c.size, c.factor, sliceNum, ri.value);
    ServersAreNumbered(c.size, c.factor, k, 0);
  }

  ghost function KeySets(stores: seq<Store>): (sets: seq<set<Key>>)
    ensures |sets| == |stores|
  {
    seq(|stores|, i requires 0 <= i < |stores| => Present(stores[i]))
  }

  /** What the servers of a cluster send in a flush. */
  ghost predicate Sends(c: Mdhim.Cluster, tables: seq<seq<Entry>>)
    reads c.servers
  {
    |tables| == |c.servers| && forall i :: 0 <= i < |tables| ==> Lists(tables[i], c.servers[i].stats)
  }

  /** The servers of a cluster whose calls have kept the statistics exact serve its map. */
  lemma ClusterServes(c: Mdhim.Cluster, tables: seq<seq<Entry>>)
    requires c.Valid() && c.Counted() && Sends(c, tables)
    ensures Serving(tables, c.Tables(), KeySets(c.Stores()), Present(c.Model), c.recs)
  {
    hide Exact, Mdhim.Route, ValidKey, Lists;
    var stores, model, keys := c.Stores(), c.Model, KeySets(c.Stores());
    forall i, k {:trigger k in keys[i]} | 0 <= i < |keys| && k in keys[i]
      ensures k in Present(model) && Mdhim.GoesTo(k, c.recs, |keys|, i)
    {
      assert k in stores[i] && Mdhim.GoesTo(k, c.recs, |stores|, i);
      assert Mdhim.SameFor(stores[i], model, k);
    }
    forall k {:trigger k in Present(model)} | k in Present(model)
      ensures ValidKey(k, c.recs) && k in keys[Mdhim.Route(k, c.recs, |keys|)]
    {
      assert k in model;
      assert Mdhim.SameFor(stores[Mdhim.Route(k, c.recs, |stores|)], model, k);
    }
  }

  /** End to end: after calls that kept the statistics exact and a flush, a request for the next key goes to the server
      whose store holds the map's least greater key, unless that key only adds zeros to the text of the key asked
      about and the table sends the request to another server. */
  lemma NextReachesItsKey(c: Mdhim.Cluster, tables: seq<seq<Entry>>, before: Stats, flushed: Stats, key: Key, next: Key, slice: int)
    requires c.Valid() && c.Counted() && Sends(c, tables)
    requires Current(before, Present(c.Model), c.recs) && Flushed(tables, before, flushed)
    requires ValidKey(key, c.recs) && Keys(Present(c.Model), key, c.recs) && IsSuccessor(Present(c.Model), key, next)
    requires Chosen(flushed, GetSliceNum(key, c.recs), KeyStat(key), GetNext, slice)
    ensures slice >= 0 && GetSliceNum(key, c.recs) >= 0
    ensures var n, k, l := c.numRangesrvs, key, next;
            l in c.servers[ServerOf(slice, n) - 1].store <==>
              || !(k.StringKey? && Text(k.chars) <= Text(l.chars) && Zeros(Text(l.chars)[|Text(k.chars)|..]))
              || StaysAtServer(flushed, GetSliceNum(k, c.recs), KeyStat(k), GetNext, n)
  {
    hide Serving, Chosen, Flushed, GetSliceNum, Exact, Current, StaysAtServer;
    ClusterServes(c, tables);
    var keys := KeySets(c.Stores());
    NextGoesToItsServer(tables, c.Tables(), keys, Present(c.Model), c.recs, before, flushed, key, next, slice);
    NumbersFollowKeys(key, next, c.recs);
    StoredIsPresent(c, next, ServerOf(slice, c.numRangesrvs) - 1);
  }

  /** The mirror image, for the previous key. */
  lemma PrevReachesItsKey(c: Mdhim.Cluster, tables: seq<seq<Entry>>, before: Stats, flushed: Stats, key: Key, prev: Key, slice: int)
    requires c.Valid() && c.Counted() && Sends(c, tables)
    requires Current(before, Present(c.Model), c.recs) && Flushed(tables, before, flushed)
    requires ValidKey(key, c.recs) && Keys(Present(c.Model), key, c.recs) && IsPredecessor(Present(c.Model), key, prev)
    requires Chosen(flushed, GetSliceNum(key, c.recs), KeyStat(key), GetPrev, slice)
    ensures slice >= 0 && GetSliceNum(key, c.recs) >= 0
    ensures var n, k, l := c.numRangesrvs, key, prev;
            l in c.servers[ServerOf(slice, n) - 1].store <==>
              || !(k.StringKey? && Text(l.chars) <= Text(k.chars) && Zeros(Text(k.chars)[|Text(l.chars)|..]))
              || StaysAtServer(flushed, GetSliceNum(k, c.recs), KeyStat(k), GetPrev, n)
  {
    hide Serving, Chosen, Flushed, GetSliceNum, Exact, Current, StaysAtServer;
    ClusterServes(c, tables);
    var keys := KeySets(c.Stores());
    PrevGoesToItsServer(tables, c.Tables(), keys, Present(c.Model), c.recs, before, flushed, key, prev, slice);
    NumbersFollowKeys(prev, key, c.recs);
    StoredIsPresent(c, prev, ServerOf(slice, c.numRangesrvs) - 1);
  }

  /** A request for the first or the last key always goes to the server that holds it. */
  lemma EndReachesItsKey(c: Mdhim.Cluster, tables: seq<seq<Entry>>, before: Stats, flushed: Stats, end: Key, cur: int, stat: real,
                         op: CursorOp, slice: int)
    requires c.Valid() && c.Counted() && Sends(c, tables)
    requires Current(before, Present(c.Model), c.recs) && Flushed(tables, before, flushed)
    requires end in Present(c.Model) && Keys(Present(c.Model), end, c.recs) && (op.GetFirst? || op.GetLast?)
    requires forall k :: k in Present(c.Model) ==> if op.GetFirst? then KeyLe(end, k) else KeyLe(k, end)
    requires Chosen(flushed, cur, stat, op, slice)
    ensures slice >= 0 && end in c.servers[ServerOf(slice, c.numRangesrvs) - 1].store
  {
    hide Serving, Chosen, Flushed, GetSliceNum, Exact, KeyLe, Current;
    ClusterServes(c, tables);
    var keys := KeySets(c.Stores());
    FlushMakesExact(tables, c.Tables(), keys, Present(c.Model), c.recs, before, flushed);
    EndSlicesAreRight(flushed, Present(c.Model), end, cur, stat, op, slice, c.recs);
    SliceInRange(end, c.recs);
    StoredAreValid(tables, c.Tables(), keys, Present(c.Model), c.recs, end);
    StoredIsPresent(c, end, ServerOf(slice, c.numRangesrvs) - 1);
  }

  /** A key of the map is in a server's store exactly when it reads as present there. */
  lemma StoredIsPresent(c: Mdhim.Cluster, k: Key, i: nat)
    requires c.Valid() && k in Present(c.Model) && i < |c.servers|
    ensures k in c.servers[i].store <==> k in KeySets(c.Stores())[i]
  {
    var stores := c.Stores();
    if k in stores[i] {
      assert Mdhim.GoesTo(k, c.recs, |stores|, i);
      assert Mdhim.SameFor(stores[i], c.Model, k);
    }
  }
}
