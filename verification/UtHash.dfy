/**
  The hash table: one set of elements held in a doubly linked list in application order and
  in doubly linked bucket chains.
 */
module UtHash {
  import opened Bits
  import opened UtHashChains
  import opened StableSort
  import opened UtHashSort

  const INITIAL_NUM_BUCKETS := 32
  const INITIAL_NUM_BUCKETS_LOG2 := 5
  const BKT_CAPACITY_THRESH := 10

  datatype Bucket<K> = Bucket(head: Handle?<K>, count: nat, expandMult: nat)

  ghost function Raises<K>(buckets: array<Bucket<K>>): (r: seq<nat>)
    reads buckets
    ensures |r| == buckets.Length && forall b :: 0 <= b < |r| ==> r[b] == buckets[b].expandMult
  {
    seq(buckets.Length, b requires 0 <= b < buckets.Length reads buckets => buckets[b].expandMult)
  }

  /** The ideal length of a chain: items over buckets, rounded up. */
  ghost predicate RoundedUp(ideal: nat, items: nat, buckets: nat) {
    (ideal - 1) * buckets < items <= ideal * buckets
  }

  lemma IdealIsRounded(items: nat, k: nat)
    requires items > 0
    ensures RoundedUp(CeilShift(items, k), items, Pow2(k))
  {
    CeilShiftRoundsUp(items, k);
  }

  lemma AtMostTen(ideal: nat, items: nat, buckets: nat)
    requires RoundedUp(ideal, items, buckets) && buckets > 0 && items <= 10 * buckets
    ensures ideal <= 10
  {
    if ideal > 10 {
      TenTimes(ideal - 1, buckets);
    }
  }

  lemma TenTimes(n: nat, buckets: nat)
    requires n >= 10
    ensures n * buckets >= 10 * buckets
  {
  }

  ghost predicate Nexts<K>(chains: seq<seq<Handle<K>>>, s: set<Handle<K>>)
    reads s`hhNext
  {
    && (forall b, i {:trigger chains[b][i]} :: 0 <= b < |chains| && 0 <= i < |chains[b]| ==> chains[b][i] in s)
    && (forall b, i {:trigger chains[b][i].hhNext} :: 0 <= b < |chains| && 0 <= i < |chains[b]| ==>
          chains[b][i].hhNext == At(chains[b], i + 1))
  }

  ghost predicate Prevs<K>(chains: seq<seq<Handle<K>>>, s: set<Handle<K>>)
    reads s`hhPrev
  {
    && (forall b, i {:trigger chains[b][i]} :: 0 <= b < |chains| && 0 <= i < |chains[b]| ==> chains[b][i] in s)
    && (forall b, i {:trigger chains[b][i].hhPrev} :: 0 <= b < |chains| && 0 <= i < |chains[b]| ==>
          chains[b][i].hhPrev == At(chains[b], i - 1))
  }

  ghost predicate Heads<K>(buckets: array<Bucket<K>>, chains: seq<seq<Handle<K>>>)
    reads buckets
  {
    && buckets.Length == |chains|
    && forall b :: 0 <= b < |chains| ==> buckets[b].head == At(chains[b], 0) && buckets[b].count == |chains[b]|
  }

  /** The chains are linked both ways, hold the elements of s once each, in the bucket of their hash,
      and the buckets know their heads and lengths. */
  ghost predicate Linked<K>(fcn: K -> nat, buckets: array<Bucket<K>>, chains: seq<seq<Handle<K>>>, s: set<Handle<K>>)
    reads buckets, s`hashv, s`hhPrev, s`hhNext
  {
    && Placed(fcn, chains, buckets.Length, s)
    && (forall n :: n in s ==> n.hashv == fcn(n.key))
    && Heads(buckets, chains) && Nexts(chains, s) && Prevs(chains, s)
  }

  ghost predicate HeadAlone<K>(chains: seq<seq<Handle<K>>>, b: nat)
    requires b < |chains| && chains[b] != []
  {
    forall c, j {:trigger chains[c][j]} :: 0 <= c < |chains| && 0 <= j < |chains[c]| && !(c == b && j == 0) ==>
      chains[c][j] != chains[b][0]
  }

  method SetNext<K>(add: Handle<K>, first: Handle?<K>, ghost chains: seq<seq<Handle<K>>>, ghost s: set<Handle<K>>, ghost b: nat)
    requires b < |chains| && add !in s && Nexts(chains, s) && first == At(chains[b], 0)
    modifies add`hhNext
    ensures Nexts(chains[b := [add] + chains[b]], s + {add})
  {
    add.hhNext := first;
    ghost var after: seq<seq<Handle<K>>> := chains[b := [add] + chains[b]];
    forall c, i {:trigger after[c][i]} | 0 <= c < |after| && 0 <= i < |after[c]|
      ensures after[c][i] in s + {add}
      ensures after[c][i].hhNext == At(after[c], i + 1)
    {
      if after[c][i] != add {
        var k := if c == b then i - 1 else i;
        assert after[c][i] == chains[c][k];
        var x := old(chains[c][k].hhNext);
      }
    }
  }

  method SetPrev<K>(add: Handle<K>, first: Handle?<K>, ghost chains: seq<seq<Handle<K>>>, ghost s: set<Handle<K>>, ghost b: nat)
    requires b < |chains| && add !in s && Prevs(chains, s) && first == At(chains[b], 0)
    requires chains[b] != [] ==> HeadAlone(chains, b)
    modifies add`hhPrev, s`hhPrev
    ensures Prevs(chains[b := [add] + chains[b]], s + {add})
  {
    add.hhPrev := null;
    if first != null {
      first.hhPrev := add;
    }
    ghost var after: seq<seq<Handle<K>>> := chains[b := [add] + chains[b]];
    forall c, i {:trigger after[c][i]} | 0 <= c < |after| && 0 <= i < |after[c]|
      ensures after[c][i] in s + {add}
      ensures after[c][i].hhPrev == At(after[c], i - 1)
    {
      if after[c][i] != add {
        var k := if c == b then i - 1 else i;
        assert after[c][i] == chains[c][k];
        var x := old(chains[c][k].hhPrev);
      }
    }
  }

  /** Linking an element in at the front of its chain. */
  method PushFront<K>(ghost fcn: K -> nat, buckets: array<Bucket<K>>, b: nat, add: Handle<K>,
                      ghost chains: seq<seq<Handle<K>>>, ghost s: set<Handle<K>>)
    requires Linked(fcn, buckets, chains, s) && add !in s && add.hashv == fcn(add.key) && b == Slot(add.hashv, buckets.Length)
    modifies buckets, add`hhPrev, add`hhNext, s`hhPrev
    ensures Linked(fcn, buckets, chains[b := [add] + chains[b]], s + {add})
    ensures buckets[b].expandMult == old(buckets[b]).expandMult
    ensures forall c :: 0 <= c < buckets.Length && c != b ==> buckets[c] == old(buckets[c])
  {
    hide Placed, Nexts, Prevs;
    PlacedInsert(fcn, chains, buckets.Length, s, add, b);
    if chains[b] != [] {
      Alone(fcn, chains, buckets.Length, s, b, 0);
    }
    SetNext(add, buckets[b].head, chains, s, b);
    SetPrev(add, buckets[b].head, chains, s, b);
    buckets[b] := buckets[b].(head := add, count := buckets[b].count + 1);
  }

  // Every element of the chains is at one place only, told from a position.
  ghost predicate AloneAt<K>(chains: seq<seq<Handle<K>>>, b: nat, i: nat)
    requires b < |chains| && i < |chains[b]|
  {
    forall c, j {:trigger chains[c][j]} :: 0 <= c < |chains| && 0 <= j < |chains[c]| && !(c == b && j == i) ==>
      chains[c][j] != chains[b][i]
  }

  ghost function Cut<K>(chains: seq<seq<Handle<K>>>, b: nat, i: nat): seq<seq<Handle<K>>>
    requires b < |chains| && i < |chains[b]|
  {
    chains[b := chains[b][..i] + chains[b][i + 1..]]
  }

  lemma AloneOnItsPlace<K>(fcn: K -> nat, chains: seq<seq<Handle<K>>>, count: nat, s: set<Handle<K>>, del: Handle<K>) returns (i: nat)
    requires Placed(fcn, chains, count, s) && del in s
    ensures var b := Slot(fcn(del.key), count);
            && i < |chains[b]| && chains[b][i] == del && Placed(fcn, Cut(chains, b, i), count, s - {del})
            && AloneAt(chains, b, i) && (i > 0 ==> AloneAt(chains, b, i - 1)) && (i + 1 < |chains[b]| ==> AloneAt(chains, b, i + 1))
  {
    var b := Slot(fcn(del.key), count);
    i := PlaceOf(fcn, chains, count, s, del);
    PlacedRemove(fcn, chains, count, s, b, i);
    if i > 0 {
      Alone(fcn, chains, count, s, b, i - 1);
    }
    if i + 1 < |chains[b]| {
      Alone(fcn, chains, count, s, b, i + 1);
    }
  }

  method UnlinkNext<K>(del: Handle<K>, ghost chains: seq<seq<Handle<K>>>, ghost s: set<Handle<K>>, ghost b: nat, ghost i: nat)
    requires b < |chains| && i < |chains[b]| && del == chains[b][i] && Nexts(chains, s)
    requires AloneAt(chains, b, i) && (i > 0 ==> AloneAt(chains, b, i - 1)) && del.hhPrev == At(chains[b], i - 1)
    modifies s`hhNext
    ensures Nexts(Cut(chains, b, i), s - {del}) && del.hhNext == old(del.hhNext)
  {
    assert del.hhNext == chains[b][i].hhNext;
    if del.hhPrev != null {
      del.hhPrev.hhNext := del.hhNext;
    }
    ghost var after: seq<seq<Handle<K>>> := Cut(chains, b, i);
    forall c, j {:trigger after[c][j]} | 0 <= c < |after| && 0 <= j < |after[c]|
      ensures after[c][j] in s - {del}
      ensures after[c][j].hhNext == At(after[c], j + 1)
    {
      ghost var k := if c == b && j >= i then j + 1 else j;
      assert after[c][j] == chains[c][k];
      ghost var x := old(chains[c][k].hhNext);
    }
  }

  method UnlinkPrev<K>(del: Handle<K>, ghost chains: seq<seq<Handle<K>>>, ghost s: set<Handle<K>>, ghost b: nat, ghost i: nat)
    requires b < |chains| && i < |chains[b]| && del == chains[b][i] && Prevs(chains, s)
    requires AloneAt(chains, b, i) && (i + 1 < |chains[b]| ==> AloneAt(chains, b, i + 1)) && del.hhNext == At(chains[b], i + 1)
    modifies s`hhPrev
    ensures Prevs(Cut(chains, b, i), s - {del})
  {
    assert del.hhPrev == chains[b][i].hhPrev;
    if del.hhNext != null {
      del.hhNext.hhPrev := del.hhPrev;
    }
    ghost var after: seq<seq<Handle<K>>> := Cut(chains, b, i);
    forall c, j {:trigger after[c][j]} | 0 <= c < |after| && 0 <= j < |after[c]|
      ensures after[c][j] in s - {del}
      ensures after[c][j].hhPrev == At(after[c], j - 1)
    {
      ghost var k := if c == b && j >= i then j + 1 else j;
      assert after[c][j] == chains[c][k];
      ghost var x := old(chains[c][k].hhPrev);
    }
  }

  lemma LinksAt<K>(chains: seq<seq<Handle<K>>>, s: set<Handle<K>>, b: nat, i: nat)
    requires b < |chains| && i < |chains[b]| && Nexts(chains, s) && Prevs(chains, s)
    ensures chains[b][i].hhNext == At(chains[b], i + 1) && chains[b][i].hhPrev == At(chains[b], i - 1)
  {
  }

  lemma CutShape<K>(chains: seq<seq<Handle<K>>>, b: nat, i: nat)
    requires b < |chains| && i < |chains[b]|
    ensures |Cut(chains, b, i)| == |chains| && forall c :: 0 <= c < |chains| && c != b ==> Cut(chains, b, i)[c] == chains[c]
    ensures var rest := Cut(chains, b, i)[b]; |rest| == |chains[b]| - 1 && At(rest, 0) == At(chains[b], if i == 0 then 1 else 0)
  {
  }

  /** Taking an element out of its chain. */
  method DelInBkt<K>(ghost fcn: K -> nat, buckets: array<Bucket<K>>, b: nat, del: Handle<K>,
                     ghost chains: seq<seq<Handle<K>>>, ghost s: set<Handle<K>>) returns (ghost i: nat)
    requires Linked(fcn, buckets, chains, s) && del in s && b == Slot(del.hashv, buckets.Length)
    modifies buckets, s`hhPrev, s`hhNext
    ensures b < |chains| && i < |chains[b]| && chains[b][i] == del
    ensures Linked(fcn, buckets, Cut(chains, b, i), s - {del})
    ensures Raises(buckets) == old(Raises(buckets))
  {
    hide Placed, AloneAt, Nexts, Prevs, Cut;
    i := AloneOnItsPlace(fcn, chains, buckets.Length, s, del);
    LinksAt(chains, s, b, i);
    CutShape(chains, b, i);
    buckets[b] := buckets[b].(count := buckets[b].count - 1);
    if buckets[b].head == del {
      buckets[b] := buckets[b].(head := del.hhNext);
    }
    UnlinkNext(del, chains, s, b, i);
    UnlinkPrev(del, chains, s, b, i);
  }

  ghost predicate Listed<K>(order: seq<Handle<K>>, s: set<Handle<K>>) {
    && (forall i :: 0 <= i < |order| ==> order[i] in s)
    && (forall n :: n in s ==> n in order)
    && Distinct(order)
  }

  ghost predicate OrderNexts<K>(order: seq<Handle<K>>, s: set<Handle<K>>)
    reads s`next
  {
    forall i {:trigger order[i].next} :: 0 <= i < |order| ==> order[i] in s && order[i].next == At(order, i + 1)
  }

  ghost predicate OrderPrevs<K>(order: seq<Handle<K>>, s: set<Handle<K>>)
    reads s`prev
  {
    forall i {:trigger order[i].prev} :: 0 <= i < |order| ==> order[i] in s && order[i].prev == At(order, i - 1)
  }

  lemma ListedWithout<K>(order: seq<Handle<K>>, s: set<Handle<K>>, i: nat)
    requires Listed(order, s) && i < |order|
    ensures var rest := order[..i] + order[i + 1..];
            && Listed(rest, s - {order[i]})
            && At(rest, 0) == At(order, if i == 0 then 1 else 0)
            && At(rest, |rest| - 1) == At(order, if i == |order| - 1 then i - 1 else |order| - 1)
  {
    var rest := order[..i] + order[i + 1..];
    forall j | 0 <= j < |rest|
      ensures rest[j] == order[if j < i then j else j + 1]
    {
    }
    forall n | n in s - {order[i]}
      ensures n in rest
    {
      var j :| 0 <= j < |order| && order[j] == n;
      assert rest[if j < i then j else j - 1] == n;
    }
  }

  lemma ListedSnoc<K>(order: seq<Handle<K>>, s: set<Handle<K>>, add: Handle<K>)
    requires Listed(order, s) && add !in s
    ensures Listed(order + [add], s + {add})
  {
  }

  /** The last element's next link, and the new one's, when it is appended. */
  method LinkForward<K>(add: Handle<K>, tail: Handle?<K>, ghost order: seq<Handle<K>>, ghost s: set<Handle<K>>)
    requires Listed(order, s) && OrderNexts(order, s) && add !in s && tail == At(order, |order| - 1)
    modifies add`next, s`next
    ensures OrderNexts(order + [add], s + {add})
  {
    add.next := null;
    if tail != null {
      tail.next := add;
    }
    ghost var after := order + [add];
    forall j {:trigger after[j].next} | 0 <= j < |after|
      ensures after[j] in s + {add} && after[j].next == At(after, j + 1)
    {
      if j < |order| {
        assert after[j] == order[j];
        ghost var x := old(order[j].next);
      }
    }
  }

  method LinkBackward<K>(add: Handle<K>, tail: Handle?<K>, ghost order: seq<Handle<K>>, ghost s: set<Handle<K>>)
    requires Listed(order, s) && OrderPrevs(order, s) && add !in s && tail == At(order, |order| - 1)
    modifies add`prev
    ensures OrderPrevs(order + [add], s + {add})
  {
    add.prev := tail;
    ghost var after := order + [add];
    forall j {:trigger after[j].prev} | 0 <= j < |after|
      ensures after[j] in s + {add} && after[j].prev == At(after, j - 1)
    {
      if j < |order| {
        assert after[j] == order[j];
        ghost var x := old(order[j].prev);
      }
    }
  }

  method SkipForward<K>(ghost order: seq<Handle<K>>, ghost i: nat, ghost s: set<Handle<K>>, prev: Handle?<K>, next: Handle?<K>)
    requires i < |order| && Listed(order, s) && OrderNexts(order, s)
    requires prev == At(order, i - 1) && next == At(order, i + 1)
    modifies s`next
    ensures OrderNexts(order[..i] + order[i + 1..], s - {order[i]})
  {
    if prev != null {
      prev.next := next;
    }
    ghost var rest: seq<Handle<K>> := order[..i] + order[i + 1..];
    forall j {:trigger rest[j].next} | 0 <= j < |rest|
      ensures rest[j] in s - {order[i]} && rest[j].next == At(rest, j + 1)
    {
      ghost var k := if j < i then j else j + 1;
      assert rest[j] == order[k];
      ghost var x := old(order[k].next);
    }
  }

  method SkipBackward<K>(ghost order: seq<Handle<K>>, ghost i: nat, ghost s: set<Handle<K>>, prev: Handle?<K>, next: Handle?<K>)
    requires i < |order| && Listed(order, s) && OrderPrevs(order, s)
    requires prev == At(order, i - 1) && next == At(order, i + 1)
    modifies s`prev
    ensures OrderPrevs(order[..i] + order[i + 1..], s - {order[i]})
  {
    if next != null {
      next.prev := prev;
    }
    ghost var rest: seq<Handle<K>> := order[..i] + order[i + 1..];
    forall j {:trigger rest[j].prev} | 0 <= j < |rest|
      ensures rest[j] in s - {order[i]} && rest[j].prev == At(rest, j - 1)
    {
      ghost var k := if j < i then j else j + 1;
      assert rest[j] == order[k];
      ghost var x := old(order[k].prev);
    }
  }

  class Table<K(==, !new)> {
    const fcn: K -> nat
    var head: Handle?<K>
    var tail: Handle?<K>
    var buckets: array<Bucket<K>>
    var numBuckets: nat
    var log2NumBuckets: nat
    var numItems: nat
    var idealChainMaxlen: nat
    var nonidealItems: nat
    var ineffExpands: nat
    var noexpand: bool

    // The elements, their application order, and the chain of every bucket.
    ghost var all: set<Handle<K>>
    ghost var order: seq<Handle<K>>
    ghost var chains: seq<seq<Handle<K>>>

    /** The application order is linked both ways and holds every element once. */
    ghost predicate InOrder()
      reads this`head, this`tail, this`order, this`all, all`prev, all`next
    {
      Listed(order, all) && head == At(order, 0) && tail == At(order, |order| - 1) && OrderNexts(order, all) && OrderPrevs(order, all)
    }

    ghost predicate InBuckets(s: set<Handle<K>>)
      reads this`buckets, this`chains, this`numBuckets, this`log2NumBuckets, buckets, s`hashv, s`hhPrev, s`hhNext
    {
      numBuckets == Pow2(log2NumBuckets) == buckets.Length && Linked(fcn, buckets, chains, s)
    }

    /** As long as the buckets may be doubled, no chain has outgrown its threshold. */
    ghost predicate InBalance()
      reads this`buckets, this`chains, this`noexpand, buckets
    {
      noexpand || Balanced(chains, Raises(buckets))
    }

    ghost predicate Valid()
      reads this, buckets, all
    {
      && InOrder()
      && (head != null ==> InBuckets(all) && numItems == |order| && InBalance())
    }

    constructor (fcn: K -> nat)
      ensures Valid() && this.fcn == fcn && order == [] && fresh(buckets)
    {
      this.fcn := fcn;
      head, tail := null, null;
      buckets := new Bucket<K>[0];
      numBuckets, log2NumBuckets, numItems, idealChainMaxlen, nonidealItems, ineffExpands := 0, 0, 0, 0, 0, 0;
      noexpand := false;
      all, order, chains := {}, [], [];
    }

    /** A fresh table for the first element. */
    method MakeTable()
      modifies this`buckets, this`numBuckets, this`log2NumBuckets, this`numItems, this`idealChainMaxlen,
               this`nonidealItems, this`ineffExpands, this`noexpand, this`chains
      ensures InBuckets({}) && fresh(buckets) && numItems == 0 && !noexpand && InBalance()
      ensures chains == seq(32, _ => [])
    {
      numItems, idealChainMaxlen, nonidealItems, ineffExpands, noexpand := 0, 0, 0, 0, false;
      numBuckets, log2NumBuckets := INITIAL_NUM_BUCKETS, INITIAL_NUM_BUCKETS_LOG2;
      buckets := new Bucket<K>[INITIAL_NUM_BUCKETS](_ => Bucket(null, 0, 0));
      chains := seq(INITIAL_NUM_BUCKETS, _ => []);
      hide InBuckets, Balanced, Raises;
      FreshTable();
    }

    lemma FreshTable()
      requires numBuckets == 32 == buckets.Length && log2NumBuckets == 5 && chains == seq(32, _ => [])
      requires forall b :: 0 <= b < 32 ==> buckets[b] == Bucket(null, 0, 0)
      ensures InBuckets({}) && Balanced(chains, Raises(buckets))
    {
      NoRaises(Raises(buckets));
      NothingLinked(chains);
      assert Pow2(5) == 2 * Pow2(4) == 4 * Pow2(3) == 8 * Pow2(2) == 32;
    }

    /** The walk along the chain of a key. */
    method Find(key: K) returns (out: Handle?<K>)
      requires Valid()
      ensures out == null ==> forall n :: n in all ==> n.key != key
      ensures out != null ==> out in all && out.key == key
    {
      out := null;
      if head != null {
        var bkt := Slot(fcn(key), numBuckets);
        ghost var i: nat := 0;
        out := buckets[bkt].head;
        while out != null
          invariant 0 <= i <= |chains[bkt]| && out == At(chains[bkt], i)
          invariant forall j :: 0 <= j < i ==> chains[bkt][j].key != key
          decreases |chains[bkt]| - i
        {
          if out.key == key {
            break;
          }
          assert out.hhNext == chains[bkt][i].hhNext;
          out := out.hhNext;
          i := i + 1;
        }
      }
    }

    // The elements a doubling has still to move are linked as before.
    ghost predicate Pending(s: set<Handle<K>>, i: nat, j: nat)
      reads this`chains, s`hhNext
    {
      && (forall c, k {:trigger chains[c][k]} :: 0 <= c < |chains| && 0 <= k < |chains[c]| ==> chains[c][k] in s)
      && (forall c, k {:trigger chains[c][k].hhNext} ::
            0 <= c < |chains| && 0 <= k < |chains[c]| && (c > i || (c == i && k >= j)) ==> chains[c][k].hhNext == At(chains[c], k + 1))
    }

    lemma PendingNext(s: set<Handle<K>>, i: nat, j: nat)
      requires Pending(s, i, j) && i < |chains| && j >= |chains[i]|
      ensures Pending(s, i + 1, 0)
    {
    }

    // What has been moved is well linked in the new buckets, whose statistics are up to date.
    ghost predicate Arrived(newBuckets: array<Bucket<K>>, sent: seq<seq<Handle<K>>>, moved: set<Handle<K>>)
      reads this`idealChainMaxlen, this`nonidealItems, newBuckets, moved`hashv, moved`hhPrev, moved`hhNext
    {
      && Linked(fcn, newBuckets, sent, moved)
      && nonidealItems == Excess(sent, idealChainMaxlen)
      && idealChainMaxlen > 0
      && forall b :: 0 <= b < newBuckets.Length ==> newBuckets[b].expandMult == ExpandMult(newBuckets[b].count, idealChainMaxlen)
    }

    /** One step of a doubling. */
    method SendOne(thh: Handle<K>, newBuckets: array<Bucket<K>>, b: nat, ghost sent: seq<seq<Handle<K>>>, ghost moved: set<Handle<K>>)
      requires Arrived(newBuckets, sent, moved)
      requires thh !in moved && thh.hashv == fcn(thh.key) && b == Slot(thh.hashv, newBuckets.Length)
      modifies newBuckets, this`nonidealItems, thh`hhPrev, thh`hhNext, moved`hhPrev
      ensures Arrived(newBuckets, sent[b := [thh] + sent[b]], moved + {thh})
    {
      hide Excess, Placed;
      ExcessPush(sent, b, thh, idealChainMaxlen);
      PushFront(fcn, newBuckets, b, thh, sent, moved);
      if newBuckets[b].count > idealChainMaxlen {
        nonidealItems := nonidealItems + 1;
        newBuckets[b] := newBuckets[b].(expandMult := newBuckets[b].count / idealChainMaxlen);
      }
    }

    /** The same step, for the element at a position of the old chains. */
    method SendAt(thh: Handle<K>, newBuckets: array<Bucket<K>>, ghost s: set<Handle<K>>, ghost i: nat, ghost j: nat,
                  ghost sent0: seq<seq<Handle<K>>>, ghost moved0: set<Handle<K>>)
      returns (ghost sent: seq<seq<Handle<K>>>, ghost moved: set<Handle<K>>)
      requires numBuckets == Pow2(log2NumBuckets) == |chains| && Placed(fcn, chains, numBuckets, s)
      requires i < numBuckets && j < |chains[i]| && thh == chains[i][j] && thh.hashv == fcn(thh.key)
      requires Pending(s, i, j) && Arrived(newBuckets, sent0, moved0)
      requires newBuckets.Length == 2 * numBuckets && moved0 <= s && SentSoFar(fcn, chains, sent0, moved0, i, j)
      modifies newBuckets, this`nonidealItems, thh`hhNext, s`hhPrev
      ensures Pending(s, i, j + 1) && Arrived(newBuckets, sent, moved)
      ensures moved <= s && SentSoFar(fcn, chains, sent, moved, i, j + 1)
    {
      hide Placed, SentSoFar, Arrived, Slot;
      var bkt := Slot(thh.hashv, numBuckets * 2);
      Alone(fcn, chains, numBuckets, s, i, j);
      SentStep(fcn, chains, sent0, s, moved0, log2NumBuckets, i, j);
      SendOne(thh, newBuckets, bkt, sent0, moved0);
      sent, moved := sent0[bkt := [thh] + sent0[bkt]], moved0 + {thh};
      forall c, k {:trigger chains[c][k].hhNext}
        | 0 <= c < |chains| && 0 <= k < |chains[c]| && (c > i || (c == i && k >= j + 1))
        ensures chains[c][k].hhNext == At(chains[c], k + 1)
      {
        assert chains[c][k] != thh;
        ghost var x := old(chains[c][k].hhNext);
      }
    }

    /** The inner loop of a doubling: chain i is sent element by element, the successor saved first. */
    method SendChain(i: nat, newBuckets: array<Bucket<K>>, ghost s: set<Handle<K>>,
                     ghost sent0: seq<seq<Handle<K>>>, ghost moved0: set<Handle<K>>)
      returns (ghost sent: seq<seq<Handle<K>>>, ghost moved: set<Handle<K>>)
      requires numBuckets == Pow2(log2NumBuckets) == buckets.Length && Placed(fcn, chains, numBuckets, s)
      requires i < numBuckets == |chains| && buckets[i].head == At(chains[i], 0)
      requires forall n :: n in s ==> n.hashv == fcn(n.key)
      requires Pending(s, i, 0) && Arrived(newBuckets, sent0, moved0) && newBuckets != buckets
      requires newBuckets.Length == 2 * numBuckets && moved0 <= s && SentSoFar(fcn, chains, sent0, moved0, i, 0)
      modifies newBuckets, this`nonidealItems, s`hhPrev, s`hhNext
      ensures Pending(s, i + 1, 0) && Arrived(newBuckets, sent, moved)
      ensures moved <= s && SentSoFar(fcn, chains, sent, moved, i + 1, 0)
    {
      hide Placed, SentSoFar, Arrived, Slot;
      sent, moved := sent0, moved0;
      var thh := buckets[i].head;
      ghost var j: nat := 0;
      while thh != null
        invariant j <= |chains[i]| && thh == At(chains[i], j)
        invariant Pending(s, i, j) && Arrived(newBuckets, sent, moved)
        invariant moved <= s && SentSoFar(fcn, chains, sent, moved, i, j)
        decreases |chains[i]| - j
      {
        var hhNxt := thh.hhNext;
        assert hhNxt == chains[i][j].hhNext;
        sent, moved := SendAt(thh, newBuckets, s, i, j, sent, moved);
        j := j + 1;
        thh := hhNxt;
      }
      PendingNext(s, i, j);
      SentNextChain(fcn, chains, sent, moved, i);
    }

    lemma NothingSent(newBuckets: array<Bucket<K>>, s: set<Handle<K>>) returns (sent: seq<seq<Handle<K>>>)
      requires InBuckets(s) && newBuckets.Length == 2 * numBuckets
      requires forall b :: 0 <= b < newBuckets.Length ==> newBuckets[b] == Bucket(null, 0, 0)
      requires idealChainMaxlen > 0 && nonidealItems == 0
      ensures Arrived(newBuckets, sent, {}) && SentSoFar(fcn, chains, sent, {}, 0, 0)
    {
      hide Placed, SentSoFar, Excess, Prevs, Nexts;
      sent := seq(2 * numBuckets, _ => []);
      NothingLinked(sent);
      StillThere(s);
      Starting(fcn, chains, sent, idealChainMaxlen);
    }

    lemma StillThere(s: set<Handle<K>>)
      requires InBuckets(s)
      ensures |chains| == numBuckets > 0 && Placed(fcn, chains, numBuckets, s)
    {
    }

    lemma NothingLinked(sent: seq<seq<Handle<K>>>)
      requires forall b :: 0 <= b < |sent| ==> sent[b] == []
      ensures Nexts(sent, {}) && Prevs(sent, {})
    {
    }

    lemma AllPending(s: set<Handle<K>>)
      requires InBuckets(s)
      ensures Pending(s, 0, 0)
      ensures |chains| == numBuckets && forall c :: 0 <= c < numBuckets ==> buckets[c].head == At(chains[c], 0)
      ensures Placed(fcn, chains, numBuckets, s)
      ensures forall n :: n in s ==> n.hashv == fcn(n.key)
    {
    }

    /** The outer loop of a doubling. */
    method SendAll(newBuckets: array<Bucket<K>>, ghost s: set<Handle<K>>) returns (ghost sent: seq<seq<Handle<K>>>)
      requires InBuckets(s) && newBuckets != buckets && newBuckets.Length == 2 * numBuckets
      requires forall b :: 0 <= b < newBuckets.Length ==> newBuckets[b] == Bucket(null, 0, 0)
      requires idealChainMaxlen > 0 && nonidealItems == 0
      modifies newBuckets, this`nonidealItems, s`hhPrev, s`hhNext
      ensures Arrived(newBuckets, sent, s) && sent == Doubled(fcn, chains)
    {
      hide Linked, Placed, SentSoFar, Arrived, Pending, Doubled;
      ghost var moved: set<Handle<K>> := {};
      AllPending(s);
      sent := NothingSent(newBuckets, s);
      var i := 0;
      while i < numBuckets
        invariant i <= numBuckets
        invariant Pending(s, i, 0) && Arrived(newBuckets, sent, moved)
        invariant moved <= s && SentSoFar(fcn, chains, sent, moved, i, 0)
        invariant forall c :: i <= c < numBuckets ==> buckets[c].head == At(chains[c], 0)
        invariant forall n :: n in s ==> n.hashv == fcn(n.key)
      {
        sent, moved := SendChain(i, newBuckets, s, sent, moved);
        i := i + 1;
      }
      SentAll(fcn, chains, sent, s, moved);
    }

    /** Every chain longer than ideal has its threshold raised to the next multiple of the ideal length, and no other has. */
    ghost predicate ThresholdsRaised()
      reads this`buckets, this`chains, this`idealChainMaxlen, buckets
    {
      buckets.Length == |chains| &&
      forall b :: 0 <= b < |chains| ==>
        if |chains[b]| > idealChainMaxlen
        then buckets[b].expandMult * idealChainMaxlen <= |chains[b]| < (buckets[b].expandMult + 1) * idealChainMaxlen
        else buckets[b].expandMult == 0
    }

    /** Every chain is below its threshold, but for chains of ten when ten is the ideal length. */
    ghost predicate BelowThresholds()
      reads this`buckets, this`chains, this`idealChainMaxlen, buckets
    {
      buckets.Length == |chains| &&
      forall b :: 0 <= b < |chains| ==>
        || |chains[b]| < (buckets[b].expandMult + 1) * 10
        || (|chains[b]| == 10 == idealChainMaxlen && buckets[b].expandMult == 0)
    }

    lemma AllArrived(s: set<Handle<K>>)
      requires Arrived(buckets, chains, s)
      ensures ThresholdsRaised() && Linked(fcn, buckets, chains, s) && nonidealItems == Excess(chains, idealChainMaxlen)
      ensures buckets.Length == |chains|
    {
      hide ExpandMult, Placed, Nexts, Prevs;
      forall b | 0 <= b < |chains|
        ensures if |chains[b]| > idealChainMaxlen
                then buckets[b].expandMult * idealChainMaxlen <= |chains[b]| < (buckets[b].expandMult + 1) * idealChainMaxlen
                else buckets[b].expandMult == 0
      {
        RaisedThreshold(|chains[b]|, idealChainMaxlen);
      }
    }

    lemma BalancedAgain(s: set<Handle<K>>)
      requires Arrived(buckets, chains, s) && idealChainMaxlen <= 10 && RoundedUp(idealChainMaxlen, |s|, |chains|)
      ensures Balanced(chains, Raises(buckets)) && BelowThresholds()
    {
      hide ExpandMult, Placed, Nexts, Prevs, Balanced;
      TotalIsSize(fcn, chains, buckets.Length, s);
      DoublingBalances(chains, Raises(buckets), idealChainMaxlen);
    }

    lemma TwiceAsMany(s: set<Handle<K>>)
      requires InBuckets(s)
      ensures |chains| == numBuckets == buckets.Length > 0 && Pow2(log2NumBuckets + 1) == 2 * numBuckets
    {
    }

    lemma AreBuckets(s: set<Handle<K>>)
      requires numBuckets == Pow2(log2NumBuckets) == buckets.Length && Linked(fcn, buckets, chains, s)
      ensures InBuckets(s)
    {
      hide Linked;
    }

    /** Doubling the number of buckets: every element moves to the front of its new chain. */
    method ExpandBuckets(ghost s: set<Handle<K>>)
      requires InBuckets(s) && numItems > 0
      modifies this`buckets, this`numBuckets, this`log2NumBuckets, this`idealChainMaxlen,
               this`nonidealItems, this`ineffExpands, this`noexpand, this`chains, s`hhPrev, s`hhNext
      ensures InBuckets(s) && fresh(buckets)
      ensures log2NumBuckets == old(log2NumBuckets) + 1 && numBuckets == 2 * old(numBuckets)
      ensures chains == Doubled(fcn, old(chains))
      ensures RoundedUp(idealChainMaxlen, numItems, numBuckets) && ThresholdsRaised()
      ensures nonidealItems == Excess(chains, idealChainMaxlen)
      ensures ineffExpands == if nonidealItems > numItems / 2 then old(ineffExpands) + 1 else 0
      ensures noexpand == (old(noexpand) || ineffExpands > 1)
      ensures numItems == |s| && idealChainMaxlen <= 10 ==>
                Balanced(chains, Raises(buckets)) && BelowThresholds()
    {
      hide Linked, Excess, CeilShift, Doubled, ExpandMult, Balanced, RoundedUp, ThresholdsRaised, BelowThresholds, Raises, Arrived, ShiftRight, InBuckets, Pow2;
      TwiceAsMany(s);
      var newBuckets := new Bucket<K>[2 * numBuckets](_ => Bucket(null, 0, 0));
      idealChainMaxlen := CeilShift(numItems, log2NumBuckets + 1);
      nonidealItems := 0;
      CeilShiftPositive(numItems, log2NumBuckets + 1);
      ghost var sent := SendAll(newBuckets, s);
      IdealIsRounded(numItems, log2NumBuckets + 1);
      ShiftOnce(numItems);
      numBuckets := numBuckets * 2;
      log2NumBuckets := log2NumBuckets + 1;
      buckets := newBuckets;
      chains := sent;
      AllArrived(s);
      AreBuckets(s);
      if numItems == |s| && idealChainMaxlen <= 10 {
        BalancedAgain(s);
      }
      ineffExpands := if nonidealItems > ShiftRight(numItems, 1) then ineffExpands + 1 else 0;
      if ineffExpands > 1 {
        noexpand := true;
      }
    }

    lemma NotTooFull(s: set<Handle<K>>)
      requires InBuckets(s) && InBalance() && !noexpand
      ensures |s| < 20 * numBuckets
    {
      hide Balanced;
      TotalIsSize(fcn, chains, numBuckets, s);
      BalancedLoad(chains, Raises(buckets));
    }

    /** Linking an element into its bucket. */
    method PushOnBkt(b: nat, add: Handle<K>, ghost s: set<Handle<K>>)
      requires InBuckets(s) && add !in s && add.hashv == fcn(add.key) && b == Slot(add.hashv, numBuckets)
      modifies this`chains, buckets, add`hhPrev, add`hhNext, s`hhPrev
      ensures InBuckets(s + {add}) && b < buckets.Length == |old(chains)|
      ensures chains == old(chains)[b := [add] + old(chains)[b]] && buckets[b].count == |old(chains)[b]| + 1
      ensures Raises(buckets) == old(Raises(buckets))
    {
      PushFront(fcn, buckets, b, add, chains, s);
      chains := chains[b := [add] + chains[b]];
      assert buckets[b].count == |chains[b]|;
    }

    /** Linking an element into its bucket, and doubling the buckets when its chain has become too long. */
    method AddToBkt(b: nat, add: Handle<K>, ghost s: set<Handle<K>>)
      requires InBuckets(s) && numItems == |s| + 1 && InBalance()
      requires add !in s && add.hashv == fcn(add.key) && b == Slot(add.hashv, numBuckets)
      modifies this`buckets, this`numBuckets, this`log2NumBuckets, this`idealChainMaxlen,
               this`nonidealItems, this`ineffExpands, this`noexpand, this`chains, buckets,
               add`hhPrev, add`hhNext, s`hhPrev, s`hhNext
      ensures InBuckets(s + {add}) && (buckets == old(buckets) || fresh(buckets))
      ensures b < |old(chains)| && b < old(buckets.Length) && InBalance()
      ensures var pushed := old(chains)[b := [add] + old(chains)[b]];
              if |old(chains)[b]| + 1 >= (old(buckets[b]).expandMult + 1) * 10 && !old(noexpand)
              then chains == Doubled(fcn, pushed) && idealChainMaxlen <= 10 && ThresholdsRaised() && BelowThresholds()
              else chains == pushed && unchanged(this`buckets, this`noexpand) && Raises(buckets) == old(Raises(buckets))
    {
      hide InBuckets, Balanced, Doubled, ThresholdsRaised, BelowThresholds, RoundedUp;
      if !noexpand {
        NotTooFull(s);
      }
      ghost var before, raises := chains, Raises(buckets);
      PushOnBkt(b, add, s);
      assert buckets[b].expandMult == raises[b];
      if buckets[b].count >= (buckets[b].expandMult + 1) * BKT_CAPACITY_THRESH && !noexpand {
        ExpandBuckets(s + {add});
        AtMostTen(idealChainMaxlen, numItems, numBuckets);
      } else if !noexpand {
        BalancedPush(before, raises, b, add);
      }
    }

    /** Linking an element in at the end of the application order. */
    method AppendToOrder(add: Handle<K>)
      requires InOrder() && add !in all
      modifies this`head, this`tail, this`order, this`all, add`prev, add`next, all`next
      ensures InOrder() && order == old(order) + [add] && all == old(all) + {add} && head != null
    {
      hide Listed, OrderNexts, OrderPrevs;
      ListedSnoc(order, all, add);
      LinkForward(add, tail, order, all);
      LinkBackward(add, tail, order, all);
      if head == null {
        head := add;
      }
      tail := add;
      order := order + [add];
      all := all + {add};
    }

    /** The table half of an addition: a new table for the first element, then the count and the bucket. */
    method AddToTable(add: Handle<K>, first: bool, ghost s: set<Handle<K>>)
      requires add !in s && (if first then s == {} else InBuckets(s) && InBalance() && numItems == |s|)
      modifies this, buckets, add`hashv, add`hhPrev, add`hhNext, s`hhPrev, s`hhNext
      ensures unchanged(this`head, this`tail, this`order, this`all)
      ensures InBuckets(s + {add}) && InBalance() && (buckets == old(buckets) || fresh(buckets))
      ensures numItems == if first then 1 else old(numItems) + 1
    {
      hide Linked;
      if first {
        MakeTable();
      }
      numItems := numItems + 1;
      add.hashv := fcn(add.key);
      var bkt := Slot(add.hashv, numBuckets);
      AddToBkt(bkt, add, s);
    }

    lemma NothingIn()
      requires InOrder() && head == null
      ensures all == {} && order == []
    {
    }

    /** Adding an element that is not in the table. */
    method Add(add: Handle<K>)
      requires Valid() && add !in all
      modifies this, buckets, all, add
      ensures Valid() && (buckets == old(buckets) || fresh(buckets))
      ensures order == old(order) + [add] && all == old(all) + {add}
    {
      hide InOrder, InBuckets;
      ghost var s := all;
      var first := head == null;
      OrderIsAll();
      if first {
        NothingIn();
      }
      AppendToOrder(add);
      AddToTable(add, first, s);
      assert InOrder() && InBuckets(all) && InBalance() && numItems == |order|;
    }

    lemma OrderIsAll()
      requires InOrder()
      ensures |all| == |order|
    {
      Remove1(order, all);
    }

    lemma PlaceInOrder(n: Handle<K>) returns (i: nat)
      requires InOrder() && n in all
      ensures i < |order| && order[i] == n && n.prev == At(order, i - 1) && n.next == At(order, i + 1)
      ensures (n.prev == null <==> i == 0) && (n == tail <==> i == |order| - 1) && (n.next == null <==> i == |order| - 1)
      ensures Without(order, n) == order[..i] + order[i + 1..]
    {
      i :| 0 <= i < |order| && order[i] == n;
      WithoutAt(order, i);
    }

    /** Taking an element that is not alone out of the application order. */
    method UnlinkFromOrder(del: Handle<K>)
      requires InOrder() && del in all && !(del.prev == null && del.next == null)
      modifies this`head, this`tail, this`order, this`all, all`prev, all`next
      ensures InOrder() && order == Without(old(order), del) && all == old(all) - {del} && |order| == |old(order)| - 1 > 0
    {
      hide Listed, OrderNexts, OrderPrevs, At;
      ghost var i := PlaceInOrder(del);
      ListedWithout(order, all, i);
      ghost var rest: seq<Handle<K>> := order[..i] + order[i + 1..];
      if del == tail {
        tail := del.prev;
      }
      if del.prev == null {
        head := del.next;
      }
      var next, prev := del.next, del.prev;
      SkipForward(order, i, all, prev, next);
      SkipBackward(order, i, all, prev, next);
      order := rest;
      all := all - {del};
      assert Listed(order, all);
      assert OrderNexts(order, all);
      assert OrderPrevs(order, all);
      assert head == At(order, 0);
      assert tail == At(order, |order| - 1);
    }

    /** Deleting the only element takes the table with it. */
    method DropTable(del: Handle<K>)
      requires InOrder() && del in all && del.prev == null && del.next == null
      modifies this`head, this`tail, this`order, this`all
      ensures InOrder() && head == null && order == [] && all == {}
      ensures Without(old(order), del) == [] && old(all) == {del}
    {
      ghost var i := PlaceInOrder(del);
      head, tail := null, null;
      order, all := [], {};
    }

    /** The table half of a deletion. */
    method DeleteFromTable(del: Handle<K>, ghost s: set<Handle<K>>)
      requires InBuckets(s) && InBalance() && del in s && numItems > 0
      modifies this`numItems, this`chains, buckets, s`hhPrev, s`hhNext
      ensures InBuckets(s - {del}) && InBalance() && numItems == old(numItems) - 1
    {
      hide InBuckets, Balanced, Cut;
      StillThere(s);
      var bkt := Slot(del.hashv, numBuckets);
      ghost var before, raises := chains, Raises(buckets);
      ghost var i := CutFromBkt(bkt, del, s);
      if !noexpand {
        CutShape(before, bkt, i);
        BalancedCut(before, raises, bkt, Cut(before, bkt, i)[bkt]);
        assert chains == before[bkt := Cut(before, bkt, i)[bkt]];
      }
      numItems := numItems - 1;
    }

    method CutFromBkt(b: nat, del: Handle<K>, ghost s: set<Handle<K>>) returns (ghost i: nat)
      requires InBuckets(s) && del in s && b == Slot(del.hashv, numBuckets)
      modifies this`chains, buckets, s`hhPrev, s`hhNext
      ensures InBuckets(s - {del}) && Raises(buckets) == old(Raises(buckets))
      ensures b < |old(chains)| && i < |old(chains)[b]| && chains == Cut(old(chains), b, i)
    {
      hide Linked, Cut;
      i := DelInBkt(fcn, buckets, b, del, chains, s);
      chains := Cut(chains, b, i);
    }

    /** Deleting an element. */
    method Delete(del: Handle<K>)
      requires Valid() && del in all
      modifies this, buckets, all
      ensures Valid() && buckets == old(buckets)
      ensures order == Without(old(order), del) && all == old(all) - {del}
    {
      hide InOrder, InBuckets, InBalance;
      if del.prev == null && del.next == null {
        DropTable(del);
      } else {
        ghost var s := all;
        NotEmpty(del);
        UnlinkFromOrder(del);
        DeleteFromTable(del, s);
        assert InOrder() && InBuckets(all) && InBalance() && numItems == |order|;
      }
    }

    lemma NotEmpty(n: Handle<K>)
      requires InOrder() && n in all
      ensures head != null
    {
    }

    /** What the integrity check of a debug build walks over and adds up. */
    lemma Integrity()
      requires Valid() && head != null
      ensures Total(chains) == numItems == |order| && |chains| == numBuckets == buckets.Length
      ensures forall b :: 0 <= b < numBuckets ==> buckets[b].count == |chains[b]|
      ensures forall n :: n in all ==> n in order && n in chains[n.hashv % numBuckets]
    {
      forall n: Handle<K> | n in all
        ensures n in chains[n.hashv % numBuckets]
      {
        SlotIsRemainder(n.hashv, log2NumBuckets);
      }
      CountsAgree(fcn, chains, numBuckets, order, all);
    }

    // ---------------------------------------------------------------- the map the table stands for

    /** Looking a key up answers as the map does. */
    method Lookup(key: K) returns (out: Handle?<K>)
      requires Valid() && UniqueKeys(order)
      ensures out != null <==> key in Model(order)
      ensures out != null ==> out == Model(order)[key] && out in all && out.key == key
    {
      out := Find(key);
      ModelOf(order, key);
    }

    /** Adding under a key that is not in use extends the map, and the element comes last. */
    method AddFresh(add: Handle<K>)
      requires Valid() && add !in all && UniqueKeys(order) && add.key !in Model(order)
      modifies this, buckets, all, add
      ensures Valid() && UniqueKeys(order) && (buckets == old(buckets) || fresh(buckets))
      ensures order == old(order) + [add] && Model(order) == old(Model(order))[add.key := add]
    {
      ModelAppend(order, add);
      Add(add);
    }

    /** Deleting an element takes its key out of the map and leaves the order of the others. */
    method Remove(del: Handle<K>)
      requires Valid() && del in all && UniqueKeys(order)
      modifies this, buckets, all
      ensures Valid() && UniqueKeys(order) && buckets == old(buckets)
      ensures order == Without(old(order), del) && all == old(all) - {del} && Model(order) == old(Model(order)) - {del.key}
    {
      ghost var i := PlaceInOrder(del);
      ModelWithout(order, i);
      Delete(del);
    }

    /** Replacing: whatever has the key is deleted and handed back, and the new element comes last. */
    method Replace(add: Handle<K>) returns (replaced: Handle?<K>)
      requires Valid() && add !in all && UniqueKeys(order)
      modifies this, buckets, all, add
      ensures Valid() && UniqueKeys(order) && (buckets == old(buckets) || fresh(buckets))
      ensures replaced != null <==> add.key in old(Model(order))
      ensures replaced != null ==> replaced == old(Model(order))[add.key]
      ensures replaced == null ==> order == old(order) + [add]
      ensures replaced != null ==> order == Without<Handle<K>>(old(order), replaced) + [add]
      ensures Model(order) == old(Model(order))[add.key := add]
    {
      hide InOrder, InBuckets, Model, UniqueKeys;
      replaced := Lookup(add.key);
      if replaced != null {
        Remove(replaced);
        assert (old(Model(order)) - {add.key})[add.key := add] == old(Model(order))[add.key := add];
      }
      AddFresh(add);
    }

    lemma OrderLinks()
      requires InOrder()
      ensures Distinct(order) && DoublyLinked(order) && Listed(order, all) && head == At(order, 0)
      ensures forall j :: 0 <= j < |order| ==> order[j] in all
    {
    }

    lemma LinksMakeOrder(before: seq<Handle<K>>)
      requires Listed(before, all) && multiset(before) == multiset(order)
      requires Distinct(order) && DoublyLinked(order) && head == At(order, 0) && tail == At(order, |order| - 1)
      ensures InOrder()
    {
      SameMembers(before, order);
      forall j | 0 <= j < |order|
        ensures order[j] in all
      {
        assert order[j] in before;
      }
    }

    method Relink(cmp: Comparison<Handle<K>>)
      requires InOrder() && head != null
      modifies this`head, this`tail, this`order, all`prev, all`next
      ensures InOrder() && order == SortFrom(cmp, old(order), 1) && multiset(order) == multiset(old(order))
    {
      hide InOrder, SortFrom, Distinct, DoublyLinked, Listed;
      ghost var before := order;
      OrderLinks();
      ghost var sorted;
      head, tail, sorted := SortList(cmp, head, order);
      order := sorted;
      LinksMakeOrder(before);
    }

    lemma SortedOrder(cmp: Comparison<Handle<K>>, before: seq<Handle<K>>)
      requires InOrder() && multiset(order) == multiset(before) && order == SortFrom(cmp, before, 1)
      ensures TotalPreorder(cmp, all) ==>
                Sorted(cmp, order) && forall n :: n in all ==> Ties(cmp, order, n) == Ties(cmp, before, n)
    {
      hide SortFrom, Sorted, Ties, TotalPreorder;
      SameMembers(before, order);
      assert all == set n | n in before;
      SortIsStable(cmp, before);
    }

    /** The sort relinks the application order and leaves the buckets alone. */
    method Sort(cmp: Comparison<Handle<K>>)
      requires Valid()
      modifies this`head, this`tail, this`order, all`prev, all`next
      ensures Valid() && order == SortFrom(cmp, old(order), 1)
      ensures multiset(order) == multiset(old(order))
      ensures TotalPreorder(cmp, all) ==>
                Sorted(cmp, order) && forall n :: n in all ==> Ties(cmp, order, n) == Ties(cmp, old(order), n)
    {
      hide InOrder, InBuckets, SortFrom, Sorted, Ties, TotalPreorder;
      ghost var before := order;
      if head != null {
        Relink(cmp);
        SameMembers(before, order);
      } else {
        NothingIn();
        SortFromEmpty(cmp);
      }
      SortedOrder(cmp, before);
    }

    lemma SortFromEmpty(cmp: Comparison<Handle<K>>)
      ensures SortFrom(cmp, [], 1) == []
    {
    }

    lemma FirstTwo()
      requires InOrder() && head != null
      ensures order != [] && head == order[0] && head in all && head.next == At(order, 1)
      ensures Without<Handle<K>>(order, head) == order[1..]
    {
    }

    /** Iterating with the successor saved, and deleting every element visited: all are visited, in order. */
    method DeleteAll() returns (visited: seq<Handle<K>>)
      requires Valid()
      modifies this, buckets, all
      ensures Valid() && visited == old(order) && order == [] && all == {} && head == null
    {
      hide InOrder, InBuckets, InBalance, Without;
      visited := [];
      var el, tmp: Handle?<K> := head, null;
      if head != null {
        FirstTwo();
        tmp := head.next;
      }
      while el != null
        invariant Valid() && all <= old(all) && buckets == old(buckets)
        invariant visited + order == old(order) && el == head
        invariant el != null ==> tmp == At(order, 1)
        decreases |order|
      {
        var saved := tmp;
        FirstTwo();
        Delete(el);
        visited := visited + [el];
        HeadIs();
        el := saved;
        tmp := null;
        if el != null {
          FirstTwo();
          tmp := el.next;
        }
      }
      NothingIn();
    }

    lemma HeadIs()
      requires InOrder()
      ensures head == At(order, 0)
    {
    }
  }
}
