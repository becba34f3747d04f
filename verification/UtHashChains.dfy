/**
  The two structures of the hash table as values: the application order, which stands for an
  insertion-ordered map, and the bucket chains, which hold the same elements.
 */
module UtHashChains {
  import opened Bits
  import opened Division

  class Handle<K> {
    const key: K
    var hashv: nat
    var prev: Handle?<K>
    var next: Handle?<K>
    var hhPrev: Handle?<K>
    var hhNext: Handle?<K>

    constructor (key: K)
      ensures this.key == key
    {
      this.key := key;
    }
  }

  /** The element at position i of a list, null past either end. */
  function At<K>(list: seq<Handle<K>>, i: int): Handle?<K> {
    if 0 <= i < |list| then list[i] else null
  }

  ghost predicate Distinct<T>(s: seq<T>) {
    forall i, j :: 0 <= i < j < |s| ==> s[i] != s[j]
  }

  // ---------------------------------------------------------------- application order

  ghost predicate UniqueKeys<K>(order: seq<Handle<K>>) {
    forall i, j :: 0 <= i < j < |order| ==> order[i].key != order[j].key
  }

  /** The finite map an application order with unique keys stands for. */
  ghost function Model<K>(order: seq<Handle<K>>): map<K, Handle<K>> {
    if order == [] then map[] else Model(order[..|order| - 1])[order[|order| - 1].key := order[|order| - 1]]
  }

  /** The sequence without the first occurrence of an element. */
  ghost function Without<T>(s: seq<T>, x: T): seq<T> {
    if s == [] then [] else if s[0] == x then s[1..] else [s[0]] + Without(s[1..], x)
  }

  lemma {:induction false} WithoutAt<T>(s: seq<T>, i: nat)
    requires i < |s| && Distinct(s)
    ensures Without(s, s[i]) == s[..i] + s[i + 1..]
  {
    if i > 0 {
      WithoutAt(s[1..], i - 1);
      assert s[..i] == [s[0]] + s[1..][..i - 1];
      assert s[i + 1..] == s[1..][i..];
    }
  }

  lemma {:induction false} ModelOf<K>(order: seq<Handle<K>>, key: K)
    requires UniqueKeys(order)
    ensures key in Model(order) <==> exists i :: 0 <= i < |order| && order[i].key == key
    ensures forall i :: 0 <= i < |order| && order[i].key == key ==> key in Model(order) && Model(order)[key] == order[i]
  {
    if order != [] {
      var last := |order| - 1;
      ModelOf(order[..last], key);
      assert order[last].key in Model(order);
      if i :| 0 <= i < last && order[i].key == key {
        assert order[..last][i].key == key;
      }
    }
  }

  lemma ModelAppend<K>(order: seq<Handle<K>>, add: Handle<K>)
    requires UniqueKeys(order) && add.key !in Model(order)
    ensures UniqueKeys(order + [add]) && Model(order + [add]) == Model(order)[add.key := add]
  {
    assert (order + [add])[..|order|] == order;
    ModelOf(order, add.key);
  }

  ghost predicate HasKey<K>(order: seq<Handle<K>>, key: K) {
    exists i :: 0 <= i < |order| && order[i].key == key
  }

  /** Cutting one element out, as far as a single key can tell. */
  lemma CutOut<K>(order: seq<Handle<K>>, i: nat, key: K)
    requires UniqueKeys(order) && i < |order|
    ensures var rest := order[..i] + order[i + 1..];
            UniqueKeys(rest) && (HasKey(rest, key) <==> HasKey(order, key) && key != order[i].key)
  {
    var rest := order[..i] + order[i + 1..];
    forall j | 0 <= j < |rest|
      ensures rest[j] == order[if j < i then j else j + 1]
    {
    }
    if HasKey(order, key) && key != order[i].key {
      var j :| 0 <= j < |order| && order[j].key == key;
      assert rest[if j < i then j else j - 1].key == key;
    }
  }

  lemma ModelWithoutKey<K>(order: seq<Handle<K>>, i: nat, key: K)
    requires UniqueKeys(order) && i < |order|
    ensures var rest := order[..i] + order[i + 1..];
            && (key in Model(rest) <==> key in Model(order) && key != order[i].key)
            && (key in Model(rest) ==> Model(rest)[key] == Model(order)[key])
  {
    var rest := order[..i] + order[i + 1..];
    CutOut(order, i, key);
    ModelOf(order, key);
    ModelOf(rest, key);
    if key in Model(rest) {
      var j :| 0 <= j < |rest| && rest[j].key == key;
      assert rest[j] == order[if j < i then j else j + 1];
    }
  }

  lemma ModelWithout<K(!new)>(order: seq<Handle<K>>, i: nat)
    requires UniqueKeys(order) && i < |order|
    ensures UniqueKeys(order[..i] + order[i + 1..])
    ensures Model(order[..i] + order[i + 1..]) == Model(order) - {order[i].key}
  {
    hide Model, UniqueKeys;
    CutOut(order, i, order[i].key);
    var rest, cut := Model(order[..i] + order[i + 1..]), Model(order) - {order[i].key};
    forall key
      ensures (key in rest <==> key in cut) && (key in rest ==> rest[key] == cut[key])
    {
      ModelWithoutKey(order, i, key);
    }
  }

  // ---------------------------------------------------------------- bucket chains

  function Slot(hashv: nat, count: nat): (b: nat)
    requires count > 0
    ensures b < count
  {
    And(hashv, count - 1)
  }

  /** The bucket of a hash value is its remainder by the number of buckets. */
  lemma SlotIsRemainder(hashv: nat, k: nat)
    ensures Slot(hashv, Pow2(k)) == hashv % Pow2(k)
  {
    hide And, Pow2;
    MaskAndShift(hashv, k);
    ShiftLeftIsTimes(ShiftRight(hashv, k), k);
    QuotientIsUnique(hashv, Pow2(k), ShiftRight(hashv, k), And(hashv, Pow2(k) - 1));
  }

  /** The chains hold exactly the given elements, each once and in the bucket of its hash. */
  ghost predicate Placed<K>(fcn: K -> nat, chains: seq<seq<Handle<K>>>, count: nat, all: set<Handle<K>>) {
    && |chains| == count > 0
    && (forall b, i {:trigger chains[b][i]} :: 0 <= b < count && 0 <= i < |chains[b]| ==>
          chains[b][i] in all && Slot(fcn(chains[b][i].key), count) == b)
    && (forall b, i, j :: 0 <= b < count && 0 <= i < j < |chains[b]| ==> chains[b][i] != chains[b][j])
    && (forall n :: n in all ==> n in chains[Slot(fcn(n.key), count)])
  }

  lemma PlacedInsert<K>(fcn: K -> nat, chains: seq<seq<Handle<K>>>, count: nat, all: set<Handle<K>>, add: Handle<K>, b: nat)
    requires Placed(fcn, chains, count, all) && add !in all && b == Slot(fcn(add.key), count)
    ensures Placed(fcn, chains[b := [add] + chains[b]], count, all + {add})
  {
  }

  lemma PlacedRemove<K>(fcn: K -> nat, chains: seq<seq<Handle<K>>>, count: nat, all: set<Handle<K>>, b: nat, i: nat)
    requires Placed(fcn, chains, count, all) && b < count && i < |chains[b]|
    ensures Placed(fcn, chains[b := chains[b][..i] + chains[b][i + 1..]], count, all - {chains[b][i]})
  {
    var del := chains[b][i];
    var rest: seq<Handle<K>> := chains[b][..i] + chains[b][i + 1..];
    var after: seq<seq<Handle<K>>> := chains[b := rest];
    forall c, j {:trigger after[c][j]} | 0 <= c < count && 0 <= j < |after[c]|
      ensures after[c][j] in all - {del} && Slot(fcn(after[c][j].key), count) == c
    {
      assert after[c][j] == chains[c][if c == b && j >= i then j + 1 else j];
    }
    forall c, j, k | 0 <= c < count && 0 <= j < k < |after[c]|
      ensures after[c][j] != after[c][k]
    {
      assert after[c][j] == chains[c][if c == b && j >= i then j + 1 else j];
      assert after[c][k] == chains[c][if c == b && k >= i then k + 1 else k];
    }
    forall n | n in all - {del}
      ensures n in after[Slot(fcn(n.key), count)]
    {
      var c := Slot(fcn(n.key), count);
      var j :| 0 <= j < |chains[c]| && chains[c][j] == n;
      assert after[c][if c == b && j > i then j - 1 else j] == n;
    }
  }

  /** Where an element is, and that it is nowhere else. */
  lemma PlaceOf<K>(fcn: K -> nat, chains: seq<seq<Handle<K>>>, count: nat, all: set<Handle<K>>, n: Handle<K>) returns (i: nat)
    requires Placed(fcn, chains, count, all) && n in all
    ensures var b := Slot(fcn(n.key), count); i < |chains[b]| && chains[b][i] == n
    ensures var b := Slot(fcn(n.key), count);
            forall c, j {:trigger chains[c][j]} :: 0 <= c < count && 0 <= j < |chains[c]| && !(c == b && j == i) ==> chains[c][j] != n
  {
    var b := Slot(fcn(n.key), count);
    i :| 0 <= i < |chains[b]| && chains[b][i] == n;
  }

  /** An element of one chain is at no other place of any chain. */
  lemma Alone<K>(fcn: K -> nat, chains: seq<seq<Handle<K>>>, count: nat, all: set<Handle<K>>, b: nat, i: nat)
    requires Placed(fcn, chains, count, all) && b < count && i < |chains[b]|
    ensures chains[b][i] in all && Slot(fcn(chains[b][i].key), count) == b
    ensures forall c, j {:trigger chains[c][j]} :: 0 <= c < count && 0 <= j < |chains[c]| && !(c == b && j == i) ==>
              chains[c][j] != chains[b][i]
  {
  }

  // ---------------------------------------------------------------- doubling

  /** The elements of a chain that belong in bucket b of count buckets, last one first. */
  ghost function Sent<K>(fcn: K -> nat, chain: seq<Handle<K>>, count: nat, b: nat): seq<Handle<K>>
    requires count > 0
  {
    if chain == [] then []
    else
      var last := chain[|chain| - 1];
      (if Slot(fcn(last.key), count) == b then [last] else []) + Sent(fcn, chain[..|chain| - 1], count, b)
  }

  /** The bucket of the old array that bucket b of the doubled array is filled from. */
  function Source(b: nat, n: nat): (src: nat)
    requires b < 2 * n
    ensures src < n
  {
    if b < n then b else b - n
  }

  ghost function Doubled<K>(fcn: K -> nat, chains: seq<seq<Handle<K>>>): (r: seq<seq<Handle<K>>>)
    requires |chains| > 0
    ensures |r| == 2 * |chains|
  {
    seq(2 * |chains|, b requires 0 <= b < 2 * |chains| => Sent(fcn, chains[Source(b, |chains|)], 2 * |chains|, b))
  }

  /** An element of old bucket i goes to bucket i or to bucket i + n. */
  lemma SlotDoubles(hashv: nat, k: nat)
    ensures var n := Pow2(k); Source(Slot(hashv, 2 * n), n) == Slot(hashv, n)
    ensures var n := Pow2(k); Slot(hashv, 2 * n) == Slot(hashv, n) || Slot(hashv, 2 * n) == Slot(hashv, n) + n
  {
    WiderMask(hashv, k);
    assert Pow2(k + 1) == 2 * Pow2(k);
  }

  /** The part of an old chain that a doubling has sent, after the chains below i and the first j elements of chain i. */
  ghost function Portion<K>(chains: seq<seq<Handle<K>>>, i: nat, j: nat, src: nat): seq<Handle<K>>
    requires src < |chains| && (src == i ==> j <= |chains[i]|)
  {
    if src < i then chains[src] else if src == i then chains[i][..j] else []
  }

  ghost predicate SentInto<K>(fcn: K -> nat, chains: seq<seq<Handle<K>>>, sent: seq<seq<Handle<K>>>, i: nat, j: nat)
    requires |chains| > 0 && (i < |chains| ==> j <= |chains[i]|)
  {
    && |sent| == 2 * |chains|
    && forall b {:trigger sent[b]} :: 0 <= b < 2 * |chains| ==>
         sent[b] == Sent(fcn, Portion(chains, i, j, Source(b, |chains|)), 2 * |chains|, b)
  }

  ghost predicate MovedUpTo<K>(chains: seq<seq<Handle<K>>>, moved: set<Handle<K>>, i: nat, j: nat) {
    forall c, k {:trigger chains[c][k]} :: 0 <= c < |chains| && 0 <= k < |chains[c]| ==>
      (chains[c][k] in moved <==> c < i || (c == i && k < j))
  }

  /** What a doubling has done by then. */
  ghost predicate SentSoFar<K>(fcn: K -> nat, chains: seq<seq<Handle<K>>>, sent: seq<seq<Handle<K>>>, moved: set<Handle<K>>,
                               i: nat, j: nat)
  {
    && |chains| > 0 && i <= |chains| && (if i < |chains| then j <= |chains[i]| else j == 0)
    && SentInto(fcn, chains, sent, i, j) && MovedUpTo(chains, moved, i, j)
  }

  lemma SentSnoc<K>(fcn: K -> nat, chain: seq<Handle<K>>, n: Handle<K>, count: nat, b: nat)
    requires count > 0
    ensures Sent(fcn, chain + [n], count, b)
            == (if Slot(fcn(n.key), count) == b then [n] else []) + Sent(fcn, chain, count, b)
  {
    assert (chain + [n])[..|chain|] == chain;
  }

  lemma SentIntoStep<K>(fcn: K -> nat, chains: seq<seq<Handle<K>>>, sent: seq<seq<Handle<K>>>, i: nat, j: nat, to: nat)
    requires i < |chains| && j < |chains[i]| && SentInto(fcn, chains, sent, i, j)
    requires to == Slot(fcn(chains[i][j].key), 2 * |chains|) && Source(to, |chains|) == i
    ensures SentInto(fcn, chains, sent[to := [chains[i][j]] + sent[to]], i, j + 1)
  {
    hide Sent, Slot;
    var n := chains[i][j];
    var after := sent[to := [n] + sent[to]];
    forall b {:trigger after[b]} | 0 <= b < 2 * |chains|
      ensures after[b] == Sent(fcn, Portion(chains, i, j + 1, Source(b, |chains|)), 2 * |chains|, b)
    {
      var src := Source(b, |chains|);
      if src == i {
        assert Portion(chains, i, j + 1, src) == Portion(chains, i, j, src) + [n];
        SentSnoc(fcn, Portion(chains, i, j, src), n, 2 * |chains|, b);
      } else {
        assert Portion(chains, i, j + 1, src) == Portion(chains, i, j, src);
      }
    }
  }

  lemma MovedStep<K>(fcn: K -> nat, chains: seq<seq<Handle<K>>>, all: set<Handle<K>>, moved: set<Handle<K>>, i: nat, j: nat)
    requires Placed(fcn, chains, |chains|, all) && i < |chains| && j < |chains[i]| && MovedUpTo(chains, moved, i, j)
    ensures MovedUpTo(chains, moved + {chains[i][j]}, i, j + 1)
  {
    Alone(fcn, chains, |chains|, all, i, j);
    hide Placed;
  }

  lemma SentStep<K>(fcn: K -> nat, chains: seq<seq<Handle<K>>>, sent: seq<seq<Handle<K>>>, all: set<Handle<K>>, moved: set<Handle<K>>,
                    k: nat, i: nat, j: nat)
    requires |chains| == Pow2(k) && Placed(fcn, chains, |chains|, all) && SentSoFar(fcn, chains, sent, moved, i, j)
    requires i < |chains| && j < |chains[i]|
    ensures var n := chains[i][j];
            var b := Slot(fcn(n.key), 2 * |chains|);
            b < |sent| && n in all && n !in moved && SentSoFar(fcn, chains, sent[b := [n] + sent[b]], moved + {n}, i, j + 1)
  {
    hide Placed, SentInto, MovedUpTo, Slot;
    var n := chains[i][j];
    SlotDoubles(fcn(n.key), k);
    Alone(fcn, chains, |chains|, all, i, j);
    SentLength(fcn, chains, sent, i, j);
    SentIntoStep(fcn, chains, sent, i, j, Slot(fcn(n.key), 2 * |chains|));
    NotYetMoved(fcn, chains, sent, moved, i, j);
    MovedStep(fcn, chains, all, moved, i, j);
  }

  lemma SentLength<K>(fcn: K -> nat, chains: seq<seq<Handle<K>>>, sent: seq<seq<Handle<K>>>, i: nat, j: nat)
    requires |chains| > 0 && (i < |chains| ==> j <= |chains[i]|) && SentInto(fcn, chains, sent, i, j)
    ensures |sent| == 2 * |chains|
  {
  }

  lemma NotYetMoved<K>(fcn: K -> nat, chains: seq<seq<Handle<K>>>, sent: seq<seq<Handle<K>>>, moved: set<Handle<K>>, i: nat, j: nat)
    requires SentSoFar(fcn, chains, sent, moved, i, j) && i < |chains| && j < |chains[i]|
    ensures chains[i][j] !in moved
  {
  }

  /** Before a doubling nothing has been sent. */
  lemma Starting<K>(fcn: K -> nat, chains: seq<seq<Handle<K>>>, sent: seq<seq<Handle<K>>>, ideal: nat)
    requires |chains| > 0 && sent == seq(2 * |chains|, _ => [])
    ensures SentSoFar(fcn, chains, sent, {}, 0, 0) && Excess(sent, ideal) == 0
    ensures Placed(fcn, sent, |sent|, {})
  {
    forall b {:trigger sent[b]} | 0 <= b < 2 * |chains|
      ensures sent[b] == Sent(fcn, Portion(chains, 0, 0, Source(b, |chains|)), 2 * |chains|, b)
    {
      assert Portion(chains, 0, 0, Source(b, |chains|)) == [];
    }
    NoExcess(sent, ideal);
  }

  lemma SentNextChain<K>(fcn: K -> nat, chains: seq<seq<Handle<K>>>, sent: seq<seq<Handle<K>>>, moved: set<Handle<K>>, i: nat)
    requires i < |chains| && SentSoFar(fcn, chains, sent, moved, i, |chains[i]|)
    ensures SentSoFar(fcn, chains, sent, moved, i + 1, 0)
  {
    forall src | 0 <= src < |chains|
      ensures Portion(chains, i + 1, 0, src) == Portion(chains, i, |chains[i]|, src)
    {
    }
  }

  lemma SentAll<K>(fcn: K -> nat, chains: seq<seq<Handle<K>>>, sent: seq<seq<Handle<K>>>, all: set<Handle<K>>, moved: set<Handle<K>>)
    requires Placed(fcn, chains, |chains|, all) && SentSoFar(fcn, chains, sent, moved, |chains|, 0) && moved <= all
    ensures sent == Doubled(fcn, chains) && moved == all
  {
    forall n | n in all
      ensures n in moved
    {
      var i := PlaceOf(fcn, chains, |chains|, all, n);
    }
  }

  /** By how much the chains exceed the ideal length, all together. */
  ghost function Excess<K>(chains: seq<seq<Handle<K>>>, ideal: nat): nat {
    if chains == [] then 0
    else (if |chains[0]| > ideal then |chains[0]| - ideal else 0) + Excess(chains[1..], ideal)
  }

  lemma {:induction false} ExcessPush<K>(chains: seq<seq<Handle<K>>>, b: nat, n: Handle<K>, ideal: nat)
    requires b < |chains|
    ensures Excess(chains[b := [n] + chains[b]], ideal) == Excess(chains, ideal) + (if |chains[b]| + 1 > ideal then 1 else 0)
  {
    if b > 0 {
      ExcessPush(chains[1..], b - 1, n, ideal);
      assert chains[b := [n] + chains[b]][1..] == chains[1..][b - 1 := [n] + chains[1..][b - 1]];
    }
  }

  lemma {:induction false} NoExcess<K>(chains: seq<seq<Handle<K>>>, ideal: nat)
    requires forall b :: 0 <= b < |chains| ==> chains[b] == []
    ensures Excess(chains, ideal) == 0
  {
    if chains != [] {
      NoExcess(chains[1..], ideal);
    }
  }

  /** How far a bucket's threshold is raised. */
  function ExpandMult(count: nat, ideal: nat): nat
    requires ideal > 0
  {
    if count > ideal then count / ideal else 0
  }

  /** A chain longer than ideal has its threshold raised to the next multiple of the ideal length; no other has. */
  lemma RaisedThreshold(count: nat, ideal: nat)
    requires ideal > 0
    ensures var m := ExpandMult(count, ideal); if count > ideal then m * ideal <= count < (m + 1) * ideal else m == 0
  {
    var q := count / ideal;
    assert count == ideal * q + count % ideal;
  }

  // ---------------------------------------------------------------- the load

  ghost function SumOf(ns: seq<nat>): nat {
    if ns == [] then 0 else ns[0] + SumOf(ns[1..])
  }

  /** No chain is as long as its raised threshold, but for chains of ten without a raise; and the raises are no more
      than the buckets. */
  ghost predicate Balanced<K>(chains: seq<seq<Handle<K>>>, raises: seq<nat>) {
    && |raises| == |chains| && SumOf(raises) <= |raises|
    && forall b :: 0 <= b < |chains| ==> BelowThreshold(|chains[b]|, raises[b])
  }

  ghost predicate BelowThreshold(count: nat, raise: nat) {
    count < (raise + 1) * 10 || (raise == 0 && count == 10)
  }

  lemma {:induction false} LoadOf<K>(chains: seq<seq<Handle<K>>>, raises: seq<nat>)
    requires |raises| == |chains| && forall b :: 0 <= b < |chains| ==> BelowThreshold(|chains[b]|, raises[b])
    ensures Total(chains) <= 10 * SumOf(raises) + 10 * |chains|
    ensures SumOf(raises) > 0 ==> Total(chains) < 10 * SumOf(raises) + 10 * |chains|
  {
    if chains != [] {
      var c, r := chains[1..], raises[1..];
      assert forall b :: 0 <= b < |c| ==> |c[b]| == |chains[b + 1]| && r[b] == raises[b + 1];
      LoadOf(c, r);
    }
  }

  /** A balanced table holds less than twenty elements a bucket. */
  lemma BalancedLoad<K>(chains: seq<seq<Handle<K>>>, raises: seq<nat>)
    requires Balanced(chains, raises) && chains != []
    ensures Total(chains) < 20 * |chains|
  {
    LoadOf(chains, raises);
  }

  lemma {:induction false} RaisesFit<K>(chains: seq<seq<Handle<K>>>, raises: seq<nat>, ideal: nat)
    requires ideal > 0 && |raises| == |chains| && forall b :: 0 <= b < |chains| ==> raises[b] == ExpandMult(|chains[b]|, ideal)
    ensures ideal * SumOf(raises) <= Total(chains)
  {
    hide ExpandMult;
    if chains != [] {
      var c, r := chains[1..], raises[1..];
      assert forall b :: 0 <= b < |c| ==> c[b] == chains[b + 1] && r[b] == raises[b + 1];
      RaisesFit(c, r, ideal);
      RaisedThreshold(|chains[0]|, ideal);
      assert ideal * (raises[0] + SumOf(r)) == raises[0] * ideal + ideal * SumOf(r);
    }
  }

  /** A doubling of a table that holds at most twenty elements a bucket leaves it balanced. */
  lemma DoublingBalances<K>(chains: seq<seq<Handle<K>>>, raises: seq<nat>, ideal: nat)
    requires 0 < ideal <= 10 && |raises| == |chains| && Total(chains) <= ideal * |chains|
    requires forall b :: 0 <= b < |chains| ==> raises[b] == ExpandMult(|chains[b]|, ideal)
    ensures Balanced(chains, raises)
    ensures forall b :: 0 <= b < |chains| && |chains[b]| >= (raises[b] + 1) * 10 ==> |chains[b]| == 10 == ideal
  {
    hide ExpandMult, Total, SumOf, BelowThreshold;
    RaisesFit(chains, raises, ideal);
    Cancel(ideal, SumOf(raises), |chains|);
    forall b | 0 <= b < |chains|
      ensures BelowThreshold(|chains[b]|, raises[b]) && (|chains[b]| >= (raises[b] + 1) * 10 ==> |chains[b]| == 10 == ideal)
    {
      RaisedBelow(|chains[b]|, ideal);
    }
  }

  lemma RaisedBelow(count: nat, ideal: nat)
    requires 0 < ideal <= 10
    ensures var m := ExpandMult(count, ideal); BelowThreshold(count, m) && (count >= (m + 1) * 10 ==> count == 10 == ideal)
  {
    hide ExpandMult;
    var m := ExpandMult(count, ideal);
    RaisedThreshold(count, ideal);
    assert (m + 1) * ideal <= (m + 1) * 10;
  }

  lemma Cancel(n: nat, a: nat, b: nat)
    requires n > 0 && n * a <= n * b
    ensures a <= b
  {
    if a > b {
      TimesGrows(n, a, b);
    }
  }

  lemma TimesGrows(n: nat, a: nat, b: nat)
    requires n > 0 && a > b
    ensures n * a > n * b
  {
    assert n * (a - b) > 0;
  }

  lemma BalancedPush<K>(chains: seq<seq<Handle<K>>>, raises: seq<nat>, b: nat, add: Handle<K>)
    requires Balanced(chains, raises) && b < |chains| && |chains[b]| + 1 < (raises[b] + 1) * 10
    ensures Balanced(chains[b := [add] + chains[b]], raises)
  {
  }

  lemma BalancedCut<K>(chains: seq<seq<Handle<K>>>, raises: seq<nat>, b: nat, shorter: seq<Handle<K>>)
    requires Balanced(chains, raises) && b < |chains| && |shorter| <= |chains[b]|
    ensures Balanced(chains[b := shorter], raises)
  {
  }

  lemma {:induction false} NoRaises(raises: seq<nat>)
    requires forall b :: 0 <= b < |raises| ==> raises[b] == 0
    ensures SumOf(raises) == 0
  {
    if raises != [] {
      NoRaises(raises[1..]);
    }
  }

  // ---------------------------------------------------------------- counting

  ghost function Total<K>(chains: seq<seq<Handle<K>>>): nat {
    if chains == [] then 0 else |chains[0]| + Total(chains[1..])
  }

  lemma {:induction false} Remove1<T>(s: seq<T>, all: set<T>)
    requires Distinct(s) && (forall x :: x in all <==> x in s)
    ensures |all| == |s|
  {
    if s != [] {
      assert s == [s[0]] + s[1..];
      Remove1(s[1..], all - {s[0]});
    }
  }

  ghost predicate InSome<T>(x: T, lists: seq<seq<T>>) {
    exists b :: 0 <= b < |lists| && x in lists[b]
  }

  /** The lists have no element twice, neither in one nor in two of them. */
  ghost predicate Apart<T>(lists: seq<seq<T>>) {
    && (forall b :: 0 <= b < |lists| ==> Distinct(lists[b]))
    && (forall b, c, x :: 0 <= b < c < |lists| && x in lists[b] ==> x !in lists[c])
  }

  lemma InFirstOrRest<T>(x: T, lists: seq<seq<T>>)
    requires lists != [] && Apart(lists)
    ensures InSome(x, lists) <==> x in lists[0] || InSome(x, lists[1..])
    ensures x in lists[0] ==> !InSome(x, lists[1..])
    ensures Apart(lists[1..])
  {
    if InSome(x, lists[1..]) {
      var b :| 0 <= b < |lists[1..]| && x in lists[1..][b];
      assert x in lists[b + 1];
    }
    if InSome(x, lists) && x !in lists[0] {
      var b :| 0 <= b < |lists| && x in lists[b];
      assert x in lists[1..][b - 1];
    }
    if x in lists[0] {
      assert InSome(x, lists);
    }
  }

  lemma {:induction false} TotalCounts<K>(chains: seq<seq<Handle<K>>>, all: set<Handle<K>>)
    requires Apart(chains) && forall n :: n in all <==> InSome(n, chains)
    ensures Total(chains) == |all|
  {
    hide InSome, Apart;
    if chains == [] {
      NoneInNothing(all);
    } else {
      var here := set n | n in chains[0];
      var rest := all - here;
      forall n
        ensures InSome(n, chains) <==> n in chains[0] || InSome(n, chains[1..])
        ensures n in chains[0] ==> !InSome(n, chains[1..])
      {
        InFirstOrRest(n, chains);
      }
      FirstIsApart(chains);
      Remove1(chains[0], here);
      TotalCounts(chains[1..], rest);
      assert all == here + rest && here !! rest;
    }
  }

  lemma FirstIsApart<T>(lists: seq<seq<T>>)
    requires lists != [] && Apart(lists)
    ensures Distinct(lists[0]) && Apart(lists[1..])
  {
  }

  lemma NoneInNothing<T>(all: set<T>)
    requires forall n :: n in all <==> InSome(n, [])
    ensures all == {}
  {
  }

  /** The chains hold as many elements as there are. */
  lemma TotalIsSize<K>(fcn: K -> nat, chains: seq<seq<Handle<K>>>, count: nat, all: set<Handle<K>>)
    requires Placed(fcn, chains, count, all)
    ensures Total(chains) == |all|
  {
    forall n
      ensures n in all <==> InSome(n, chains)
    {
      if n in all {
        var i := PlaceOf(fcn, chains, count, all, n);
      }
    }
    TotalCounts(chains, all);
  }

  /** The counts that an integrity check of the table adds up: the chains hold as many elements as the order. */
  lemma CountsAgree<K>(fcn: K -> nat, chains: seq<seq<Handle<K>>>, count: nat, order: seq<Handle<K>>, all: set<Handle<K>>)
    requires Placed(fcn, chains, count, all) && Distinct(order) && forall n :: n in all <==> n in order
    ensures Total(chains) == |order|
  {
    Remove1(order, all);
    TotalIsSize(fcn, chains, count, all);
  }
}
