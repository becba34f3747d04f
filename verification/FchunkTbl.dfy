/**
  The file chunk table: an array of singly linked chains, with insertion at the head of
  a chain, removal from anywhere in it, and a resize that moves the nodes one by one
  while it walks the chain they are being removed from.
 */
module FchunkTable {
  import opened Division

  class Entry<K> {
    const key: K
    var data: int
    var next: Entry?<K>

    constructor (key: K, data: int, next: Entry?<K>)
      ensures this.key == key && this.data == data && this.next == next
    {
      this.key := key;
      this.data := data;
      this.next := next;
    }
  }

  /** The node at position i of a chain, null past either end. */
  function NodeAt<K>(chain: seq<Entry<K>>, i: int): Entry?<K> {
    if 0 <= i < |chain| then chain[i] else null
  }

  function Slot<K>(hash: K -> nat, k: K, count: nat): (b: nat)
    requires count > 0
    ensures b < count
  {
    Remainder(hash(k), count)
  }

  lemma SlotIsRemainder<K>(hash: K -> nat, k: K, count: nat)
    requires count > 0
    ensures Slot(hash, k, count) == hash(k) % count
  {
    RemainderIsMod(hash(k), count);
  }

  // Every key is in its bucket, no key occurs twice, and the keys are those given.
  ghost predicate Placed<K(!new)>(hash: K -> nat, chains: seq<seq<Entry<K>>>, count: nat, keys: set<K>) {
    && |chains| == count > 0
    && (forall b, i {:trigger chains[b][i]} :: 0 <= b < count && 0 <= i < |chains[b]| ==>
          Slot(hash, chains[b][i].key, count) == b && chains[b][i].key in keys)
    && (forall b, i, j :: 0 <= b < count && 0 <= i < j < |chains[b]| ==> chains[b][i].key != chains[b][j].key)
    && (forall k :: k in keys ==> Occurs(k, chains[Slot(hash, k, count)]))
  }

  ghost predicate Occurs<K>(k: K, chain: seq<Entry<K>>) {
    exists i :: 0 <= i < |chain| && chain[i].key == k
  }

  lemma PlacedInsert<K(!new)>(hash: K -> nat, chains: seq<seq<Entry<K>>>, count: nat, keys: set<K>, entry: Entry<K>, b: nat)
    requires Placed(hash, chains, count, keys) && entry.key !in keys && b == Slot(hash, entry.key, count)
    ensures Placed(hash, chains[b := [entry] + chains[b]], count, keys + {entry.key})
  {
    var chains': seq<seq<Entry<K>>> := chains[b := [entry] + chains[b]];
    assert chains'[b][0].key == entry.key;
    forall k | k in keys ensures Occurs(k, chains'[Slot(hash, k, count)]) {
      var c := chains[Slot(hash, k, count)];
      var j :| 0 <= j < |c| && c[j].key == k;
      assert chains'[Slot(hash, k, count)][if Slot(hash, k, count) == b then j + 1 else j].key == k;
    }
  }

  lemma PlacedRemove<K(!new)>(hash: K -> nat, chains: seq<seq<Entry<K>>>, count: nat, keys: set<K>, b: nat, i: nat)
    requires Placed(hash, chains, count, keys) && b < count && i < |chains[b]|
    ensures Placed(hash, chains[b := chains[b][..i] + chains[b][i + 1..]], count, keys - {chains[b][i].key})
  {
    var chains': seq<seq<Entry<K>>> := chains[b := chains[b][..i] + chains[b][i + 1..]];
    var key := chains[b][i].key;
    forall c, j | 0 <= c < count && 0 <= j < |chains'[c]|
      ensures Slot(hash, chains'[c][j].key, count) == c && chains'[c][j].key in keys - {key}
    {
      assert chains'[c][j] == chains[c][if c == b && j >= i then j + 1 else j];
    }
    forall k | k in keys - {key} ensures Occurs(k, chains'[Slot(hash, k, count)]) {
      var c := chains[Slot(hash, k, count)];
      var j :| 0 <= j < |c| && c[j].key == k;
      assert chains'[Slot(hash, k, count)][if Slot(hash, k, count) == b && j > i then j - 1 else j].key == k;
    }
  }

  lemma Present<K(!new)>(hash: K -> nat, chains: seq<seq<Entry<K>>>, count: nat, keys: set<K>, key: K) returns (j: nat)
    requires Placed(hash, chains, count, keys) && key in keys
    ensures j < |chains[Slot(hash, key, count)]| && chains[Slot(hash, key, count)][j].key == key
  {
    assert Occurs(key, chains[Slot(hash, key, count)]);
    j :| j < |chains[Slot(hash, key, count)]| && chains[Slot(hash, key, count)][j].key == key;
  }

  /** No other node of the table has the key of this one, and this one is where its key belongs. */
  lemma Alone<K(!new)>(hash: K -> nat, chains: seq<seq<Entry<K>>>, count: nat, keys: set<K>, b: nat, i: nat)
    requires Placed(hash, chains, count, keys) && b < count && i < |chains[b]|
    ensures chains[b][i].key in keys && Slot(hash, chains[b][i].key, count) == b
    ensures forall c, j {:trigger chains[c][j]} :: 0 <= c < count && 0 <= j < |chains[c]| && !(c == b && j == i) ==>
              chains[c][j].key != chains[b][i].key && chains[c][j] != chains[b][i]
  {
  }

  lemma AllMoved<K(!new)>(hash: K -> nat, chains: seq<seq<Entry<K>>>, count: nat, keys: set<K>)
    requires Placed(hash, chains, count, keys) && forall b :: 0 <= b < count ==> chains[b] == []
    ensures keys == {}
  {
    if k :| k in keys {
      var j := Present(hash, chains, count, keys, k);
    }
  }

  // The bindings of whole are split between left and moved.
  ghost predicate Shared<K>(whole: map<K, int>, left: map<K, int>, moved: map<K, int>) {
    left.Keys !! moved.Keys && left + moved == whole
  }

  lemma ShareMoves<K>(whole: map<K, int>, left: map<K, int>, moved: map<K, int>, key: K)
    requires Shared(whole, left, moved) && key in left
    ensures Shared(whole, left - {key}, moved[key := left[key]])
  {
  }

  class FchunkTbl<K(==, !new)> {
    const hashfunc: K -> nat
    var size: nat
    var nodes: array<Entry?<K>>

    // The chain of every bucket, the finite map the table stands for, and its objects.
    ghost var chains: seq<seq<Entry<K>>>
    ghost var Model: map<K, int>
    ghost var Repr: set<object>

    // The links and the data of the nodes.
    ghost predicate Valid()
      reads this, Repr
      ensures Valid() ==> this in Repr
    {
      && this in Repr && nodes in Repr
      && nodes.Length == size
      && Placed(hashfunc, chains, size, Model.Keys)
      && |chains| == size > 0
      && (forall b :: 0 <= b < size ==> nodes[b] == NodeAt(chains[b], 0))
      && (forall b, i :: 0 <= b < size && 0 <= i < |chains[b]| ==> chains[b][i] in Repr)
      && (forall b, i {:trigger chains[b][i].next} :: 0 <= b < size && 0 <= i < |chains[b]| ==>
            chains[b][i].next == NodeAt(chains[b], i + 1))
      && (forall b, i {:trigger chains[b][i].data} :: 0 <= b < size && 0 <= i < |chains[b]| ==>
            chains[b][i].key in Model && Model[chains[b][i].key] == chains[b][i].data)
    }

    constructor (size: nat, hashfunc: K -> nat)
      requires size > 0
      ensures Valid() && fresh(Repr)
      ensures this.size == size && this.hashfunc == hashfunc && Model == map[]
    {
      this.size := size;
      this.hashfunc := hashfunc;
      this.nodes := new Entry?<K>[size](_ => null);
      this.chains := seq(size, _ => []);
      this.Model := map[];
      new;
      Repr := {this, nodes};
    }

    /** The walk along one chain that every operation starts with: the first node with the key, if any,
        the node before it, and its position. */
    method Locate(key: K) returns (node: Entry?<K>, prevnode: Entry?<K>, ghost i: nat)
      requires Valid()
      ensures i <= |chains[Slot(hashfunc, key, size)]|
      ensures node == NodeAt(chains[Slot(hashfunc, key, size)], i) && prevnode == NodeAt(chains[Slot(hashfunc, key, size)], i - 1)
      ensures node == null <==> key !in Model
      ensures node != null ==> node.key == key && node.data == Model[key] && node.next == NodeAt(chains[Slot(hashfunc, key, size)], i + 1)
    {
      var hash := Slot(hashfunc, key, size);
      node, prevnode, i := nodes[hash], null, 0;
      hide Placed;
      while node != null
        invariant 0 <= i <= |chains[hash]| && node == NodeAt(chains[hash], i) && prevnode == NodeAt(chains[hash], i - 1)
        invariant forall j :: 0 <= j < i ==> chains[hash][j].key != key
        decreases |chains[hash]| - i
      {
        if node.key == key {
          assert node.data == chains[hash][i].data;
          return;
        }
        prevnode := node;
        node := node.next;
        i := i + 1;
      }
      if key in Model.Keys {
        ghost var j := Present(hashfunc, chains, size, Model.Keys, key);
      }
    }

    method Insert(key: K, data: int)
      requires Valid()
      modifies Repr
      ensures Valid() && fresh(Repr - old(Repr))
      ensures Model == old(Model)[key := data] && size == old(size)
    {
      hide Placed;
      var node, prevnode, i := Locate(key);
      if node != null {
        Assign(node, data, i);
        return;
      }
      var hash := Slot(hashfunc, key, size);
      var entry := new Entry<K>(key, data, nodes[hash]);
      PlacedInsert(hashfunc, chains, size, Model.Keys, entry, hash);
      nodes[hash] := entry;
      Model := Model[key := data];
      chains := chains[hash := [entry] + chains[hash]];
      Repr := Repr + {entry};
      assert Model.Keys == old(Model.Keys) + {key};
      forall b, j | 0 <= b < size && 0 <= j < |chains[b]| && chains[b][j] != entry
        ensures chains[b][j].key in Model && Model[chains[b][j].key] == chains[b][j].data
      {
        ghost var e := old(chains[b])[if b == hash then j - 1 else j];
        assert e == chains[b][j];
        ghost var d := old(e.data);
      }
    }

    method Get(key: K) returns (data: int)
      requires Valid()
      ensures data == if key in Model then Model[key] else -1
    {
      var node, prevnode, i := Locate(key);
      return if node != null then node.data else -1;
    }

    method Update(key: K, data: int) returns (rc: int)
      requires Valid()
      modifies Repr
      ensures Valid() && Repr == old(Repr) && size == old(size)
      ensures rc == if key in old(Model) then 0 else -1
      ensures Model == if key in old(Model) then old(Model)[key := data] else old(Model)
    {
      var node, prevnode, i := Locate(key);
      if node == null {
        return -1;
      }
      Assign(node, data, i);
      return 0;
    }

    /** Storing new data in the node at position i of its chain. */
    method Assign(node: Entry<K>, data: int, ghost i: nat)
      requires Valid() && node == NodeAt(chains[Slot(hashfunc, node.key, size)], i)
      modifies Repr
      ensures Valid() && Repr == old(Repr) && size == old(size) && node.key in old(Model)
      ensures Model == old(Model)[node.key := data]
    {
      hide Placed;
      ghost var hash := Slot(hashfunc, node.key, size);
      Alone(hashfunc, chains, size, Model.Keys, hash, i);
      node.data := data;
      Model := Model[node.key := data];
      assert Model.Keys == old(Model.Keys);
      forall b, j | 0 <= b < size && 0 <= j < |chains[b]|
        ensures chains[b][j].key in Model && Model[chains[b][j].key] == chains[b][j].data
      {
        ghost var d := old(chains[b][j].data);
      }
    }

    /** Taking the node at position i of a chain out of it. */
    method Unlink(prevnode: Entry?<K>, node: Entry<K>, hash: nat, ghost i: nat)
      requires Valid() && hash < size && i < |chains[hash]| && node == chains[hash][i]
      requires prevnode == NodeAt(chains[hash], i - 1)
      modifies Repr
      ensures Valid() && Repr == old(Repr) && size == old(size)
      ensures Model == old(Model) - {node.key}
      ensures chains == old(chains)[hash := old(chains)[hash][..i] + old(chains)[hash][i + 1..]]
    {
      hide Placed;
      Alone(hashfunc, chains, size, Model.Keys, hash, i);
      PlacedRemove(hashfunc, chains, size, Model.Keys, hash, i);
      assert node.next == chains[hash][i].next;
      if prevnode != null {
        Alone(hashfunc, chains, size, Model.Keys, hash, i - 1);
        prevnode.next := node.next;
      } else {
        nodes[hash] := node.next;
      }
      Model := Model - {node.key};
      assert Model.Keys == old(Model.Keys) - {node.key};
      chains := chains[hash := chains[hash][..i] + chains[hash][i + 1..]];
      forall b, j {:trigger chains[b][j]} | 0 <= b < size && 0 <= j < |chains[b]|
        ensures chains[b][j].next == NodeAt(chains[b], j + 1)
        ensures chains[b][j].key in Model && Model[chains[b][j].key] == chains[b][j].data
      {
        ghost var k := if b == hash && j >= i then j + 1 else j;
        assert chains[b][j] == old(chains)[b][k];
        ghost var d, x := old(chains[b][k].data), old(chains[b][k].next);
      }
    }

    method Remove(key: K) returns (rc: int)
      requires Valid()
      modifies Repr
      ensures Valid() && Repr == old(Repr) && size == old(size)
      ensures rc == if key in old(Model) then 0 else -1
      ensures Model == old(Model) - {key}
      ensures forall b :: 0 <= b < size && b != Slot(hashfunc, key, size) ==> chains[b] == old(chains)[b]
      ensures rc == 0 ==> old(chains)[Slot(hashfunc, key, size)] != []
      ensures var c := old(chains)[Slot(hashfunc, key, size)];
              rc == 0 && c[0].key == key ==> chains[Slot(hashfunc, key, size)] == c[1..]
    {
      hide Placed;
      var node, prevnode, i := Locate(key);
      if node == null {
        return -1;
      }
      var hash := Slot(hashfunc, key, size);
      Alone(hashfunc, chains, size, Model.Keys, hash, i);
      Unlink(prevnode, node, hash, i);
      return 0;
    }

    /** One step of a resize: the first node of chain n goes to the other table. */
    method MoveTo(newtbl: FchunkTbl<K>, ghost n: nat, key: K, data: int)
      requires Valid() && newtbl.Valid() && Repr !! newtbl.Repr
      requires n < size && chains[n] != [] && chains[n][0].key == key && chains[n][0].data == data
      modifies Repr, newtbl.Repr
      ensures Valid() && Repr == old(Repr) && size == old(size)
      ensures newtbl.Valid() && fresh(newtbl.Repr - old(newtbl.Repr)) && newtbl.size == old(newtbl.size)
      ensures chains == old(chains)[n := old(chains)[n][1..]]
      ensures old(key in Model && Model[key] == data)
      ensures Model == old(Model) - {key} && newtbl.Model == old(newtbl.Model)[key := data]
    {
      hide Placed;
      Alone(hashfunc, chains, size, Model.Keys, n, 0);
      newtbl.Insert(key, data);
      var rc := Remove(key);
    }

    /** The inner loop of a resize: all nodes of chain n go to the other table, the successor of each
        being saved before it is removed here. */
    method MoveChain(newtbl: FchunkTbl<K>, n: nat, ghost whole: map<K, int>)
      requires Valid() && newtbl.Valid() && Repr !! newtbl.Repr && n < size
      requires Shared(whole, Model, newtbl.Model)
      modifies Repr, newtbl.Repr
      ensures Valid() && Repr == old(Repr) && size == old(size)
      ensures newtbl.Valid() && fresh(newtbl.Repr - old(newtbl.Repr)) && newtbl.size == old(newtbl.size)
      ensures chains == old(chains)[n := []]
      ensures Shared(whole, Model, newtbl.Model)
    {
      hide Placed;
      var node := nodes[n];
      while node != null
        invariant Valid() && Repr == old(Repr) && size == old(size)
        invariant newtbl.Valid() && fresh(newtbl.Repr - old(newtbl.Repr)) && newtbl.size == old(newtbl.size)
        invariant chains == old(chains)[n := chains[n]]
        invariant Shared(whole, Model, newtbl.Model)
        invariant node == NodeAt(chains[n], 0)
        decreases |chains[n]|
      {
        var next := node.next;
        ghost var left, moved, key := Model, newtbl.Model, node.key;
        assert next == chains[n][0].next;
        MoveTo(newtbl, n, node.key, node.data);
        ShareMoves(whole, left, moved, key);
        node := next;
      }
    }

    method TakeOver(newtbl: FchunkTbl<K>)
      requires newtbl.Valid() && newtbl.hashfunc == hashfunc && this !in newtbl.Repr
      modifies this
      ensures Valid() && Repr == newtbl.Repr + {this}
      ensures Model == newtbl.Model && size == newtbl.size
    {
      hide Placed;
      size := newtbl.size;
      nodes := newtbl.nodes;
      chains := newtbl.chains;
      Model := newtbl.Model;
      Repr := newtbl.Repr + {this};
      forall b, i | 0 <= b < size && 0 <= i < |chains[b]|
        ensures chains[b][i].next == NodeAt(chains[b], i + 1)
        ensures chains[b][i].key in Model && Model[chains[b][i].key] == chains[b][i].data
      {
        ghost var x, d := newtbl.chains[b][i].next, newtbl.chains[b][i].data;
      }
    }

    /** Every node is inserted into a new table and removed from this one, chain by chain; at the end
        this table takes over the new one's nodes. */
    method Resize(newSize: nat)
      requires Valid() && newSize > 0
      modifies Repr
      ensures Valid() && fresh(Repr - old(Repr))
      ensures Model == old(Model) && size == newSize
    {
      hide Placed;
      var newtbl := new FchunkTbl<K>(newSize, hashfunc);
      var n := 0;
      while n < size
        invariant 0 <= n <= size == old(size)
        invariant Valid() && Repr == old(Repr)
        invariant newtbl.Valid() && fresh(newtbl.Repr) && newtbl.size == newSize
        invariant forall b :: 0 <= b < n ==> chains[b] == []
        invariant Shared(old(Model), Model, newtbl.Model)
      {
        MoveChain(newtbl, n, old(Model));
        n := n + 1;
      }
      AllMoved(hashfunc, chains, size, Model.Keys);
      TakeOver(newtbl);
    }
  }
}
