/**
  The range server's work queue: a doubly linked list to which the listener adds at the head and
  from which the worker takes at the tail.
 */
module WorkQueue {
  class Item<T> {
    const message: T
    var next: Item?<T>
    var prev: Item?<T>

    constructor (message: T)
      ensures this.message == message && next == null && prev == null
    {
      this.message, next, prev := message, null, null;
    }
  }

  function ItemAt<T>(items: seq<Item<T>>, i: int): Item?<T> {
    if 0 <= i < |items| then items[i] else null
  }

  function Messages<T>(items: seq<Item<T>>): seq<T> {
    seq(|items|, i requires 0 <= i < |items| => items[i].message)
  }

  class Queue<T> {
    var head: Item?<T>
    var tail: Item?<T>

    /** The items from the tail to the head: the oldest first. */
    ghost var items: seq<Item<T>>

    /** What has been added and taken since the queue was made. */
    ghost var events: seq<Event<T>>

    ghost predicate Valid()
      reads this, items
    {
      Linked() && AddedIn(events) == TakenIn(events) + Messages(items)
    }

    ghost predicate Linked()
      reads this`head, this`tail, this`items, items
    {
      && head == ItemAt(items, |items| - 1) && tail == ItemAt(items, 0)
      && (forall i {:trigger items[i].prev} :: 0 <= i < |items| ==> items[i].prev == ItemAt(items, i + 1))
      && (forall i {:trigger items[i].next} :: 0 <= i < |items| ==> items[i].next == ItemAt(items, i - 1))
      && (forall i, j :: 0 <= i < j < |items| ==> items[i] != items[j])
    }

    constructor ()
      ensures Valid() && items == [] && events == []
    {
      head, tail, items, events := null, null, [], [];
    }

    /** New work waits behind all there is. */
    method AddWork(item: Item<T>)
      requires Valid() && item !in items
      modifies this, item, items
      ensures Valid() && items == old(items) + [item]
      ensures Messages(items) == Messages(old(items)) + [item.message]
      ensures events == old(events) + [Added(item.message)]
    {
      hide Linked;
      Link(item);
      assert Messages(items) == Messages(old(items)) + [item.message];
      InSnoc(events, Added(item.message));
      events := events + [Added(item.message)];
    }

    /** Putting an item at the head of the list. */
    method Link(item: Item<T>)
      requires Linked() && item !in items
      modifies this`head, this`tail, this`items, item, items
      ensures Linked() && items == old(items) + [item]
    {
      item.next := null;
      item.prev := null;
      if head != null {
        assert head == items[|items| - 1];
        head.prev := item;
        item.next := head;
        head := item;
      } else {
        head := item;
        tail := item;
      }
      items := items + [item];
      forall i {:trigger items[i]} | 0 <= i < |items| - 1
        ensures items[i].prev == ItemAt(items, i + 1) && items[i].next == ItemAt(items, i - 1)
      {
        assert items[i] == old(items)[i];
        ghost var x, y := old(items[i].prev), old(items[i].next);
      }
    }

    /** The oldest work is taken; it leaves nothing of the list behind. */
    method GetWork() returns (item: Item?<T>)
      requires Valid()
      modifies this, items
      ensures Valid() && (item == null <==> old(items) == [])
      ensures old(items) == [] ==> items == []
      ensures old(items) != [] ==> item == old(items)[0] && items == old(items)[1..] && item.next == null && item.prev == null
      ensures events == old(events) + if item == null then [] else [Taken(item.message)]
    {
      if tail == null {
        return null;
      }
      item := tail;
      Unlink(item);
      events := events + [Taken(item.message)];
      InSnoc(old(events), Taken(item.message));
      assert Messages(old(items)) == [item.message] + Messages(items);
    }

    /** Taking the tail out of the list. */
    method Unlink(item: Item<T>)
      requires Linked() && item == tail
      modifies this`head, this`tail, this`items, items
      ensures Linked() && old(items) != [] && item == old(items)[0] && items == old(items)[1..]
      ensures item.next == null && item.prev == null
    {
      assert item == items[0] && item.prev == items[0].prev;
      if item.prev != null {
        item.prev.next := null;
        tail := item.prev;
      } else {
        tail := null;
        head := null;
      }
      item.next := null;
      item.prev := null;
      items := items[1..];
      forall i {:trigger items[i]} | 0 <= i < |items|
        ensures items[i].prev == ItemAt(items, i + 1) && items[i].next == ItemAt(items, i - 1)
      {
        assert items[i] == old(items)[i + 1];
        ghost var x, y := old(items[i + 1].prev), old(items[i + 1].next);
      }
    }
  }

  // ---------------------------------------------------------------- runs of the two threads

  datatype Event<T> = Added(message: T) | Taken(message: T)

  function AddedIn<T>(events: seq<Event<T>>): seq<T> {
    if events == [] then []
    else AddedIn(events[..|events| - 1]) + (if events[|events| - 1].Added? then [events[|events| - 1].message] else [])
  }

  function TakenIn<T>(events: seq<Event<T>>): seq<T> {
    if events == [] then []
    else TakenIn(events[..|events| - 1]) + (if events[|events| - 1].Taken? then [events[|events| - 1].message] else [])
  }

  lemma InSnoc<T>(events: seq<Event<T>>, e: Event<T>)
    ensures AddedIn(events + [e]) == AddedIn(events) + if e.Added? then [e.message] else []
    ensures TakenIn(events + [e]) == TakenIn(events) + if e.Taken? then [e.message] else []
  {
    assert (events + [e])[..|events|] == events;
  }

  /** After any run of the queue's methods work has been taken in the order in which it was added, none of it twice, and
      what has not been taken waits. */
  lemma TakenInOrder<T>(q: Queue<T>, k: nat)
    requires q.Valid() && k < |AddedIn(q.events)|
    ensures if k < |TakenIn(q.events)| then TakenIn(q.events)[k] == AddedIn(q.events)[k]
            else k - |TakenIn(q.events)| < |q.items| && q.items[k - |TakenIn(q.events)|].message == AddedIn(q.events)[k]
    ensures |TakenIn(q.events)| + |q.items| == |AddedIn(q.events)|
  {
    var taken, waiting := TakenIn(q.events), Messages(q.items);
    assert AddedIn(q.events)[k] == (taken + waiting)[k];
  }
}
