/**
  The manager's scheduler: work queues as linked FIFOs and the table of process statuses.
  Each operation is tied to the function of Pwt that the step relation uses.
 */
module Scheduler {
  import opened Options
  import Pwt

  class WorkQEntry<T> {
    const item: T
    var next: WorkQEntry?<T>

    constructor (item: T)
      ensures this.item == item && this.next == null
    {
      this.item := item;
      this.next := null;
    }
  }

  function EntryAt<T>(entries: seq<WorkQEntry<T>>, i: int): WorkQEntry?<T> {
    if 0 <= i < |entries| then entries[i] else null
  }

  class WorkQ<T> {
    var head: WorkQEntry?<T>
    var tail: WorkQEntry?<T>
    var count: int
    var max: int

    ghost var entries: seq<WorkQEntry<T>>
    ghost var Contents: seq<T>
    ghost var Repr: set<object>

    ghost predicate Valid()
      reads this, Repr
      ensures Valid() ==> this in Repr
    {
      && this in Repr
      && count == |entries| == |Contents|
      && head == EntryAt(entries, 0) && tail == EntryAt(entries, |entries| - 1)
      && (forall i :: 0 <= i < |entries| ==> entries[i] in Repr && entries[i].item == Contents[i])
      && (forall i {:trigger entries[i].next} :: 0 <= i < |entries| ==> entries[i].next == EntryAt(entries, i + 1))
      && (forall i, j :: 0 <= i < j < |entries| ==> entries[i] != entries[j])
    }

    constructor ()
      ensures Valid() && fresh(Repr) && Contents == [] && max == -1
    {
      head, tail, count, max := null, null, 0, -1;
      entries, Contents, Repr := [], [], {this};
    }

    method Add(item: T)
      requires Valid()
      modifies Repr
      ensures Valid() && fresh(Repr - old(Repr)) && max == old(max)
      ensures Contents == old(Contents) + [item]
    {
      var nentry := new WorkQEntry<T>(item);
      if tail != null {
        tail.next := nentry;
      }
      tail := nentry;
      if count == 0 {
        head := nentry;
      }
      count := count + 1;
      entries := entries + [nentry];
      Contents := Contents + [item];
      Repr := Repr + {nentry};
    }

    method Remove() returns (item: Option<T>)
      requires Valid()
      modifies Repr
      ensures Valid() && Repr == old(Repr) && max == old(max)
      ensures old(Contents) == [] ==> item == None && Contents == []
      ensures old(Contents) != [] ==> item == Some(old(Contents)[0]) && Contents == old(Contents)[1..]
    {
      if head == null {
        return None;
      }
      var entry := head;
      assert entry.next == entries[0].next;
      head := entry.next;
      count := count - 1;
      if count <= 0 {
        tail := head;
        count := 0;
      }
      entries := entries[1..];
      Contents := Contents[1..];
      return Some(entry.item);
    }

    method Empty() returns (b: bool)
      requires Valid()
      ensures b <==> Contents == []
    {
      return count == 0 && head == null;
    }

    method Full() returns (b: bool)
      requires Valid()
      ensures b <==> 0 <= max <= |Contents|
    {
      return max >= 0 && max <= count;
    }
  }

  class Scheduler<T> {
    const workq: seq<WorkQ<T>>
    const processes: array<int>

    /** The manager's table: at least one queue, all empty, and only the given rank active. */
    constructor (nproc: nat, nqueues: nat, rank: nat)
      requires rank < nproc
      ensures Valid() && fresh(Footprint()) && |workq| == if nqueues == 0 then 1 else nqueues
      ensures forall q :: 0 <= q < |workq| ==> Queues()[q] == []
      ensures Active() == seq(nproc, r => r == rank)
    {
      var status := new int[nproc](_ => 0);
      status[rank] := 1;
      var count := if nqueues == 0 then 1 else nqueues;
      var queues: seq<WorkQ<T>> := [];
      while |queues| < count
        invariant |queues| <= count
        invariant fresh(status) && status.Length == nproc
        invariant forall r :: 0 <= r < nproc ==> status[r] == if r == rank then 1 else 0
        invariant forall i :: 0 <= i < |queues| ==>
                    queues[i].Valid() && queues[i].Contents == [] && fresh(queues[i].Repr) && status !in queues[i].Repr
        invariant forall i, j :: 0 <= i < j < |queues| ==> queues[i].Repr !! queues[j].Repr
      {
        var q := new WorkQ<T>();
        queues := queues + [q];
      }
      workq, processes := queues, status;
      new;
    }

    ghost function Footprint(): (objects: set<object>)
      reads workq
      ensures this in objects && processes in objects
    {
      {this, processes} + set q, o | q in workq && o in q.Repr :: o
    }

    ghost predicate Valid()
      reads this, processes, workq, set q, o | q in workq && o in q.Repr :: o
    {
      && |workq| > 0
      && (forall i :: 0 <= i < |workq| ==> workq[i].Valid() && this !in workq[i].Repr && processes !in workq[i].Repr)
      && (forall i, j :: 0 <= i < j < |workq| ==> workq[i].Repr !! workq[j].Repr)
      && (forall r :: 0 <= r < processes.Length ==> processes[r] == 0 || processes[r] == 1)
    }

    ghost function Queues(): (queues: seq<seq<T>>)
      reads this, workq
      ensures |queues| == |workq|
    {
      seq(|workq|, i requires 0 <= i < |workq| reads workq => workq[i].Contents)
    }

    ghost function Active(): (active: seq<bool>)
      reads this, processes
      ensures |active| == processes.Length
    {
      seq(processes.Length, r requires 0 <= r < processes.Length reads processes => processes[r] != 0)
    }

    method SetProcessIdle(rank: nat)
      requires Valid() && rank < processes.Length
      modifies processes
      ensures Valid() && Queues() == old(Queues())
      ensures Active() == old(Active())[rank := false]
    {
      processes[rank] := 0;
    }

    method SetProcessActive(rank: nat)
      requires Valid() && rank < processes.Length
      modifies processes
      ensures Valid() && Queues() == old(Queues()) && Footprint() == old(Footprint())
      ensures Active() == old(Active())[rank := true]
    {
      processes[rank] := 1;
    }

    method GetIdle() returns (rank: int)
      requires Valid()
      ensures rank == if Pwt.FirstIdle(Active()) < |Active()| then Pwt.FirstIdle(Active()) else -1
    {
      for i := 0 to processes.Length
        invariant forall k :: 0 <= k < i ==> Active()[k]
      {
        if processes[i] == 0 {
          assert !Active()[i];
          return i;
        }
      }
      return -1;
    }

    method CanAssignWork() returns (canWork: bool)
      requires Valid()
      ensures canWork <==> Pwt.CanAssignWork(Queues(), Active())
      ensures canWork <==> (exists q :: 0 <= q < |workq| && Queues()[q] != []) && exists r :: 0 <= r < |Active()| && !Active()[r]
    {
      canWork := false;
      for i := 0 to |workq|
        invariant !canWork && forall k :: 0 <= k < i ==> Queues()[k] == []
      {
        var empty := workq[i].Empty();
        if !empty {
          assert Queues()[i] != [];
          canWork := true;
          break;
        }
      }
      if canWork {
        var idle := GetIdle();
        canWork := idle >= 0;
      }
    }

    method ProcessingComplete() returns (b: bool)
      requires Valid()
      ensures b <==> Pwt.CountActive(Active()) <= 1
    {
      var count := 0;
      ghost var active := Active();
      for i := 0 to processes.Length
        invariant count + Pwt.CountActive(active[i..]) == Pwt.CountActive(active)
      {
        assert active[i..][1..] == active[i + 1..];
        assert active[i] == (processes[i] != 0);
        if processes[i] == 1 {
          count := count + 1;
        }
      }
      return count <= 1;
    }

    method WorkDone() returns (isDone: bool)
      requires Valid()
      ensures isDone <==> Pwt.WorkDone(Queues(), Active())
      ensures isDone <==> (forall q :: 0 <= q < |workq| ==> Queues()[q] == []) &&
                          forall r, k :: 0 <= r < k < |Active()| ==> !Active()[r] || !Active()[k]
    {
      Pwt.AtMostOneActive(Active());
      isDone := true;
      for i := 0 to |workq|
        invariant isDone && forall k :: 0 <= k < i ==> Queues()[k] == []
      {
        var empty := workq[i].Empty();
        if !empty {
          assert Queues()[i] != [];
          isDone := false;
          break;
        }
      }
      if isDone {
        isDone := ProcessingComplete();
      }
    }

    /** Adding an item that did not come with a request. */
    method AddWork(item: T, qidx: nat)
      requires Valid()
      modifies Footprint()
      ensures Valid() && fresh(Footprint() - old(Footprint())) && Active() == old(Active())
      ensures var q := if qidx < |workq| then qidx else |workq| - 1; Queues() == old(Queues())[q := old(Queues())[q] + [item]]
    {
      hide WorkQ.Valid;
      var idx := qidx;
      if idx >= |workq| {
        idx := |workq| - 1;
      }
      workq[idx].Add(item);
      forall j | 0 <= j < |workq| && j != idx
        ensures workq[j].Valid() && workq[j].Repr == old(workq[j].Repr) && Queues()[j] == old(Queues())[j]
      {
      }
    }

    /** Answering a request: unless its queue is full it is accepted, and the work item that the worker then sends, whatever
        queue that names, is added to the queue of the request. */
    method AckWork(qidx: nat, newwork: T) returns (accepted: bool)
      requires Valid()
      modifies Footprint()
      ensures Valid() && fresh(Footprint() - old(Footprint())) && Active() == old(Active())
      ensures var q := if qidx < |workq| then qidx else |workq| - 1;
              && (accepted <==> old(workq[q].max) < 0 || |old(Queues())[q]| < old(workq[q].max))
              && Queues() == if accepted then old(Queues())[q := old(Queues())[q] + [newwork]] else old(Queues())
    {
      hide Valid, Queues, Active;
      var isFull := IsFull(qidx);
      accepted := !isFull;
      if accepted {
        AddWork(newwork, qidx);
      } else {
        assert Footprint() - old(Footprint()) == {};
      }
    }

    method IsFull(qidx: nat) returns (isFull: bool)
      requires Valid()
      ensures |workq| > 0
      ensures var q := Pwt.QueueIndex(qidx, |workq|); isFull <==> Pwt.Full(workq[q].max, |Queues()[q]|)
    {
      hide WorkQ.Valid;
      var idx := qidx;
      if idx >= |workq| {
        idx := |workq| - 1;
      }
      isFull := workq[idx].Full();
    }

    /** The highest queue with an item in it, -1 when there is none. */
    method NextQueue() returns (q: int)
      requires Valid()
      ensures q == Pwt.HighestQueue(Queues())
    {
      q := |workq| - 1;
      while q >= 0
        invariant -1 <= q < |workq|
        invariant forall k :: q < k < |workq| ==> Queues()[k] == []
      {
        var empty := workq[q].Empty();
        if !empty {
          assert Queues()[q] != [];
          HighestIs(Queues(), q);
          return;
        }
        q := q - 1;
      }
    }

    /** Removes the first item of one queue and leaves the others alone. */
    method RemoveFrom(q: nat) returns (item: Option<T>)
      requires Valid() && q < |workq| && Queues()[q] != []
      modifies Footprint() - {this, processes}
      ensures Valid() && Footprint() == old(Footprint()) && Active() == old(Active())
      ensures item == Some(old(Queues())[q][0]) && Queues() == old(Queues())[q := old(Queues())[q][1..]]
    {
      hide WorkQ.Valid;
      ghost var queues := Queues();
      assert queues[q] == workq[q].Contents;
      item := workq[q].Remove();
      forall j | 0 <= j < |workq|
        ensures workq[j].Valid() && workq[j].Repr == old(workq[j].Repr)
        ensures workq[j].Contents == if j == q then queues[q][1..] else queues[j]
      {
      }
      assert Queues() == queues[q := queues[q][1..]];
    }

    /** The next item, from the highest queue that has one, and the lowest idle process to run it on. */
    method GetWork() returns (item: Option<T>, rank: int)
      requires Valid()
      modifies Footprint()
      ensures Valid() && Footprint() == old(Footprint())
      ensures var queues, active := old(Queues()), old(Active());
              if Pwt.CanAssignWork(queues, active) then
                var r, q := Pwt.FirstIdle(active), Pwt.HighestQueue(queues);
                q >= 0 && rank == r && item == Some(queues[q][0])
                && Active() == active[r := true] && Queues() == queues[q := queues[q][1..]]
              else
                item == None && rank == -1 && Queues() == queues && Active() == active
    {
      hide WorkQ.Valid, Valid, Queues, Active, Footprint;
      item, rank := None, -1;
      var idle := GetIdle();
      if idle >= 0 {
        var q := NextQueue();
        if q >= 0 {
          item := RemoveFrom(q);
        }
        if item.Some? {
          SetProcessActive(idle);
          rank := idle;
        }
      }
    }
  }

  lemma HighestIs<T>(queues: seq<seq<T>>, q: nat)
    requires q < |queues| && queues[q] != [] && forall k :: q < k < |queues| ==> queues[k] == []
    ensures Pwt.HighestQueue(queues) == q
  {
  }
}
