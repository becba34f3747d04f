/**
  Conservation over runs of the process-worker framework: whatever the interleaving,
  what has been done plus what is still owed by queued, travelling and half-executed
  items never changes. Hence, when the job ends, what was done is exactly what the
  starting items owed.
 */
module PwtConservation {
  import opened Pwt

  // What an observer counts: a number per local effect, per handled message, and per
  // item the number that it and everything derived from it still owe.
  datatype Meter<!I, !M, !E> = Meter(
    event: E -> int,
    msg: M -> int,
    item: I -> int)

  ghost function Sum<A>(f: A -> int, s: seq<A>): int {
    if s == [] then 0 else f(s[0]) + Sum(f, s[1..])
  }

  ghost function Merge(parts: seq<int>): int {
    if parts == [] then 0 else parts[0] + Merge(parts[1..])
  }

  ghost function ActionOwes<I, M, E>(m: Meter<I, M, E>): Action<I, M, E> -> int {
    (a: Action<I, M, E>) => match a
         case Effect(e) => m.event(e)
         case Tell(msg) => m.msg(msg)
         case Submit(_, i) => m.item(i)
  }

  ghost function UpOwes<I, M, E>(m: Meter<I, M, E>): Up<I, M> -> int {
    (u: Up<I, M>) => match u
         case Request(_) => 0
         case Work(_, i) => m.item(i)
         case Run(msg) => m.msg(msg)
         case Done(msg) => m.msg(msg)
  }

  ghost function DownOwes<I, M, E>(m: Meter<I, M, E>): Down<I> -> int {
    (d: Down<I>) => match d
         case Assign(i) => m.item(i)
         case Ack(_) => 0
         case Exit => 0
  }

  ghost function WorkerOwes<I, M, E>(m: Meter<I, M, E>, wk: Worker<I, M, E>,
                                        u: seq<Up<I, M>>, d: seq<Down<I>>): int
  {
    (if wk.Busy? then Sum(ActionOwes(m), wk.rest) + m.msg(wk.result) else 0)
    + Sum(UpOwes(m), u) + Sum(DownOwes(m), d)
  }

  ghost function WorkerParts<I, M, E>(m: Meter<I, M, E>, s: State<I, M, E>): seq<int>
    requires |s.workers| == |s.up| == |s.down|
  {
    seq(|s.workers|, w requires 0 <= w < |s.workers| => WorkerOwes(m, s.workers[w], s.up[w], s.down[w]))
  }

  ghost function QueueParts<I, M, E>(m: Meter<I, M, E>, queues: seq<seq<I>>): seq<int> {
    seq(|queues|, q requires 0 <= q < |queues| => Sum(m.item, queues[q]))
  }

  ghost function Owed<I, M, E>(m: Meter<I, M, E>, s: State<I, M, E>): int
    requires |s.workers| == |s.up| == |s.down|
  {
    Merge(WorkerParts(m, s)) + Merge(QueueParts(m, s.queues))
  }

  ghost function Accomplished<I, M, E>(m: Meter<I, M, E>, s: State<I, M, E>): int {
    Sum(m.event, s.log) + Sum(m.msg, s.handled)
  }

  /** An item owes exactly what its program does, submits and reports. */
  ghost predicate Faithful<I(!new), M, E>(c: Config<I, M, E>, m: Meter<I, M, E>) {
    forall i :: m.item(i) == Sum(ActionOwes(m), c.program(i)) + m.msg(c.result(i))
  }

  lemma {:induction false} SumSnoc<A>(f: A -> int, s: seq<A>, x: A)
    ensures Sum(f, s + [x]) == Sum(f, s) + f(x)
  {
    if s == [] {
      assert s + [x] == [x];
    } else {
      assert (s + [x])[1..] == s[1..] + [x];
      SumSnoc(f, s[1..], x);
    }
  }

  lemma {:induction false} SumConcat<A>(f: A -> int, s: seq<A>, t: seq<A>)
    ensures Sum(f, s + t) == Sum(f, s) + Sum(f, t)
  {
    if s == [] {
      assert s + t == t;
    } else {
      assert (s + t)[1..] == s[1..] + t;
      SumConcat(f, s[1..], t);
    }
  }

  lemma {:induction false} SumNothing<A>(f: A -> int, s: seq<A>)
    requires forall k :: 0 <= k < |s| ==> f(s[k]) == 0
    ensures Sum(f, s) == 0
  {
    if s != [] {
      assert forall k :: 0 <= k < |s| - 1 ==> s[1..][k] == s[k + 1];
      SumNothing(f, s[1..]);
    }
  }

  lemma {:induction false} SumCounts<A>(f: A -> int, s: seq<A>, x: A)
    requires forall a :: f(a) == if a == x then 1 else 0
    ensures Sum(f, s) == multiset(s)[x]
  {
    if s != [] {
      SumCounts(f, s[1..], x);
      assert s == [s[0]] + s[1..];
    }
  }

  lemma {:induction false} MergeUpdate(parts: seq<int>, k: nat, x: int)
    requires k < |parts|
    ensures Merge(parts[k := x]) + parts[k] == Merge(parts) + x
  {
    if k == 0 {
      assert parts[0 := x][1..] == parts[1..];
    } else {
      assert parts[k := x][1..] == parts[1..][k - 1 := x];
      MergeUpdate(parts[1..], k - 1, x);
    }
  }

  lemma {:induction false} MergeEmpty(parts: seq<int>)
    requires forall k :: 0 <= k < |parts| ==> parts[k] == 0
    ensures Merge(parts) == 0
  {
    if parts != [] {
      MergeEmpty(parts[1..]);
    }
  }

  lemma {:induction false} MergeNonNegative(parts: seq<int>)
    requires forall k :: 0 <= k < |parts| ==> parts[k] >= 0
    ensures Merge(parts) >= 0
  {
    if parts != [] {
      MergeNonNegative(parts[1..]);
    }
  }

  /** One worker's share changes by as much as the rest of the state makes up for. */
  lemma WorkerChange<I, M, E>(m: Meter<I, M, E>, s: State<I, M, E>, t: State<I, M, E>, w: nat)
    requires |s.workers| == |s.up| == |s.down| == |t.workers| == |t.up| == |t.down|
    requires w < |s.workers|
    requires forall v :: 0 <= v < |s.workers| && v != w ==>
               s.workers[v] == t.workers[v] && s.up[v] == t.up[v] && s.down[v] == t.down[v]
    ensures Merge(WorkerParts(m, t)) + WorkerOwes(m, s.workers[w], s.up[w], s.down[w])
         == Merge(WorkerParts(m, s)) + WorkerOwes(m, t.workers[w], t.up[w], t.down[w])
  {
    var share := WorkerOwes(m, t.workers[w], t.up[w], t.down[w]);
    assert WorkerParts(m, t) == WorkerParts(m, s)[w := share];
    MergeUpdate(WorkerParts(m, s), w, share);
  }

  lemma QueueChange<I, M, E>(m: Meter<I, M, E>, queues: seq<seq<I>>, q: nat, queue: seq<I>)
    requires q < |queues|
    ensures Merge(QueueParts(m, queues[q := queue])) + Sum(m.item, queues[q])
         == Merge(QueueParts(m, queues)) + Sum(m.item, queue)
  {
    assert QueueParts(m, queues[q := queue]) == QueueParts(m, queues)[q := Sum(m.item, queue)];
    MergeUpdate(QueueParts(m, queues), q, Sum(m.item, queue));
  }

  lemma ConserveAssign<I(!new), M, E>(c: Config<I, M, E>, m: Meter<I, M, E>, s: State<I, M, E>)
    requires Shaped(c, s) && Enabled(c, s, ManagerAssign)
    ensures Owed(m, AfterAssign(c, s)) == Owed(m, s)
  {
    var t := AfterAssign(c, s);
    var w, q := FirstIdle(s.active), HighestQueue(s.queues);
    SumSnoc(DownOwes(m), s.down[w], Assign(s.queues[q][0]));
    WorkerChange(m, s, t, w);
    QueueChange(m, s.queues, q, s.queues[q][1..]);
  }

  lemma ConserveReceive<I(!new), M, E>(c: Config<I, M, E>, m: Meter<I, M, E>, s: State<I, M, E>, w: nat)
    requires Shaped(c, s) && Enabled(c, s, ManagerReceive(w))
    ensures var t := AfterReceive(c, s, w);
            Owed(m, t) + Accomplished(m, t) == Owed(m, s) + Accomplished(m, s)
  {
    var t := AfterReceive(c, s, w);
    WorkerChange(m, s, t, w);
    match s.up[w][0]
    case Request(q) =>
      var idx := QueueIndex(q, |s.queues|);
      SumSnoc(DownOwes(m), s.down[w], Ack(!Full(c.maxima[idx], |s.queues[idx]|)));
    case Work(q, i) =>
      var idx := QueueIndex(q, |s.queues|);
      SumSnoc(m.item, s.queues[idx], i);
      QueueChange(m, s.queues, idx, s.queues[idx] + [i]);
    case Run(msg) => SumSnoc(m.msg, s.handled, msg);
    case Done(msg) => SumSnoc(m.msg, s.handled, msg);
  }

  lemma ConserveCollect<I(!new), M, E>(c: Config<I, M, E>, m: Meter<I, M, E>, s: State<I, M, E>)
    requires Shaped(c, s) && Enabled(c, s, ManagerCollect)
    ensures Owed(m, AfterCollect(c, s)) == Owed(m, s)
  {
    var t := AfterCollect(c, s);
    var w, q := s.manager.rank, s.manager.queue;
    var i := s.up[w][0].item;
    WorkerChange(m, s, t, w);
    SumSnoc(m.item, s.queues[q], i);
    QueueChange(m, s.queues, q, s.queues[q] + [i]);
  }

  lemma ConserveFinish<I(!new), M, E>(c: Config<I, M, E>, m: Meter<I, M, E>, s: State<I, M, E>)
    requires Shaped(c, s) && Enabled(c, s, ManagerFinish)
    ensures Owed(m, AfterFinish(c, s)) == Owed(m, s)
  {
    var t := AfterFinish(c, s);
    forall w | 0 <= w < c.nproc
      ensures WorkerParts(m, t)[w] == WorkerParts(m, s)[w]
    {
      SumSnoc(DownOwes(m), s.down[w], Exit);
    }
    assert WorkerParts(m, t) == WorkerParts(m, s);
  }

  /** A worker's own step moves what it owes into the log or its channel, and changes nothing else. */
  lemma ConserveOneWorker<I(!new), M, E>(c: Config<I, M, E>, m: Meter<I, M, E>, s: State<I, M, E>, step: Step)
    requires Faithful(c, m) && Shaped(c, s) && Enabled(c, s, step)
    requires step.WorkerReceive? || step.WorkerAct? || step.WorkerAck? || step.WorkerSend?
    ensures var t, w := Apply(c, s, step), step.rank;
            && WorkerOwes(m, t.workers[w], t.up[w], t.down[w]) + Accomplished(m, t)
               == WorkerOwes(m, s.workers[w], s.up[w], s.down[w]) + Accomplished(m, s)
            && t.queues == s.queues && |t.workers| == |t.up| == |t.down| == c.nproc
            && forall v :: 0 <= v < c.nproc && v != w ==>
                 s.workers[v] == t.workers[v] && s.up[v] == t.up[v] && s.down[v] == t.down[v]
  {
    var t := Apply(c, s, step);
    var w := step.rank;
    var wk, u := s.workers[w], s.up[w];
    if |t.up[w]| == |u| + 1 {
      SumSnoc(UpOwes(m), u, t.up[w][|u|]);
    }
    if step.WorkerAct? && wk.rest != [] && wk.rest[0].Effect? {
      SumSnoc(m.event, s.log, wk.rest[0].event);
    }
  }

  lemma ConserveWorker<I(!new), M, E>(c: Config<I, M, E>, m: Meter<I, M, E>, s: State<I, M, E>, step: Step)
    requires Faithful(c, m) && Shaped(c, s) && Enabled(c, s, step)
    requires step.WorkerReceive? || step.WorkerAct? || step.WorkerAck? || step.WorkerSend?
    ensures var t := Apply(c, s, step);
            Owed(m, t) + Accomplished(m, t) == Owed(m, s) + Accomplished(m, s)
  {
    hide Apply, WorkerOwes, Accomplished, Faithful;
    ConserveOneWorker(c, m, s, step);
    WorkerChange(m, s, Apply(c, s, step), step.rank);
  }

  lemma ConserveNext<I(!new), M, E>(c: Config<I, M, E>, m: Meter<I, M, E>,
                                       s: State<I, M, E>, step: Step, t: State<I, M, E>)
    requires Faithful(c, m) && Next(c, s, step, t)
    ensures Owed(m, t) + Accomplished(m, t) == Owed(m, s) + Accomplished(m, s)
  {
    match step
    case ManagerAssign => ConserveAssign(c, m, s);
    case ManagerReceive(w) => ConserveReceive(c, m, s, w);
    case ManagerCollect => ConserveCollect(c, m, s);
    case ManagerFinish => ConserveFinish(c, m, s);
    case WorkerReceive(_) => ConserveWorker(c, m, s, step);
    case WorkerAct(_) => ConserveWorker(c, m, s, step);
    case WorkerAck(_) => ConserveWorker(c, m, s, step);
    case WorkerSend(_) => ConserveWorker(c, m, s, step);
  }

  lemma OwedInit<I, M, E>(c: Config<I, M, E>, m: Meter<I, M, E>, items: seq<I>)
    requires c.nproc >= 1 && |c.maxima| >= 1
    ensures Owed(m, Init(c, items)) == Sum(m.item, items)
  {
    var s := Init(c, items);
    MergeEmpty(WorkerParts(m, s));
    var parts := QueueParts(m, s.queues);
    assert parts[0] == Sum(m.item, items);
    MergeEmpty(parts[1..]);
  }

  lemma InitAccomplished<I, M, E>(c: Config<I, M, E>, m: Meter<I, M, E>, items: seq<I>)
    requires c.nproc >= 1 && |c.maxima| >= 1
    ensures Accomplished(m, Init(c, items)) == 0 && Shaped(c, Init(c, items))
  {
  }

  /** At every point of every run, the work accomplished and the work still owed add up to what the
      starting items owed. */
  lemma {:induction false} Conservation<I(!new), M, E>(c: Config<I, M, E>, m: Meter<I, M, E>, items: seq<I>,
                                                          states: seq<State<I, M, E>>, steps: seq<Step>, k: nat)
    requires Faithful(c, m) && IsRun(c, items, states, steps) && k < |states|
    ensures Shaped(c, states[k])
    ensures Owed(m, states[k]) + Accomplished(m, states[k]) == Sum(m.item, items)
  {
    hide Owed, Accomplished, Faithful, Inv, Enabled, Apply;
    if k == 0 {
      InvRun(c, items, states, steps, k);
      InitAccomplished(c, m, items);
      OwedInit(c, m, items);
    } else {
      Conservation(c, m, items, states, steps, k - 1);
      RunNext(c, items, states, steps, k - 1);
      InvRun(c, items, states, steps, k);
      InvShaped(c, states[k]);
      ConserveNext(c, m, states[k - 1], steps[k - 1], states[k]);
    }
  }

  lemma NothingOwed<I, M, E>(c: Config<I, M, E>, m: Meter<I, M, E>, s: State<I, M, E>)
    requires Inv(c, s) && s.manager.Finished?
    ensures Owed(m, s) == 0
  {
    forall w | 0 <= w < c.nproc
      ensures WorkerParts(m, s)[w] == 0
    {
      if w > 0 && s.down[w] == [Exit] {
        assert Sum(DownOwes(m), [Exit]) == DownOwes(m)(Exit) + Sum(DownOwes(m), []);
      }
    }
    MergeEmpty(WorkerParts(m, s));
    MergeEmpty(QueueParts(m, s.queues));
  }

  /** When the manager has left its loop, exactly the work the starting items owed has been done. */
  lemma FinishedMeansAllDone<I(!new), M, E>(c: Config<I, M, E>, m: Meter<I, M, E>, items: seq<I>,
                                               states: seq<State<I, M, E>>, steps: seq<Step>)
    requires Faithful(c, m) && IsRun(c, items, states, steps)
    requires states[|steps|].manager.Finished?
    ensures Accomplished(m, states[|steps|]) == Sum(m.item, items)
  {
    InvRun(c, items, states, steps, |steps|);
    Conservation(c, m, items, states, steps, |steps|);
    NothingOwed(c, m, states[|steps|]);
  }
}
