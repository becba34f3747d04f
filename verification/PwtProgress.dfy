/**
  Progress of the process-worker framework with unlimited work queues, the only setting
  the applications use: no reachable state before the end is stuck, and every step uses
  up part of a finite budget. So every run reaches the end, whatever the interleaving.
 */
module PwtProgress {
  import opened Pwt
  import opened PwtConservation

  // price(i) bounds the number of steps spent on item i once a worker holds it.
  ghost predicate Priced<I(!new), M, E>(c: Config<I, M, E>, price: I -> nat) {
    forall i :: price(i) >= Total(ActionCost(price), c.program(i)) + 2
  }

  ghost predicate Unlimited<I, M, E>(c: Config<I, M, E>) {
    forall q :: 0 <= q < |c.maxima| ==> c.maxima[q] < 0
  }

  ghost function Total<A>(f: A -> nat, s: seq<A>): nat {
    if s == [] then 0 else f(s[0]) + Total(f, s[1..])
  }

  ghost function ActionCost<I, M, E>(price: I -> nat): Action<I, M, E> -> nat {
    (a: Action<I, M, E>) => match a
                            case Effect(_) => 1
                            case Tell(_) => 2
                            case Submit(_, i) => price(i) + 7
  }

  ghost function ItemCost<I>(price: I -> nat): I -> nat {
    (i: I) => price(i) + 2
  }

  ghost function UpCost<I, M>(price: I -> nat): Up<I, M> -> nat {
    (u: Up<I, M>) => match u
                     case Request(_) => 2
                     case Work(_, i) => price(i) + 3
                     case Run(_) => 1
                     case Done(_) => 1
  }

  ghost function DownCost<I>(price: I -> nat): Down<I> -> nat {
    (d: Down<I>) => match d
                    case Assign(i) => price(i) + 1
                    case Ack(_) => 1
                    case Exit => 1
  }

  ghost function WorkerCost<I, M, E>(price: I -> nat, wk: Worker<I, M, E>, u: seq<Up<I, M>>, d: seq<Down<I>>): int {
    (if wk.Busy? then Total(ActionCost(price), wk.rest) + 2 - (if wk.phase.Ready? then 0 else 3) else 0)
    + Total(UpCost(price), u) + Total(DownCost(price), d)
  }

  ghost function WorkerCosts<I, M, E>(price: I -> nat, s: State<I, M, E>): seq<int>
    requires |s.workers| == |s.up| == |s.down|
  {
    seq(|s.workers|, w requires 0 <= w < |s.workers| => WorkerCost(price, s.workers[w], s.up[w], s.down[w]))
  }

  ghost function QueueCosts<I>(price: I -> nat, queues: seq<seq<I>>): seq<int> {
    seq(|queues|, q requires 0 <= q < |queues| => Total(ItemCost(price), queues[q]))
  }

  /** The steps still to be taken, at most. */
  ghost function Budget<I, M, E>(c: Config<I, M, E>, price: I -> nat, s: State<I, M, E>): int
    requires |s.workers| == |s.up| == |s.down|
  {
    Merge(WorkerCosts(price, s)) + Merge(QueueCosts(price, s.queues)) + (if s.manager.Finished? then 0 else c.nproc)
  }

  lemma {:induction false} TotalSnoc<A>(f: A -> nat, s: seq<A>, x: A)
    ensures Total(f, s + [x]) == Total(f, s) + f(x)
  {
    if s == [] {
      assert s + [x] == [x];
    } else {
      assert (s + [x])[1..] == s[1..] + [x];
      TotalSnoc(f, s[1..], x);
    }
  }

  lemma {:induction false} MergeRaise(parts: seq<int>, raised: seq<int>)
    requires |parts| == |raised|
    requires forall k :: 0 <= k < |parts| ==> raised[k] == parts[k] + 1
    ensures Merge(raised) == Merge(parts) + |parts|
  {
    if parts != [] {
      MergeRaise(parts[1..], raised[1..]);
    }
  }

  lemma WorkerCostChange<I, M, E>(price: I -> nat, s: State<I, M, E>, t: State<I, M, E>, w: nat)
    requires |s.workers| == |s.up| == |s.down| == |t.workers| == |t.up| == |t.down|
    requires w < |s.workers|
    requires forall v :: 0 <= v < |s.workers| && v != w ==>
               s.workers[v] == t.workers[v] && s.up[v] == t.up[v] && s.down[v] == t.down[v]
    ensures Merge(WorkerCosts(price, t)) + WorkerCost(price, s.workers[w], s.up[w], s.down[w])
         == Merge(WorkerCosts(price, s)) + WorkerCost(price, t.workers[w], t.up[w], t.down[w])
  {
    var share := WorkerCost(price, t.workers[w], t.up[w], t.down[w]);
    assert WorkerCosts(price, t) == WorkerCosts(price, s)[w := share];
    MergeUpdate(WorkerCosts(price, s), w, share);
  }

  lemma QueueCostChange<I>(price: I -> nat, queues: seq<seq<I>>, q: nat, queue: seq<I>)
    requires q < |queues|
    ensures Merge(QueueCosts(price, queues[q := queue])) + Total(ItemCost(price), queues[q])
         == Merge(QueueCosts(price, queues)) + Total(ItemCost(price), queue)
  {
    assert QueueCosts(price, queues[q := queue]) == QueueCosts(price, queues)[q := Total(ItemCost(price), queue)];
    MergeUpdate(QueueCosts(price, queues), q, Total(ItemCost(price), queue));
  }

  lemma CostAssign<I, M, E>(c: Config<I, M, E>, price: I -> nat, s: State<I, M, E>)
    requires Shaped(c, s) && Enabled(c, s, ManagerAssign)
    ensures Budget(c, price, AfterAssign(c, s)) == Budget(c, price, s) - 1
  {
    var t := AfterAssign(c, s);
    var w, q := FirstIdle(s.active), HighestQueue(s.queues);
    TotalSnoc(DownCost(price), s.down[w], Assign(s.queues[q][0]));
    WorkerCostChange(price, s, t, w);
    QueueCostChange(price, s.queues, q, s.queues[q][1..]);
  }

  lemma CostReceive<I, M, E>(c: Config<I, M, E>, price: I -> nat, s: State<I, M, E>, w: nat)
    requires Shaped(c, s) && Enabled(c, s, ManagerReceive(w)) && Unlimited(c)
    ensures Budget(c, price, AfterReceive(c, s, w)) == Budget(c, price, s) - 1
  {
    var t := AfterReceive(c, s, w);
    WorkerCostChange(price, s, t, w);
    match s.up[w][0]
    case Request(q) => TotalSnoc(DownCost(price), s.down[w], Ack(true));
    case Work(q, i) =>
      var idx := QueueIndex(q, |s.queues|);
      TotalSnoc(ItemCost(price), s.queues[idx], i);
      QueueCostChange(price, s.queues, idx, s.queues[idx] + [i]);
    case Run(_) =>
    case Done(_) =>
  }

  lemma CostCollect<I, M, E>(c: Config<I, M, E>, price: I -> nat, s: State<I, M, E>)
    requires Shaped(c, s) && Enabled(c, s, ManagerCollect)
    ensures Budget(c, price, AfterCollect(c, s)) == Budget(c, price, s) - 1
  {
    var t := AfterCollect(c, s);
    var w, q := s.manager.rank, s.manager.queue;
    var i := s.up[w][0].item;
    WorkerCostChange(price, s, t, w);
    TotalSnoc(ItemCost(price), s.queues[q], i);
    QueueCostChange(price, s.queues, q, s.queues[q] + [i]);
  }

  lemma CostFinish<I, M, E>(c: Config<I, M, E>, price: I -> nat, s: State<I, M, E>)
    requires Shaped(c, s) && Enabled(c, s, ManagerFinish)
    ensures Budget(c, price, AfterFinish(c, s)) == Budget(c, price, s) - 1
  {
    var t := AfterFinish(c, s);
    forall w | 1 <= w < c.nproc
      ensures WorkerCosts(price, t)[w] == WorkerCosts(price, s)[w] + 1
    {
      TotalSnoc(DownCost(price), s.down[w], Exit);
    }
    assert WorkerCosts(price, t)[0] == WorkerCosts(price, s)[0];
    MergeRaise(WorkerCosts(price, s)[1..], WorkerCosts(price, t)[1..]);
  }

  /** A worker's own step takes one off what its channels and its program cost, and changes nothing else. */
  lemma CostOneWorker<I(!new), M, E>(c: Config<I, M, E>, price: I -> nat, s: State<I, M, E>, step: Step)
    requires Priced(c, price) && Unlimited(c) && Shaped(c, s) && Enabled(c, s, step)
    requires step.WorkerReceive? || step.WorkerAct? || step.WorkerAck? || step.WorkerSend?
    requires step.WorkerAck? ==> s.down[step.rank][0] == Ack(true)
    ensures var t, w := Apply(c, s, step), step.rank;
            && WorkerCost(price, t.workers[w], t.up[w], t.down[w]) <= WorkerCost(price, s.workers[w], s.up[w], s.down[w]) - 1
            && t.queues == s.queues && t.manager == s.manager && |t.workers| == |t.up| == |t.down| == c.nproc
            && forall v :: 0 <= v < c.nproc && v != w ==>
                 s.workers[v] == t.workers[v] && s.up[v] == t.up[v] && s.down[v] == t.down[v]
  {
    var t := Apply(c, s, step);
    var w := step.rank;
    var u := s.up[w];
    if |t.up[w]| == |u| + 1 {
      TotalSnoc(UpCost(price), u, t.up[w][|u|]);
    }
    if step.WorkerReceive? && s.down[w][0].Assign? {
      var i := s.down[w][0].item;
      assert price(i) >= Total(ActionCost(price), c.program(i)) + 2;
    }
  }

  lemma CostWorker<I(!new), M, E>(c: Config<I, M, E>, price: I -> nat, s: State<I, M, E>, step: Step)
    requires Priced(c, price) && Unlimited(c) && Inv(c, s) && Enabled(c, s, step)
    requires step.WorkerReceive? || step.WorkerAct? || step.WorkerAck? || step.WorkerSend?
    requires step.WorkerAck? ==> s.down[step.rank][0] == Ack(true)
    ensures Budget(c, price, Apply(c, s, step)) <= Budget(c, price, s) - 1
  {
    hide Inv, WorkerInv, WorkerCost, Apply, Priced;
    InvShaped(c, s);
    CostOneWorker(c, price, s, step);
    WorkerCostChange(price, s, Apply(c, s, step), step.rank);
  }

  /** With unlimited queues no request is ever denied. */
  ghost predicate NoDenials<I, M, E>(c: Config<I, M, E>, s: State<I, M, E>)
    requires Shaped(c, s)
  {
    forall w, k :: 1 <= w < c.nproc && 0 <= k < |s.down[w]| ==> s.down[w][k] != Ack(false)
  }

  lemma NoDenialsNext<I, M, E>(c: Config<I, M, E>, s: State<I, M, E>, step: Step)
    requires Inv(c, s) && Enabled(c, s, step) && Unlimited(c) && NoDenials(c, s)
    ensures Shaped(c, Apply(c, s, step)) && NoDenials(c, Apply(c, s, step))
  {
    hide WorkerInv;
    InvNext(c, s, step, Apply(c, s, step));
  }

  lemma CostNext<I(!new), M, E>(c: Config<I, M, E>, price: I -> nat, s: State<I, M, E>, step: Step, t: State<I, M, E>)
    requires Priced(c, price) && Unlimited(c) && Inv(c, s) && NoDenials(c, s) && Next(c, s, step, t)
    ensures Budget(c, price, t) <= Budget(c, price, s) - 1
  {
    match step
    case ManagerAssign => CostAssign(c, price, s);
    case ManagerReceive(w) => CostReceive(c, price, s, w);
    case ManagerCollect => CostCollect(c, price, s);
    case ManagerFinish => CostFinish(c, price, s);
    case WorkerReceive(_) => CostWorker(c, price, s, step);
    case WorkerAct(_) => CostWorker(c, price, s, step);
    case WorkerAck(_) => CostWorker(c, price, s, step);
    case WorkerSend(_) => CostWorker(c, price, s, step);
  }

  lemma BudgetNonNegative<I, M, E>(c: Config<I, M, E>, price: I -> nat, s: State<I, M, E>)
    requires Inv(c, s)
    ensures Budget(c, price, s) >= 0
  {
    forall w | 0 <= w < c.nproc ensures WorkerCosts(price, s)[w] >= 0 {
      if w > 0 && !s.manager.Finished? {
        assert WorkerInv(s.active[w], Collects(s, w), s.workers[w], s.up[w], s.down[w]);
      }
    }
    MergeNonNegative(WorkerCosts(price, s));
    MergeNonNegative(QueueCosts(price, s.queues));
  }

  lemma BudgetInit<I, M, E>(c: Config<I, M, E>, price: I -> nat, items: seq<I>)
    requires c.nproc >= 1 && |c.maxima| >= 1
    ensures Budget(c, price, Init(c, items)) == Total(ItemCost(price), items) + c.nproc
  {
    var s := Init(c, items);
    MergeEmpty(WorkerCosts(price, s));
    assert QueueCosts(price, s.queues)[0] == Total(ItemCost(price), items);
    MergeEmpty(QueueCosts(price, s.queues)[1..]);
  }

  lemma NoDenialsInit<I, M, E>(c: Config<I, M, E>, items: seq<I>)
    requires c.nproc >= 1 && |c.maxima| >= 1
    ensures NoDenials(c, Init(c, items))
  {
  }

  lemma {:induction false} Spending<I(!new), M, E>(c: Config<I, M, E>, price: I -> nat, items: seq<I>,
                                                   states: seq<State<I, M, E>>, steps: seq<Step>, k: nat)
    requires IsRun(c, items, states, steps) && k < |states| && Priced(c, price) && Unlimited(c)
    ensures Inv(c, states[k]) && NoDenials(c, states[k])
    ensures Budget(c, price, states[k]) <= Total(ItemCost(price), items) + c.nproc - k
  {
    hide Inv, NoDenials, Budget, Enabled, Apply;
    InvRun(c, items, states, steps, k);
    if k == 0 {
      NoDenialsInit(c, items);
      BudgetInit(c, price, items);
    } else {
      Spending(c, price, items, states, steps, k - 1);
      RunNext(c, items, states, steps, k - 1);
      NoDenialsNext(c, states[k - 1], steps[k - 1]);
      CostNext(c, price, states[k - 1], steps[k - 1], states[k]);
    }
  }

  /** Runs are bounded: no interleaving takes more steps than the starting items are worth. */
  lemma RunsAreBounded<I(!new), M, E>(c: Config<I, M, E>, price: I -> nat, items: seq<I>,
                                      states: seq<State<I, M, E>>, steps: seq<Step>)
    requires IsRun(c, items, states, steps) && Priced(c, price) && Unlimited(c)
    ensures |steps| <= Total(ItemCost(price), items) + c.nproc
  {
    Spending(c, price, items, states, steps, |steps|);
    BudgetNonNegative(c, price, states[|steps|]);
  }

  /** What an active worker, or the manager on its behalf, can do next. */
  ghost function NextFor<I, M, E>(c: Config<I, M, E>, s: State<I, M, E>, w: nat): Step
    requires Shaped(c, s) && 1 <= w < c.nproc
  {
    match s.workers[w]
    case Busy(_, _, Ready) => WorkerAct(w)
    case Busy(_, _, Granted) => WorkerSend(w)
    case Busy(_, _, Requested) =>
      if s.down[w] != [] then WorkerAck(w) else if s.manager.Collecting? then ManagerCollect else ManagerReceive(w)
    case _ =>
      if s.down[w] != [] then WorkerReceive(w) else if s.manager.Collecting? then ManagerCollect else ManagerReceive(w)
  }

  /** No reachable state is stuck before every worker has stopped. */
  lemma NoDeadlock<I, M, E>(c: Config<I, M, E>, items: seq<I>,
                            states: seq<State<I, M, E>>, steps: seq<Step>, k: nat)
    requires IsRun(c, items, states, steps) && k < |states|
    requires c.nproc >= 2
    ensures Shaped(c, states[k])
    ensures (forall step :: !Enabled(c, states[k], step)) <==>
            states[k].manager.Finished? && forall w :: 1 <= w < c.nproc ==> states[k].workers[w].Stopped?
  {
    InvRun(c, items, states, steps, k);
    var s := states[k];
    if s.manager.Finished? {
      if w :| 1 <= w < c.nproc && !s.workers[w].Stopped? {
        assert Enabled(c, s, WorkerReceive(w));
      }
    } else if s.manager.Collecting? {
      var r := s.manager.rank;
      assert WorkerInv(s.active[r], true, s.workers[r], s.up[r], s.down[r]);
      if |s.up[r]| > 0 {
        assert s.up[r][0].Work? by {
          if |s.up[r]| > 1 { assert s.up[r][..|s.up[r]| - 1][0] == s.up[r][0]; }
        }
        assert Enabled(c, s, ManagerCollect);
      } else {
        assert Enabled(c, s, NextFor(c, s, r));
      }
    } else if w :| 1 <= w < c.nproc && s.active[w] {
      assert WorkerInv(true, Collects(s, w), s.workers[w], s.up[w], s.down[w]);
      assert Enabled(c, s, NextFor(c, s, w));
    } else {
      DoneMeansOthersIdle(s.active);
      assert !s.active[1];
      assert Enabled(c, s, ManagerFinish) || Enabled(c, s, ManagerAssign);
    }
  }
}
