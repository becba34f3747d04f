/**
  The process-worker framework of pftool: one manager rank, any number of worker
  ranks, one FIFO channel in each direction between the manager and each worker.

  A work function is represented by the list of actions it performs for an item,
  in order: local effects, manager-run messages sent without asking, and work
  submissions, each of which is a request, an acknowledgement and the work itself.
  After the last action the worker sends its done message.
 */
module Pwt {

  datatype Action<I, M, E> =
    | Effect(event: E)
    | Tell(msg: M)
    | Submit(queue: nat, item: I)

  // Worker to manager.
  datatype Up<I, M> =
    | Request(queue: nat)
    | Work(queue: nat, item: I)
    | Run(msg: M)
    | Done(msg: M)

  // Manager to worker.
  datatype Down<I> =
    | Assign(item: I)
    | Ack(accepted: bool)
    | Exit

  datatype Phase = Ready | Requested | Granted

  datatype Worker<I, M, E> =
    | Idle
    | Busy(rest: seq<Action<I, M, E>>, result: M, phase: Phase)
    | Stopped

  // Collecting is the blocking receive that follows an accepted request.
  datatype Manager =
    | Polling
    | Collecting(rank: nat, queue: nat)
    | Finished

  // maxima[q] is the max field of work queue q; a negative number means unlimited.
  datatype Config<!I, !M, !E> = Config(
    nproc: nat,
    maxima: seq<int>,
    program: I -> seq<Action<I, M, E>>,
    result: I -> M)

  datatype State<I, M, E> = State(
    manager: Manager,
    queues: seq<seq<I>>,
    active: seq<bool>,
    workers: seq<Worker<I, M, E>>,
    up: seq<seq<Up<I, M>>>,
    down: seq<seq<Down<I>>>,
    log: seq<E>,
    handled: seq<M>)

  datatype Step =
    | ManagerAssign
    | ManagerReceive(from: nat)
    | ManagerCollect
    | ManagerFinish
    | WorkerReceive(rank: nat)
    | WorkerAct(rank: nat)
    | WorkerAck(rank: nat)
    | WorkerSend(rank: nat)

  // ---------------------------------------------------------------- scheduler

  /** The lowest rank marked idle, or |active| when there is none. */
  function FirstIdle(active: seq<bool>): (r: nat)
    ensures r <= |active|
    ensures r < |active| ==> !active[r]
    ensures forall k :: 0 <= k < r ==> active[k]
  {
    if active == [] then 0
    else if !active[0] then 0
    else 1 + FirstIdle(active[1..])
  }

  /** The highest non-empty queue, or -1 when every queue is empty. */
  function HighestQueue<I>(queues: seq<seq<I>>): (q: int)
    ensures -1 <= q < |queues|
    ensures q >= 0 ==> queues[q] != []
    ensures forall k :: q < k < |queues| ==> queues[k] == []
  {
    if queues == [] then -1
    else if queues[|queues| - 1] != [] then |queues| - 1
    else HighestQueue(queues[..|queues| - 1])
  }

  function CountActive(active: seq<bool>): nat {
    if active == [] then 0 else (if active[0] then 1 else 0) + CountActive(active[1..])
  }

  predicate AllEmpty<I>(queues: seq<seq<I>>) {
    forall q :: 0 <= q < |queues| ==> queues[q] == []
  }

  predicate CanAssignWork<I>(queues: seq<seq<I>>, active: seq<bool>) {
    !AllEmpty(queues) && FirstIdle(active) < |active|
  }

  /** The test that ends the job: every queue empty and at most one slot active. */
  predicate WorkDone<I>(queues: seq<seq<I>>, active: seq<bool>) {
    AllEmpty(queues) && CountActive(active) <= 1
  }

  function QueueIndex(requested: nat, count: nat): (q: nat)
    requires count > 0
    ensures q < count
    ensures requested < count ==> q == requested
    ensures requested >= count ==> q == count - 1
  {
    if requested >= count then count - 1 else requested
  }

  predicate Full(max: int, count: nat) {
    0 <= max <= count
  }

  lemma {:induction false} CountActiveZero(active: seq<bool>)
    ensures CountActive(active) == 0 <==> forall k :: 0 <= k < |active| ==> !active[k]
  {
    if active != [] {
      CountActiveZero(active[1..]);
      assert forall k :: 1 <= k < |active| ==> active[k] == active[1..][k - 1];
    }
  }

  /** The manager's own slot is active for ever, so the test leaves room for nobody else. */
  lemma DoneMeansOthersIdle(active: seq<bool>)
    requires |active| > 0 && active[0]
    ensures CountActive(active) <= 1 <==> forall k :: 1 <= k < |active| ==> !active[k]
  {
    CountActiveZero(active[1..]);
    assert forall k :: 1 <= k < |active| ==> active[k] == active[1..][k - 1];
  }

  lemma {:induction false} AtMostOneActive(active: seq<bool>)
    ensures CountActive(active) <= 1 <==> forall r, k :: 0 <= r < k < |active| ==> !active[r] || !active[k]
  {
    if active != [] {
      var rest := active[1..];
      AtMostOneActive(rest);
      CountActiveZero(rest);
      assert forall k :: 1 <= k < |active| ==> active[k] == rest[k - 1];
      if forall r, k :: 0 <= r < k < |active| ==> !active[r] || !active[k] {
        forall r, k | 0 <= r < k < |rest|
          ensures !rest[r] || !rest[k]
        {
          assert rest[r] == active[r + 1] && rest[k] == active[k + 1];
        }
      }
    }
  }

  // ---------------------------------------------------------------- the step relation

  ghost predicate Shaped<I, M, E>(c: Config<I, M, E>, s: State<I, M, E>) {
    && c.nproc >= 1
    && |c.maxima| >= 1
    && |s.queues| == |c.maxima|
    && |s.active| == |s.workers| == |s.up| == |s.down| == c.nproc
    && s.active[0]
    && s.workers[0] == Stopped
    && s.up[0] == []
    && s.down[0] == []
    && (s.manager.Collecting? ==> 1 <= s.manager.rank < c.nproc && s.manager.queue < |s.queues|)
  }

  ghost function Init<I, M, E>(c: Config<I, M, E>, items: seq<I>): State<I, M, E>
    requires c.nproc >= 1 && |c.maxima| >= 1
  {
    State(Polling,
          seq(|c.maxima|, q => if q == 0 then items else []),
          seq(c.nproc, w => w == 0),
          seq(c.nproc, w => if w == 0 then Stopped else Idle),
          seq(c.nproc, _ => []),
          seq(c.nproc, _ => []),
          [], [])
  }

  ghost predicate Enabled<I, M, E>(c: Config<I, M, E>, s: State<I, M, E>, step: Step)
    requires Shaped(c, s)
  {
    match step
    case ManagerAssign => s.manager.Polling? && CanAssignWork(s.queues, s.active)
    case ManagerReceive(w) => s.manager.Polling? && 1 <= w < c.nproc && s.up[w] != []
    case ManagerCollect => s.manager.Collecting? && s.up[s.manager.rank] != [] && s.up[s.manager.rank][0].Work?
    case ManagerFinish => s.manager.Polling? && WorkDone(s.queues, s.active)
    case WorkerReceive(w) =>
      && 1 <= w < c.nproc && s.workers[w].Idle?
      && s.down[w] != [] && !s.down[w][0].Ack?
    case WorkerAct(w) => 1 <= w < c.nproc && s.workers[w].Busy? && s.workers[w].phase.Ready?
    case WorkerAck(w) =>
      && 1 <= w < c.nproc && s.workers[w].Busy? && s.workers[w].phase.Requested?
      && s.down[w] != [] && s.down[w][0].Ack?
    case WorkerSend(w) =>
      && 1 <= w < c.nproc && s.workers[w].Busy? && s.workers[w].phase.Granted?
      && s.workers[w].rest != [] && s.workers[w].rest[0].Submit?
  }

  ghost function AfterAssign<I, M, E>(c: Config<I, M, E>, s: State<I, M, E>): State<I, M, E>
    requires Shaped(c, s) && Enabled(c, s, ManagerAssign)
  {
    var w := FirstIdle(s.active);
    var q := HighestQueue(s.queues);
    s.(queues := s.queues[q := s.queues[q][1..]],
       active := s.active[w := true],
       down := s.down[w := s.down[w] + [Assign(s.queues[q][0])]])
  }

  ghost function AfterReceive<I, M, E>(c: Config<I, M, E>, s: State<I, M, E>, w: nat): State<I, M, E>
    requires Shaped(c, s) && Enabled(c, s, ManagerReceive(w))
  {
    var t := s.(up := s.up[w := s.up[w][1..]]);
    match s.up[w][0]
    case Request(q) =>
      var idx := QueueIndex(q, |s.queues|);
      var full := Full(c.maxima[idx], |s.queues[idx]|);
      t.(manager := if full then Polling else Collecting(w, idx),
         down := s.down[w := s.down[w] + [Ack(!full)]])
    case Work(q, i) =>
      var idx := QueueIndex(q, |s.queues|);
      t.(queues := s.queues[idx := s.queues[idx] + [i]])
    case Run(m) => t.(handled := s.handled + [m])
    case Done(m) => t.(handled := s.handled + [m], active := s.active[w := false])
  }

  ghost function AfterCollect<I, M, E>(c: Config<I, M, E>, s: State<I, M, E>): State<I, M, E>
    requires Shaped(c, s) && Enabled(c, s, ManagerCollect)
  {
    var w, q := s.manager.rank, s.manager.queue;
    s.(manager := Polling,
       up := s.up[w := s.up[w][1..]],
       queues := s.queues[q := s.queues[q] + [s.up[w][0].item]])
  }

  ghost function AfterFinish<I, M, E>(c: Config<I, M, E>, s: State<I, M, E>): State<I, M, E>
    requires Shaped(c, s)
  {
    s.(manager := Finished,
       down := seq(c.nproc, w requires 0 <= w < |s.down| => if w == 0 then s.down[w] else s.down[w] + [Exit]))
  }

  ghost function AfterWorkerReceive<I, M, E>(c: Config<I, M, E>, s: State<I, M, E>, w: nat): State<I, M, E>
    requires Shaped(c, s) && Enabled(c, s, WorkerReceive(w))
  {
    var t := s.(down := s.down[w := s.down[w][1..]]);
    match s.down[w][0]
    case Assign(i) => t.(workers := s.workers[w := Busy(c.program(i), c.result(i), Ready)])
    case Exit => t.(workers := s.workers[w := Stopped])
  }

  ghost function AfterWorkerAct<I, M, E>(c: Config<I, M, E>, s: State<I, M, E>, w: nat): State<I, M, E>
    requires Shaped(c, s) && Enabled(c, s, WorkerAct(w))
  {
    var wk := s.workers[w];
    if wk.rest == [] then
      s.(workers := s.workers[w := Idle], up := s.up[w := s.up[w] + [Done(wk.result)]])
    else
      match wk.rest[0]
      case Effect(e) =>
        s.(workers := s.workers[w := wk.(rest := wk.rest[1..])], log := s.log + [e])
      case Tell(m) =>
        s.(workers := s.workers[w := wk.(rest := wk.rest[1..])], up := s.up[w := s.up[w] + [Run(m)]])
      case Submit(q, _) =>
        s.(workers := s.workers[w := wk.(phase := Requested)], up := s.up[w := s.up[w] + [Request(q)]])
  }

  ghost function AfterWorkerAck<I, M, E>(c: Config<I, M, E>, s: State<I, M, E>, w: nat): State<I, M, E>
    requires Shaped(c, s) && Enabled(c, s, WorkerAck(w))
  {
    s.(workers := s.workers[w := s.workers[w].(phase := if s.down[w][0].accepted then Granted else Ready)],
       down := s.down[w := s.down[w][1..]])
  }

  ghost function AfterWorkerSend<I, M, E>(c: Config<I, M, E>, s: State<I, M, E>, w: nat): State<I, M, E>
    requires Shaped(c, s) && Enabled(c, s, WorkerSend(w))
  {
    var wk := s.workers[w];
    s.(workers := s.workers[w := Busy(wk.rest[1..], wk.result, Ready)],
       up := s.up[w := s.up[w] + [Work(wk.rest[0].queue, wk.rest[0].item)]])
  }

  ghost function Apply<I, M, E>(c: Config<I, M, E>, s: State<I, M, E>, step: Step): State<I, M, E>
    requires Shaped(c, s) && Enabled(c, s, step)
  {
    match step
    case ManagerAssign => AfterAssign(c, s)
    case ManagerReceive(w) => AfterReceive(c, s, w)
    case ManagerCollect => AfterCollect(c, s)
    case ManagerFinish => AfterFinish(c, s)
    case WorkerReceive(w) => AfterWorkerReceive(c, s, w)
    case WorkerAct(w) => AfterWorkerAct(c, s, w)
    case WorkerAck(w) => AfterWorkerAck(c, s, w)
    case WorkerSend(w) => AfterWorkerSend(c, s, w)
  }

  ghost predicate Next<I, M, E>(c: Config<I, M, E>, s: State<I, M, E>, step: Step, t: State<I, M, E>) {
    Shaped(c, s) && Enabled(c, s, step) && t == Apply(c, s, step)
  }

  /** states is a run from the initial state, steps the steps taken. */
  ghost predicate IsRun<I, M, E>(c: Config<I, M, E>, items: seq<I>,
                                 states: seq<State<I, M, E>>, steps: seq<Step>)
  {
    && c.nproc >= 1 && |c.maxima| >= 1
    && |states| == |steps| + 1
    && states[0] == Init(c, items)
    && forall k :: 0 <= k < |steps| ==> Next(c, states[k], steps[k], states[k + 1])
  }

  /** Work is assigned from the front of the highest queue that has any, to the lowest idle process. */
  lemma AssignsInOrder<I, M, E>(c: Config<I, M, E>, s: State<I, M, E>, t: State<I, M, E>)
    requires Next(c, s, ManagerAssign, t)
    ensures exists q, w ::
              && 0 <= q < |s.queues| && s.queues[q] != [] && (forall k :: q < k < |s.queues| ==> s.queues[k] == [])
              && 0 <= w < |s.active| && !s.active[w] && (forall k :: 0 <= k < w ==> s.active[k])
              && t == s.(queues := s.queues[q := s.queues[q][1..]], active := s.active[w := true],
                         down := s.down[w := s.down[w] + [Assign(s.queues[q][0])]])
  {
    var q, w := HighestQueue(s.queues), FirstIdle(s.active);
    assert q >= 0 && s.queues[q] != [];
  }

  /** A request is denied exactly when its queue, the highest one if there are fewer, has a maximum and has reached it;
      no queue changes, and the manager waits for the work only if it has accepted. */
  lemma AnswersRequests<I, M, E>(c: Config<I, M, E>, s: State<I, M, E>, w: nat, t: State<I, M, E>)
    requires Next(c, s, ManagerReceive(w), t) && s.up[w][0].Request?
    ensures var asked := s.up[w][0].queue;
            var q := if asked < |s.queues| then asked else |s.queues| - 1;
            var full := c.maxima[q] >= 0 && |s.queues[q]| >= c.maxima[q];
            t == s.(manager := if full then Polling else Collecting(w, q), up := s.up[w := s.up[w][1..]],
                    down := s.down[w := s.down[w] + [Ack(!full)]])
  {
  }

  /** The work that was granted goes behind everything in the queue that was asked for. */
  lemma CollectsBehind<I, M, E>(c: Config<I, M, E>, s: State<I, M, E>, t: State<I, M, E>)
    requires Next(c, s, ManagerCollect, t)
    ensures var w, q := s.manager.rank, s.manager.queue;
            && s.up[w] != [] && s.up[w][0].Work?
            && t == s.(manager := Polling, up := s.up[w := s.up[w][1..]],
                       queues := s.queues[q := s.queues[q] + [s.up[w][0].item]])
  {
  }

  // ---------------------------------------------------------------- the protocol invariant

  ghost predicate Collects<I, M, E>(s: State<I, M, E>, w: nat) {
    s.manager.Collecting? && s.manager.rank == w
  }

  /** A channel to the manager that holds the granted work item, if one is due, and then only told messages. */
  ghost predicate Tells<I, M>(u: seq<Up<I, M>>, due: bool) {
    && (due ==> u != [] && u[0].Work?)
    && forall k :: (if due then 1 else 0) <= k < |u| ==> u[k].Run?
  }

  ghost predicate TellsThen<I, M>(u: seq<Up<I, M>>, due: bool) {
    u != [] && Tells(u[..|u| - 1], due)
  }

  /** What may be in flight to and from one worker, given what the manager believes about it. */
  ghost predicate WorkerInv<I, M, E>(active: bool, due: bool, wk: Worker<I, M, E>,
                                     u: seq<Up<I, M>>, d: seq<Down<I>>)
  {
    match wk
    case Idle =>
      if !active then !due && u == [] && d == []
      else if d != [] then !due && u == [] && |d| == 1 && d[0].Assign?
      else TellsThen(u, due) && u[|u| - 1].Done?
    case Busy(rest, _, phase) =>
      && active
      && match phase {
           case Ready => d == [] && Tells(u, due)
           case Requested =>
             && rest != [] && rest[0].Submit?
             && (if d == [] then TellsThen(u, due) && u[|u| - 1] == Request(rest[0].queue)
                 else u == [] && d == [Ack(due)])
           case Granted => rest != [] && rest[0].Submit? && due && u == [] && d == []
         }
    case Stopped => false
  }

  ghost predicate Inv<I, M, E>(c: Config<I, M, E>, s: State<I, M, E>) {
    && Shaped(c, s)
    && if s.manager.Finished? then
         && AllEmpty(s.queues)
         && (forall w :: 1 <= w < c.nproc ==>
               && !s.active[w] && s.up[w] == []
               && ((s.workers[w].Idle? && s.down[w] == [Exit]) || (s.workers[w].Stopped? && s.down[w] == [])))
       else
         forall w :: 1 <= w < c.nproc ==>
           WorkerInv(s.active[w], Collects(s, w), s.workers[w], s.up[w], s.down[w])
  }

  lemma InvShaped<I, M, E>(c: Config<I, M, E>, s: State<I, M, E>)
    requires Inv(c, s)
    ensures Shaped(c, s)
  {
  }

  lemma InvInit<I, M, E>(c: Config<I, M, E>, items: seq<I>)
    requires c.nproc >= 1 && |c.maxima| >= 1
    ensures Inv(c, Init(c, items))
  {
  }

  lemma InvAssign<I, M, E>(c: Config<I, M, E>, s: State<I, M, E>)
    requires Inv(c, s) && Enabled(c, s, ManagerAssign)
    ensures Inv(c, AfterAssign(c, s))
  {
  }

  /** The first message of a worker's channel is taken: the told ones and the last one keep their places behind it. */
  lemma Popped<I, M>(u: seq<Up<I, M>>, due: bool)
    requires u != []
    ensures Tells(u, due) ==> Tells(u[1..], false)
    ensures TellsThen(u, due) && |u| > 1 ==> TellsThen(u[1..], false) && u[1..][|u| - 2] == u[|u| - 1]
    ensures TellsThen(u, due) && |u| > 1 ==> if due then u[0].Work? else u[0].Run?
    ensures TellsThen(u, due) && |u| == 1 ==> !due
  {
    var u' := u[1..];
    if |u| > 1 {
      assert u'[..|u'| - 1] == u[..|u| - 1][1..];
      assert u[..|u| - 1][0] == u[0];
    }
  }

  lemma WorkerReceived<I, M, E>(active: bool, wk: Worker<I, M, E>, u: seq<Up<I, M>>, d: seq<Down<I>>, ok: bool)
    requires WorkerInv(active, false, wk, u, d) && u != []
    ensures !u[0].Work?
    ensures u[0].Request? ==> WorkerInv(active, ok, wk, u[1..], d + [Ack(ok)])
    ensures u[0].Run? ==> WorkerInv(active, false, wk, u[1..], d)
    ensures u[0].Done? ==> WorkerInv(false, false, wk, u[1..], d)
  {
    Popped(u, false);
  }

  lemma WorkerCollected<I, M, E>(active: bool, wk: Worker<I, M, E>, u: seq<Up<I, M>>, d: seq<Down<I>>)
    requires WorkerInv(active, true, wk, u, d) && u != [] && u[0].Work?
    ensures WorkerInv(active, false, wk, u[1..], d)
  {
    Popped(u, true);
  }

  lemma InvReceive<I, M, E>(c: Config<I, M, E>, s: State<I, M, E>, w: nat)
    requires Inv(c, s) && Enabled(c, s, ManagerReceive(w))
    ensures !s.up[w][0].Work?
    ensures Inv(c, AfterReceive(c, s, w))
  {
    hide WorkerInv;
    WorkerReceived(s.active[w], s.workers[w], s.up[w], s.down[w], true);
    WorkerReceived(s.active[w], s.workers[w], s.up[w], s.down[w], false);
  }

  lemma InvCollect<I, M, E>(c: Config<I, M, E>, s: State<I, M, E>)
    requires Inv(c, s) && Enabled(c, s, ManagerCollect)
    ensures Inv(c, AfterCollect(c, s))
  {
    hide WorkerInv;
    var w := s.manager.rank;
    WorkerCollected(s.active[w], s.workers[w], s.up[w], s.down[w]);
  }

  lemma InvFinish<I, M, E>(c: Config<I, M, E>, s: State<I, M, E>)
    requires Inv(c, s) && Enabled(c, s, ManagerFinish)
    ensures Inv(c, AfterFinish(c, s))
  {
    DoneMeansOthersIdle(s.active);
  }

  lemma InvOneWorker<I, M, E>(c: Config<I, M, E>, s: State<I, M, E>, step: Step)
    requires Shaped(c, s) && Enabled(c, s, step) && !s.manager.Finished?
    requires step.WorkerReceive? || step.WorkerAct? || step.WorkerAck? || step.WorkerSend?
    requires var w := step.rank; WorkerInv(s.active[w], Collects(s, w), s.workers[w], s.up[w], s.down[w])
    ensures var w, t := step.rank, Apply(c, s, step);
            WorkerInv(t.active[w], Collects(t, w), t.workers[w], t.up[w], t.down[w])
  {
    var w := step.rank;
    var u, u' := s.up[w], Apply(c, s, step).up[w];
    if |u'| == |u| + 1 {
      assert u'[..|u|] == u;
    }
  }

  lemma InvWorker<I, M, E>(c: Config<I, M, E>, s: State<I, M, E>, step: Step)
    requires Inv(c, s) && Enabled(c, s, step)
    requires step.WorkerReceive? || step.WorkerAct? || step.WorkerAck? || step.WorkerSend?
    ensures Inv(c, Apply(c, s, step))
  {
    hide WorkerInv;
    if !s.manager.Finished? {
      InvOneWorker(c, s, step);
    }
  }

  lemma InvNext<I, M, E>(c: Config<I, M, E>, s: State<I, M, E>, step: Step, t: State<I, M, E>)
    requires Inv(c, s) && Next(c, s, step, t)
    ensures Inv(c, t)
  {
    match step
    case ManagerAssign => InvAssign(c, s);
    case ManagerReceive(w) => InvReceive(c, s, w);
    case ManagerCollect => InvCollect(c, s);
    case ManagerFinish => InvFinish(c, s);
    case WorkerReceive(_) => InvWorker(c, s, step);
    case WorkerAct(_) => InvWorker(c, s, step);
    case WorkerAck(_) => InvWorker(c, s, step);
    case WorkerSend(_) => InvWorker(c, s, step);
  }

  lemma {:induction false} InvRun<I, M, E>(c: Config<I, M, E>, items: seq<I>,
                                           states: seq<State<I, M, E>>, steps: seq<Step>, k: nat)
    requires IsRun(c, items, states, steps) && k < |states|
    ensures Inv(c, states[k])
  {
    if k == 0 {
      InvInit(c, items);
    } else {
      InvRun(c, items, states, steps, k - 1);
      InvNext(c, states[k - 1], steps[k - 1], states[k]);
    }
  }

  lemma RunNext<I, M, E>(c: Config<I, M, E>, items: seq<I>,
                         states: seq<State<I, M, E>>, steps: seq<Step>, k: nat)
    requires IsRun(c, items, states, steps) && k < |steps|
    ensures Inv(c, states[k]) && Next(c, states[k], steps[k], states[k + 1])
  {
    InvRun(c, items, states, steps, k);
  }

  /** Nothing is queued, in flight or being executed. */
  ghost predicate Quiescent<I, M, E>(c: Config<I, M, E>, s: State<I, M, E>)
    requires Shaped(c, s)
  {
    && !s.manager.Collecting?
    && AllEmpty(s.queues)
    && forall w :: 1 <= w < c.nproc ==> s.workers[w].Idle? && s.up[w] == [] && s.down[w] == []
  }

  /** Termination detection is exact: in every reachable state of the polling manager the done
      test holds if and only if no work item and no message is left anywhere. */
  lemma TerminationDetection<I, M, E>(c: Config<I, M, E>, items: seq<I>,
                                      states: seq<State<I, M, E>>, steps: seq<Step>, k: nat)
    requires IsRun(c, items, states, steps) && k < |states|
    requires !states[k].manager.Finished?
    ensures Shaped(c, states[k])
    ensures WorkDone(states[k].queues, states[k].active) <==>
            Quiescent(c, states[k])
  {
    InvRun(c, items, states, steps, k);
    var s := states[k];
    DoneMeansOthersIdle(s.active);
    forall w | 1 <= w < c.nproc
      ensures !s.active[w] <==> !Collects(s, w) && s.workers[w].Idle? && s.up[w] == [] && s.down[w] == []
    {
      assert WorkerInv(s.active[w], Collects(s, w), s.workers[w], s.up[w], s.down[w]);
    }
    assert s.manager.Collecting? ==> Collects(s, s.manager.rank);
  }

  /** A worker marked idle has nothing in flight in either direction. */
  lemma IdleMeansNothingInFlight<I, M, E>(c: Config<I, M, E>, items: seq<I>,
                                          states: seq<State<I, M, E>>, steps: seq<Step>, k: nat, w: nat)
    requires IsRun(c, items, states, steps) && k < |states| && 1 <= w < c.nproc
    requires !states[k].manager.Finished?
    ensures Shaped(c, states[k])
    ensures !states[k].active[w] ==>
              states[k].workers[w].Idle? && states[k].up[w] == [] && states[k].down[w] == [] && !Collects(states[k], w)
  {
    InvRun(c, items, states, steps, k);
  }

  /** While the manager waits for granted work, the first message to arrive from that worker is
      that work, and no other worker is holding a grant. */
  lemma GrantedWorkComesNext<I, M, E>(c: Config<I, M, E>, items: seq<I>,
                                      states: seq<State<I, M, E>>, steps: seq<Step>, k: nat)
    requires IsRun(c, items, states, steps) && k < |states|
    requires states[k].manager.Collecting?
    ensures Shaped(c, states[k])
    ensures var r := states[k].manager.rank;
            && (states[k].up[r] != [] ==> states[k].up[r][0].Work?)
            && (forall w, j :: 1 <= w < c.nproc && 0 <= j < |states[k].up[w]| && states[k].up[w][j].Work? ==> w == r && j == 0)
            && (forall w :: 1 <= w < c.nproc && states[k].workers[w].Busy? && states[k].workers[w].phase.Granted? ==> w == r)
  {
    InvRun(c, items, states, steps, k);
    var s := states[k];
    forall w, j | 1 <= w < c.nproc && 0 <= j < |s.up[w]| && s.up[w][j].Work?
      ensures w == s.manager.rank && j == 0
    {
      var u := s.up[w];
      assert WorkerInv(s.active[w], Collects(s, w), s.workers[w], u, s.down[w]);
      if j < |u| - 1 { assert u[..|u| - 1][j] == u[j]; }
    }
    var r := s.manager.rank;
    assert WorkerInv(s.active[r], true, s.workers[r], s.up[r], s.down[r]);
    if |s.up[r]| > 1 { assert s.up[r][..|s.up[r]| - 1][0] == s.up[r][0]; }
  }
}
