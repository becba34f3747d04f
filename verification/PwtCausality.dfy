/**
  Order of delivery in the process-worker framework: a message that a work function
  tells the manager before submitting an item is handled before any message that
  results from that item, because a request is only granted after everything sent
  before it has been received.
 */
module PwtCausality {
  import opened Pwt

  // needs(i): messages that must have been handled before item i is accepted.
  // after(m): messages that must have been handled before m is.
  datatype Order<!I, !M> = Order(needs: I -> set<M>, after: M -> set<M>)

  ghost predicate Told<I, M, E>(acts: seq<Action<I, M, E>>, k: nat, msg: M)
    requires k <= |acts|
  {
    exists t :: 0 <= t < k && acts[t] == Tell(msg)
  }

  /** A program only submits an item after telling whatever that item needs and its own item did not
      already have, and reports nothing that needs more than its own item did. */
  ghost predicate Respects<I(!new), M(!new), E>(c: Config<I, M, E>, o: Order<I, M>) {
    forall i ::
      && o.after(c.result(i)) <= o.needs(i)
      && TellsFreely(o, c.program(i))
      && forall k, m :: 0 <= k < |c.program(i)| && c.program(i)[k].Submit? && m in o.needs(c.program(i)[k].item) ==>
           m in o.needs(i) || Told(c.program(i), k, m)
  }

  ghost predicate TellsFreely<I, M, E>(o: Order<I, M>, acts: seq<Action<I, M, E>>) {
    forall k :: 0 <= k < |acts| && acts[k].Tell? ==> o.after(acts[k].msg) == {}
  }

  ghost predicate Covered<M(!new)>(needed: set<M>, handled: seq<M>) {
    forall m :: m in needed ==> m in handled
  }

  ghost predicate UpOrdered<I, M(!new)>(o: Order<I, M>, u: Up<I, M>, handled: seq<M>) {
    match u
    case Request(_) => true
    case Work(_, i) => Covered(o.needs(i), handled)
    case Run(m) => o.after(m) == {}
    case Done(m) => Covered(o.after(m), handled)
  }

  ghost predicate RestOrdered<I, M(!new), E>(o: Order<I, M>, rest: seq<Action<I, M, E>>, u: seq<Up<I, M>>, handled: seq<M>) {
    && TellsFreely(o, rest)
    && forall k, m :: 0 <= k < |rest| && rest[k].Submit? && m in o.needs(rest[k].item) ==>
         m in handled || Run(m) in u || Told(rest, k, m)
  }

  ghost predicate WorkerOrdered<I, M(!new), E>(o: Order<I, M>, wk: Worker<I, M, E>, u: seq<Up<I, M>>, d: seq<Down<I>>, handled: seq<M>) {
    && (forall k :: 0 <= k < |u| ==> UpOrdered(o, u[k], handled))
    && (forall k :: 0 <= k < |d| && d[k].Assign? ==> Covered(o.needs(d[k].item), handled))
    && (wk.Busy? ==> Covered(o.after(wk.result), handled) && RestOrdered(o, wk.rest, u, handled))
  }

  ghost predicate QueuesOrdered<I, M(!new)>(o: Order<I, M>, queues: seq<seq<I>>, handled: seq<M>) {
    forall q, k :: 0 <= q < |queues| && 0 <= k < |queues[q]| ==> Covered(o.needs(queues[q][k]), handled)
  }

  /** Each handled message comes after everything it depends on. */
  ghost predicate HandledInOrder<M(!new)>(after: M -> set<M>, handled: seq<M>) {
    forall t :: 0 <= t < |handled| ==> Covered(after(handled[t]), handled[..t])
  }

  ghost predicate Ordered<I, M(!new), E>(c: Config<I, M, E>, o: Order<I, M>, s: State<I, M, E>)
    requires Shaped(c, s)
  {
    && HandledInOrder(o.after, s.handled)
    && QueuesOrdered(o, s.queues, s.handled)
    && forall w :: 1 <= w < c.nproc ==> WorkerOrdered(o, s.workers[w], s.up[w], s.down[w], s.handled)
  }

  lemma HandledGrows<I, M(!new)>(o: Order<I, M>, handled: seq<M>, msg: M)
    requires HandledInOrder(o.after, handled) && Covered(o.after(msg), handled)
    ensures HandledInOrder(o.after, handled + [msg])
  {
    forall t | 0 <= t < |handled| + 1
      ensures Covered(o.after((handled + [msg])[t]), (handled + [msg])[..t])
    {
      assert (handled + [msg])[..t] == handled[..t];
      if t == |handled| { assert handled[..t] == handled; }
    }
  }

  /** What was in order before another message was handled still is, also when the message leaves
      the channel it was handled from. */
  lemma WorkerGrows<I, M(!new), E>(o: Order<I, M>, wk: Worker<I, M, E>, u: seq<Up<I, M>>, d: seq<Down<I>>,
                                   handled: seq<M>, msg: M)
    requires WorkerOrdered(o, wk, u, d, handled)
    ensures WorkerOrdered(o, wk, u, d, handled + [msg])
    ensures u != [] && (u[0] == Run(msg) || u[0] == Done(msg)) ==> WorkerOrdered(o, wk, u[1..], d, handled + [msg])
  {
    forall k | 0 <= k < |u|
      ensures UpOrdered(o, u[k], handled + [msg])
    {
    }
    if u != [] && (u[0] == Run(msg) || u[0] == Done(msg)) {
      forall m | Run(m) in u && m != msg ensures Run(m) in u[1..] {
        var k :| 0 <= k < |u| && u[k] == Run(m);
        assert u[1..][k - 1] == Run(m);
      }
    }
  }

  lemma WorkerForgets<I, M(!new), E>(o: Order<I, M>, wk: Worker<I, M, E>, u: seq<Up<I, M>>, d: seq<Down<I>>, handled: seq<M>)
    requires WorkerOrdered(o, wk, u, d, handled)
    ensures u != [] && !u[0].Run? ==> WorkerOrdered(o, wk, u[1..], d, handled)
    ensures forall b :: WorkerOrdered(o, wk, u, d + [Ack(b)], handled)
  {
    if u != [] && !u[0].Run? {
      forall m | Run(m) in u ensures Run(m) in u[1..] {
        var k :| 0 <= k < |u| && u[k] == Run(m);
        assert u[1..][k - 1] == Run(m);
      }
    }
  }

  lemma OrderedReceive<I, M(!new), E>(c: Config<I, M, E>, o: Order<I, M>, s: State<I, M, E>, w: nat)
    requires Inv(c, s) && Enabled(c, s, ManagerReceive(w)) && Ordered(c, o, s)
    ensures Ordered(c, o, AfterReceive(c, s, w))
  {
    var t := AfterReceive(c, s, w);
    InvReceive(c, s, w);
    assert WorkerOrdered(o, s.workers[w], s.up[w], s.down[w], s.handled);
    assert UpOrdered(o, s.up[w][0], s.handled);
    if s.up[w][0].Request? {
      WorkerForgets(o, s.workers[w], s.up[w], s.down[w], s.handled);
      WorkerForgets(o, s.workers[w], s.up[w][1..], s.down[w], s.handled);
    } else {
      var msg := s.up[w][0].msg;
      HandledGrows(o, s.handled, msg);
      forall v | 1 <= v < c.nproc
        ensures WorkerOrdered(o, t.workers[v], t.up[v], t.down[v], t.handled)
      {
        WorkerGrows(o, s.workers[v], s.up[v], s.down[v], s.handled, msg);
      }
    }
  }

  lemma OrderedAssign<I, M(!new), E>(c: Config<I, M, E>, o: Order<I, M>, s: State<I, M, E>)
    requires Inv(c, s) && Enabled(c, s, ManagerAssign) && Ordered(c, o, s)
    ensures Ordered(c, o, AfterAssign(c, s))
  {
  }

  lemma OrderedCollect<I, M(!new), E>(c: Config<I, M, E>, o: Order<I, M>, s: State<I, M, E>)
    requires Inv(c, s) && Enabled(c, s, ManagerCollect) && Ordered(c, o, s)
    ensures Ordered(c, o, AfterCollect(c, s))
  {
    var w := s.manager.rank;
    assert WorkerOrdered(o, s.workers[w], s.up[w], s.down[w], s.handled);
    assert UpOrdered(o, s.up[w][0], s.handled);
    WorkerForgets(o, s.workers[w], s.up[w], s.down[w], s.handled);
  }

  lemma OrderedFinish<I, M(!new), E>(c: Config<I, M, E>, o: Order<I, M>, s: State<I, M, E>)
    requires Inv(c, s) && Enabled(c, s, ManagerFinish) && Ordered(c, o, s)
    ensures Ordered(c, o, AfterFinish(c, s))
  {
    var t := AfterFinish(c, s);
    forall w | 1 <= w < c.nproc
      ensures WorkerOrdered(o, t.workers[w], t.up[w], t.down[w], t.handled)
    {
      assert WorkerOrdered(o, s.workers[w], s.up[w], s.down[w], s.handled);
    }
  }

  lemma OrderedStart<I(!new), M(!new), E>(c: Config<I, M, E>, o: Order<I, M>, s: State<I, M, E>, w: nat)
    requires Inv(c, s) && Enabled(c, s, WorkerReceive(w)) && Ordered(c, o, s) && Respects(c, o)
    ensures Ordered(c, o, AfterWorkerReceive(c, s, w))
  {
    assert WorkerOrdered(o, s.workers[w], s.up[w], s.down[w], s.handled);
    if s.down[w][0].Assign? {
      var i := s.down[w][0].item;
      assert Covered(o.needs(i), s.handled);
      assert RestOrdered(o, c.program(i), s.up[w], s.handled);
    }
  }

  /** Taking the first action keeps the rest in order, provided a told message is now in the channel. */
  lemma RestAdvances<I, M(!new), E>(o: Order<I, M>, rest: seq<Action<I, M, E>>, u: seq<Up<I, M>>, handled: seq<M>)
    requires rest != [] && RestOrdered(o, rest, u, handled)
    ensures rest[0].Tell? ==> RestOrdered(o, rest[1..], u + [Run(rest[0].msg)], handled)
    ensures !rest[0].Tell? ==> RestOrdered(o, rest[1..], u, handled)
    ensures forall x :: RestOrdered(o, rest, u + [x], handled)
    ensures forall x :: !rest[0].Tell? ==> RestOrdered(o, rest[1..], u + [x], handled)
  {
    forall k, m | 0 <= k < |rest| - 1 && rest[1..][k].Submit? && m in o.needs(rest[1..][k].item)
      ensures m in handled || Run(m) in u || Told(rest[1..], k, m) || rest[0] == Tell(m)
    {
      assert rest[1..][k] == rest[k + 1];
      if Told(rest, k + 1, m) && rest[0] != Tell(m) {
        var t :| 0 <= t < k + 1 && rest[t] == Tell(m);
        assert rest[1..][t - 1] == Tell(m);
      }
    }
    assert rest[0].Tell? ==> Run(rest[0].msg) in u + [Run(rest[0].msg)];
  }

  lemma OrderedAct<I, M(!new), E>(c: Config<I, M, E>, o: Order<I, M>, s: State<I, M, E>, w: nat)
    requires Inv(c, s) && Enabled(c, s, WorkerAct(w)) && Ordered(c, o, s)
    ensures Ordered(c, o, AfterWorkerAct(c, s, w))
  {
    var t := AfterWorkerAct(c, s, w);
    var wk := s.workers[w];
    assert WorkerOrdered(o, wk, s.up[w], s.down[w], s.handled);
    if wk.rest != [] {
      RestAdvances(o, wk.rest, s.up[w], s.handled);
    }
    assert WorkerOrdered(o, t.workers[w], t.up[w], t.down[w], t.handled);
  }

  lemma OrderedSend<I, M(!new), E>(c: Config<I, M, E>, o: Order<I, M>, s: State<I, M, E>, w: nat)
    requires Inv(c, s) && Enabled(c, s, WorkerSend(w)) && Ordered(c, o, s)
    ensures Ordered(c, o, AfterWorkerSend(c, s, w))
  {
    var t := AfterWorkerSend(c, s, w);
    var wk := s.workers[w];
    assert WorkerInv(s.active[w], Collects(s, w), wk, s.up[w], s.down[w]);
    assert WorkerOrdered(o, wk, s.up[w], s.down[w], s.handled);
    RestAdvances(o, wk.rest, s.up[w], s.handled);
    assert !wk.rest[0].Tell?;
    assert Covered(o.needs(wk.rest[0].item), s.handled);
    assert WorkerOrdered(o, t.workers[w], t.up[w], t.down[w], t.handled);
  }

  lemma OrderedAck<I, M(!new), E>(c: Config<I, M, E>, o: Order<I, M>, s: State<I, M, E>, w: nat)
    requires Inv(c, s) && Enabled(c, s, WorkerAck(w)) && Ordered(c, o, s)
    ensures Ordered(c, o, AfterWorkerAck(c, s, w))
  {
  }

  lemma OrderedNext<I(!new), M(!new), E>(c: Config<I, M, E>, o: Order<I, M>, s: State<I, M, E>, step: Step, t: State<I, M, E>)
    requires Inv(c, s) && Next(c, s, step, t) && Ordered(c, o, s) && Respects(c, o)
    ensures Shaped(c, t) && Ordered(c, o, t)
  {
    InvNext(c, s, step, t);
    match step
    case ManagerAssign => OrderedAssign(c, o, s);
    case ManagerReceive(w) => OrderedReceive(c, o, s, w);
    case ManagerCollect => OrderedCollect(c, o, s);
    case ManagerFinish => OrderedFinish(c, o, s);
    case WorkerReceive(w) => OrderedStart(c, o, s, w);
    case WorkerAct(w) => OrderedAct(c, o, s, w);
    case WorkerAck(w) => OrderedAck(c, o, s, w);
    case WorkerSend(w) => OrderedSend(c, o, s, w);
  }

  lemma OrderedInit<I, M(!new), E>(c: Config<I, M, E>, o: Order<I, M>, items: seq<I>)
    requires c.nproc >= 1 && |c.maxima| >= 1
    requires forall j :: 0 <= j < |items| ==> o.needs(items[j]) == {}
    ensures Ordered(c, o, Init(c, items))
  {
  }

  /** In every reachable state the messages handled so far were handled in causal order. */
  lemma {:induction false} HandledRespectsOrder<I(!new), M(!new), E>(
      c: Config<I, M, E>, o: Order<I, M>, items: seq<I>, states: seq<State<I, M, E>>, steps: seq<Step>, k: nat)
    requires IsRun(c, items, states, steps) && k < |states| && Respects(c, o)
    requires forall j :: 0 <= j < |items| ==> o.needs(items[j]) == {}
    ensures Shaped(c, states[k]) && Ordered(c, o, states[k])
  {
    hide Ordered, Respects, Inv, Enabled, Apply;
    if k == 0 {
      OrderedInit(c, o, items);
    } else {
      HandledRespectsOrder(c, o, items, states, steps, k - 1);
      RunNext(c, items, states, steps, k - 1);
      OrderedNext(c, o, states[k - 1], steps[k - 1], states[k]);
    }
  }
}
