/**
  What a job does, whatever the interleaving: with a price on every item, what an item and everything
  derived from it do is a function of the item, so any two finished runs have done the same.
 */
module PwtOutcome {
  import opened Pwt
  import opened PwtConservation
  import opened PwtProgress

  /** What an item and everything it leads to count for. */
  ghost function ItemDoes<I(!new), M, E>(c: Config<I, M, E>, price: I -> nat, event: E -> int, msg: M -> int, i: I): int
    requires Priced(c, price)
    decreases price(i)
  {
    assert price(i) >= Total(ActionCost(price), c.program(i)) + 2;
    ActsDo(c, price, event, msg, c.program(i)) + msg(c.result(i))
  }

  ghost function ActsDo<I(!new), M, E>(c: Config<I, M, E>, price: I -> nat, event: E -> int, msg: M -> int,
                                       acts: seq<Action<I, M, E>>): int
    requires Priced(c, price)
    decreases Total(ActionCost(price), acts)
  {
    if acts == [] then 0
    else
      (match acts[0]
       case Effect(e) => event(e)
       case Tell(m) => msg(m)
       case Submit(_, i) => ItemDoes(c, price, event, msg, i)) +
      ActsDo(c, price, event, msg, acts[1..])
  }

  ghost function DoesMeter<I(!new), M, E>(c: Config<I, M, E>, price: I -> nat, event: E -> int, msg: M -> int): Meter<I, M, E>
    requires Priced(c, price)
  {
    Meter(event, msg, (i: I) => ItemDoes(c, price, event, msg, i))
  }

  lemma {:induction false} ActsDoIsSum<I(!new), M, E>(c: Config<I, M, E>, price: I -> nat, event: E -> int, msg: M -> int,
                                                      acts: seq<Action<I, M, E>>)
    requires Priced(c, price)
    ensures ActsDo(c, price, event, msg, acts) == Sum(ActionOwes(DoesMeter(c, price, event, msg)), acts)
  {
    hide Priced, Total;
    if acts != [] {
      ActsDoIsSum(c, price, event, msg, acts[1..]);
    }
  }

  lemma DoesIsFaithful<I(!new), M, E>(c: Config<I, M, E>, price: I -> nat, event: E -> int, msg: M -> int)
    requires Priced(c, price)
    ensures Faithful(c, DoesMeter(c, price, event, msg))
  {
    var m := DoesMeter(c, price, event, msg);
    forall i
      ensures m.item(i) == Sum(ActionOwes(m), c.program(i)) + m.msg(c.result(i))
    {
      ActsDoIsSum(c, price, event, msg, c.program(i));
    }
  }

  /** A finished run has done what its starting items count for. */
  lemma FinishedRunDoes<I(!new), M, E>(c: Config<I, M, E>, price: I -> nat, event: E -> int, msg: M -> int, items: seq<I>,
                                       states: seq<State<I, M, E>>, steps: seq<Step>)
    requires Priced(c, price) && IsRun(c, items, states, steps) && states[|steps|].manager.Finished?
    ensures Sum(event, states[|steps|].log) + Sum(msg, states[|steps|].handled)
            == Sum((i: I) => ItemDoes(c, price, event, msg, i), items)
  {
    hide Priced, IsRun;
    DoesIsFaithful(c, price, event, msg);
    FinishedMeansAllDone(c, DoesMeter(c, price, event, msg), items, states, steps);
  }

  /** Any two finished runs of the same programs from the same items have had the same effects and handled the same
      messages, as often, whatever the number of processes, the queues' maxima and the interleaving. */
  lemma OutcomeIsDetermined<I(!new), M, E>(c: Config<I, M, E>, d: Config<I, M, E>, price: I -> nat, items: seq<I>,
                                           states: seq<State<I, M, E>>, steps: seq<Step>,
                                           states': seq<State<I, M, E>>, steps': seq<Step>)
    requires Priced(c, price) && c.program == d.program && c.result == d.result
    requires IsRun(c, items, states, steps) && states[|steps|].manager.Finished?
    requires IsRun(d, items, states', steps') && states'[|steps'|].manager.Finished?
    ensures multiset(states[|steps|].log) == multiset(states'[|steps'|].log)
    ensures multiset(states[|steps|].handled) == multiset(states'[|steps'|].handled)
  {
    var s, t := states[|steps|], states'[|steps'|];
    hide Priced, IsRun;
    forall x: E
      ensures multiset(s.log)[x] == multiset(t.log)[x]
    {
      var event, msg := (e: E) => if e == x then 1 else 0, (m: M) => 0;
      SameCount(c, d, price, event, msg, items, states, steps, states', steps');
      SumCounts(event, s.log, x);
      SumCounts(event, t.log, x);
      SumNothing(msg, s.handled);
      SumNothing(msg, t.handled);
    }
    forall x: M
      ensures multiset(s.handled)[x] == multiset(t.handled)[x]
    {
      var event, msg := (e: E) => 0, (m: M) => if m == x then 1 else 0;
      SameCount(c, d, price, event, msg, items, states, steps, states', steps');
      SumCounts(msg, s.handled, x);
      SumCounts(msg, t.handled, x);
      SumNothing(event, s.log);
      SumNothing(event, t.log);
    }
  }

  lemma SameCount<I(!new), M, E>(c: Config<I, M, E>, d: Config<I, M, E>, price: I -> nat, event: E -> int, msg: M -> int,
                                 items: seq<I>, states: seq<State<I, M, E>>, steps: seq<Step>,
                                 states': seq<State<I, M, E>>, steps': seq<Step>)
    requires Priced(c, price) && c.program == d.program && c.result == d.result
    requires IsRun(c, items, states, steps) && states[|steps|].manager.Finished?
    requires IsRun(d, items, states', steps') && states'[|steps'|].manager.Finished?
    ensures Sum(event, states[|steps|].log) + Sum(msg, states[|steps|].handled)
            == Sum(event, states'[|steps'|].log) + Sum(msg, states'[|steps'|].handled)
  {
    hide IsRun;
    var m := DoesMeter(c, price, event, msg);
    DoesIsFaithful(c, price, event, msg);
    FinishedMeansAllDone(c, m, items, states, steps);
    FinishedMeansAllDone(d, m, items, states', steps');
  }

  // ---------------------------------------------------------------- unfinished runs

  /** Nothing that a meter counts is negative. */
  ghost predicate Counts<I(!new), M(!new), E(!new)>(m: Meter<I, M, E>) {
    && (forall e :: m.event(e) >= 0)
    && (forall msg :: m.msg(msg) >= 0)
    && (forall i :: m.item(i) >= 0)
  }

  lemma {:induction false} SumNonNegative<A>(f: A -> int, s: seq<A>)
    requires forall k :: 0 <= k < |s| ==> f(s[k]) >= 0
    ensures Sum(f, s) >= 0
  {
    if s != [] {
      assert forall k :: 0 <= k < |s| - 1 ==> s[1..][k] == s[k + 1];
      SumNonNegative(f, s[1..]);
    }
  }

  /** What items owe is not negative when events and messages do not count negatively. */
  lemma {:induction false} ItemsCount<I(!new), M(!new), E(!new)>(c: Config<I, M, E>, price: I -> nat, m: Meter<I, M, E>, i: I)
    requires Priced(c, price) && Faithful(c, m)
    requires (forall e :: m.event(e) >= 0) && (forall msg :: m.msg(msg) >= 0)
    ensures m.item(i) >= 0
    decreases price(i)
  {
    assert price(i) >= Total(ActionCost(price), c.program(i)) + 2;
    ActsCount(c, price, m, c.program(i));
  }

  lemma {:induction false} ActsCount<I(!new), M(!new), E(!new)>(c: Config<I, M, E>, price: I -> nat, m: Meter<I, M, E>,
                                                               acts: seq<Action<I, M, E>>)
    requires Priced(c, price) && Faithful(c, m)
    requires (forall e :: m.event(e) >= 0) && (forall msg :: m.msg(msg) >= 0)
    ensures Sum(ActionOwes(m), acts) >= 0
    decreases Total(ActionCost(price), acts)
  {
    if acts != [] {
      if acts[0].Submit? {
        ItemsCount(c, price, m, acts[0].item);
      }
      ActsCount(c, price, m, acts[1..]);
    }
  }

  lemma WorkerOwesCount<I(!new), M(!new), E(!new)>(m: Meter<I, M, E>, wk: Worker<I, M, E>, u: seq<Up<I, M>>, d: seq<Down<I>>)
    requires Counts(m)
    ensures WorkerOwes(m, wk, u, d) >= 0
  {
    SumNonNegative(UpOwes(m), u);
    SumNonNegative(DownOwes(m), d);
    if wk.Busy? {
      SumNonNegative(ActionOwes(m), wk.rest);
    }
  }

  lemma OwedCounts<I(!new), M(!new), E(!new)>(m: Meter<I, M, E>, s: State<I, M, E>)
    requires Counts(m) && |s.workers| == |s.up| == |s.down|
    ensures Owed(m, s) >= 0
  {
    forall w | 0 <= w < |s.workers|
      ensures WorkerParts(m, s)[w] >= 0
    {
      WorkerOwesCount(m, s.workers[w], s.up[w], s.down[w]);
    }
    forall q | 0 <= q < |s.queues|
      ensures QueueParts(m, s.queues)[q] >= 0
    {
      SumNonNegative(m.item, s.queues[q]);
    }
    MergeNonNegative(WorkerParts(m, s));
    MergeNonNegative(QueueParts(m, s.queues));
  }

  /** At no point of any run has more been done than the starting items owe. */
  lemma NeverTooMuch<I(!new), M(!new), E(!new)>(c: Config<I, M, E>, price: I -> nat, m: Meter<I, M, E>, items: seq<I>,
                                                states: seq<State<I, M, E>>, steps: seq<Step>, k: nat)
    requires Priced(c, price) && Faithful(c, m) && IsRun(c, items, states, steps) && k < |states|
    requires (forall e :: m.event(e) >= 0) && (forall msg :: m.msg(msg) >= 0)
    ensures Sum(m.event, states[k].log) >= 0 && Sum(m.msg, states[k].handled) >= 0
    ensures Sum(m.event, states[k].log) + Sum(m.msg, states[k].handled) <= Sum(m.item, items)
  {
    hide IsRun, Priced, Faithful, Owed;
    forall i
      ensures m.item(i) >= 0
    {
      ItemsCount(c, price, m, i);
    }
    Conservation(c, m, items, states, steps, k);
    OwedCounts(m, states[k]);
    SumNonNegative(m.event, states[k].log);
    SumNonNegative(m.msg, states[k].handled);
  }
}
