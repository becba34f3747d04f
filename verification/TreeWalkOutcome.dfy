/**
  The tree walk from start to end: it always ends, and it is complete exactly when every
  directory it meets can be opened.
 */
module TreeWalkOutcome {
  import opened Pwt
  import opened PwtConservation
  import opened PwtProgress
  import opened PwtOutcome
  import opened TreeWalk

  // ---------------------------------------------------------------- the walk ends

  // Steps a comparison costs once a worker holds it.
  const COMPARE_PRICE: nat := 2

  ghost function FileActionPrice(): Act -> nat {
    (a: Act) => match a
                case Effect(_) => 1
                case Tell(_) => 2
                case Submit(_, _) => COMPARE_PRICE + 7
  }

  ghost function TotalPaths(f: Path -> nat, paths: seq<Path>): nat {
    if paths == [] then 0 else f(paths[0]) + TotalPaths(f, paths[1..])
  }

  ghost function PathPrice(fs: FileSystem, app: App, p: Path): nat
    decreases Below(fs, p), 2
  {
    if p !in fs then 0
    else if fs[p].Directory? then 10 + DirPrice(fs, app, p)
    else 2 + Total(FileActionPrice(), app.files(p))
  }

  ghost function DirPrice(fs: FileSystem, app: App, d: Path): nat
    decreases Below(fs, d), 1
  {
    if !IsReadable(fs, d) then 0 else 1 + NamesPrice(fs, app, d, fs[d].entries)
  }

  ghost function NamesPrice(fs: FileSystem, app: App, d: Path, entries: seq<string>): nat
    decreases Below(fs, d), 0, |entries|
  {
    if entries == [] then 0
    else
      (if IsDot(entries[0]) then 0
       else if d + [entries[0]] !in fs then 9
       else
         assert d + [entries[0]] in Below(fs, d) && d + [entries[0]] !in Below(fs, d + [entries[0]]);
         9 + PathPrice(fs, app, d + [entries[0]])) +
      NamesPrice(fs, app, d, entries[1..])
  }

  ghost function PathPricer(fs: FileSystem, app: App): Path -> nat {
    p => PathPrice(fs, app, p)
  }

  // A path in a buffer also pays its share of the submission.
  ghost function BufferedPathPricer(fs: FileSystem, app: App): Path -> nat {
    p => 9 + PathPrice(fs, app, p)
  }

  ghost function DirPricer(fs: FileSystem, app: App): Path -> nat {
    d => DirPrice(fs, app, d)
  }

  ghost function BufferedDirPricer(fs: FileSystem, app: App): Path -> nat {
    d => 9 + DirPrice(fs, app, d)
  }

  ghost function ItemPrice(fs: FileSystem, app: App): Item -> nat {
    (i: Item) => match i
                 case StatPaths(paths) => 2 + TotalPaths(PathPricer(fs, app), paths)
                 case ReadDirs(dirs) => 2 + TotalPaths(DirPricer(fs, app), dirs)
                 case CompareFiles(_, _) => COMPARE_PRICE
  }

  ghost function WalkCost(fs: FileSystem, app: App): Act -> nat {
    ActionCost(ItemPrice(fs, app))
  }

  lemma {:induction false} TotalConcat<A>(f: A -> nat, s: seq<A>, t: seq<A>)
    ensures Total(f, s + t) == Total(f, s) + Total(f, t)
  {
    if s == [] {
      assert s + t == t;
    } else {
      assert (s + t)[1..] == s[1..] + t;
      TotalConcat(f, s[1..], t);
    }
  }

  lemma {:induction false} TotalPathsSnoc(f: Path -> nat, paths: seq<Path>, p: Path)
    ensures TotalPaths(f, paths + [p]) == TotalPaths(f, paths) + f(p)
  {
    if paths == [] {
      assert paths + [p] == [p];
    } else {
      assert (paths + [p])[1..] == paths[1..] + [p];
      TotalPathsSnoc(f, paths[1..], p);
    }
  }

  lemma {:induction false} Surcharge(f: Path -> nat, g: Path -> nat, paths: seq<Path>)
    requires forall p :: g(p) == 9 + f(p)
    ensures TotalPaths(g, paths) == TotalPaths(f, paths) + 9 * |paths|
  {
    if paths != [] {
      Surcharge(f, g, paths[1..]);
    }
  }

  /** Submitting a non-empty batch costs no more than the shares of the paths in it. */
  lemma SubmitPrice(fs: FileSystem, app: App, b: seq<Path>)
    requires b != []
    ensures WalkCost(fs, app)(Submit(0, ReadDirs(b))) <= TotalPaths(BufferedDirPricer(fs, app), b)
    ensures WalkCost(fs, app)(Submit(0, StatPaths(b))) <= TotalPaths(BufferedPathPricer(fs, app), b)
  {
    Surcharge(DirPricer(fs, app), BufferedDirPricer(fs, app), b);
    Surcharge(PathPricer(fs, app), BufferedPathPricer(fs, app), b);
  }

  lemma {:induction false} ReadNamesPrice(fs: FileSystem, app: App, d: Path, entries: seq<string>, buffer: seq<Path>)
    ensures var (acts, left) := ReadNames(d, entries, buffer);
            Total(WalkCost(fs, app), acts) + TotalPaths(BufferedPathPricer(fs, app), left)
            <= TotalPaths(BufferedPathPricer(fs, app), buffer) + NamesPrice(fs, app, d, entries)
    decreases |entries|
  {
    if entries != [] && !IsDot(entries[0]) {
      var b := buffer + [d + [entries[0]]];
      TotalPathsSnoc(BufferedPathPricer(fs, app), buffer, d + [entries[0]]);
      SubmitPrice(fs, app, b);
      ReadNamesPrice(fs, app, d, entries[1..], if |b| >= PATH_BUFFER_MAX then [] else b);
    } else if entries != [] {
      ReadNamesPrice(fs, app, d, entries[1..], buffer);
    }
  }

  lemma {:induction false} ReadRunPrice(fs: FileSystem, app: App, dirs: seq<Path>, buffer: seq<Path>)
    ensures Total(WalkCost(fs, app), ReadRun(fs, dirs, buffer))
            <= TotalPaths(DirPricer(fs, app), dirs) + TotalPaths(BufferedPathPricer(fs, app), buffer)
    decreases |dirs|
  {
    var cost := WalkCost(fs, app);
    if dirs == [] {
      if buffer != [] {
        SubmitPrice(fs, app, buffer);
        assert Total(cost, FlushPaths(buffer)) == cost(Submit(0, StatPaths(buffer))) + Total(cost, []);
      }
    } else if IsReadable(fs, dirs[0]) {
      var (acts, b) := ReadNames(dirs[0], fs[dirs[0]].entries, buffer);
      ReadNamesPrice(fs, app, dirs[0], fs[dirs[0]].entries, buffer);
      ReadRunPrice(fs, app, dirs[1..], b);
      TotalConcat(cost, acts + [Effect(Listed(dirs[0]))], ReadRun(fs, dirs[1..], b));
      TotalSnoc(cost, acts, Effect(Listed(dirs[0])));
    }
  }

  lemma {:induction false} TotalAgrees(f: Act -> nat, g: Act -> nat, acts: seq<Act>)
    requires forall k :: 0 <= k < |acts| ==> f(acts[k]) == g(acts[k])
    ensures Total(f, acts) == Total(g, acts)
  {
    if acts != [] {
      assert forall k :: 0 <= k < |acts| - 1 ==> acts[1..][k] == acts[k + 1];
      TotalAgrees(f, g, acts[1..]);
    }
  }

  lemma StatOnePrice(fs: FileSystem, app: App, p: Path)
    requires FilesOnlyCompare(app)
    ensures Total(WalkCost(fs, app), StatOne(fs, app, p))
            + (if IsDirectory(fs, p) then 9 + DirPrice(fs, app, p) else 0) == PathPrice(fs, app, p)
  {
    var cost := WalkCost(fs, app);
    TotalAgrees(cost, FileActionPrice(), app.files(p));
    var head := [Effect(Stated(p)), Effect(Processed(p))];
    assert head[1..] == [Effect(Processed(p))] && head[1..][1..] == [];
    TotalConcat(cost, head, app.files(p));
    assert Total(cost, [Effect(Stated(p))]) == 1 + Total(cost, []);
  }

  lemma SentDirsPrice(fs: FileSystem, app: App, b: seq<Path>, rest: seq<Act>)
    requires b != []
    ensures Total(WalkCost(fs, app), [Submit(0, ReadDirs(b))] + rest)
            <= TotalPaths(BufferedDirPricer(fs, app), b) + Total(WalkCost(fs, app), rest)
  {
    var acts := [Submit(0, ReadDirs(b))] + rest;
    assert acts[1..] == rest;
    SubmitPrice(fs, app, b);
  }

  lemma {:induction false} StatRunPrice(fs: FileSystem, app: App, paths: seq<Path>, buffer: seq<Path>)
    requires FilesOnlyCompare(app)
    ensures Total(WalkCost(fs, app), StatRun(fs, app, paths, buffer))
            <= TotalPaths(PathPricer(fs, app), paths) + TotalPaths(BufferedDirPricer(fs, app), buffer)
    decreases |paths|
  {
    var cost := WalkCost(fs, app);
    if paths == [] {
      if buffer != [] {
        SentDirsPrice(fs, app, buffer, []);
        assert FlushDirs(buffer) + [] == FlushDirs(buffer);
      }
    } else {
      var p, b := paths[0], StatBuffer(fs, paths[0], buffer);
      StatOnePrice(fs, app, p);
      TotalPathsSnoc(BufferedDirPricer(fs, app), buffer, p);
      if |b| >= PATH_BUFFER_MAX {
        var rest := StatRun(fs, app, paths[1..], []);
        StatRunPrice(fs, app, paths[1..], []);
        SentDirsPrice(fs, app, b, rest);
        TotalConcat(cost, StatOne(fs, app, p), [Submit(0, ReadDirs(b))] + rest);
      } else {
        StatRunPrice(fs, app, paths[1..], b);
        TotalConcat(cost, StatOne(fs, app, p), StatRun(fs, app, paths[1..], b));
      }
    }
  }

  lemma WalkIsPriced(fs: FileSystem, app: App, nproc: nat, maxima: seq<int>)
    requires FilesOnlyCompare(app)
    ensures Priced(Job(fs, app, nproc, maxima), ItemPrice(fs, app))
  {
    forall i: Item
      ensures ItemPrice(fs, app)(i) >= Total(WalkCost(fs, app), ProgramOf(fs, app, i)) + 2
    {
      match i
      case StatPaths(paths) => StatRunPrice(fs, app, paths, []);
      case ReadDirs(dirs) => ReadRunPrice(fs, app, dirs, []);
      case CompareFiles(_, _) =>
    }
  }

  /** No run goes on for ever, and a run that cannot be continued has left the manager's loop. */
  lemma WalkEnds(fs: FileSystem, app: App, nproc: nat, maxima: seq<int>, starts: seq<Path>,
                 states: seq<State<Item, Msg, Event>>, steps: seq<Step>)
    requires FilesOnlyCompare(app) && nproc >= 2
    requires Unlimited(Job(fs, app, nproc, maxima))
    requires IsRun(Job(fs, app, nproc, maxima), StartItems(starts), states, steps)
    ensures |steps| <= Total(ItemCost(ItemPrice(fs, app)), StartItems(starts)) + nproc
    ensures Shaped(Job(fs, app, nproc, maxima), states[|steps|])
    ensures (forall step :: !Enabled(Job(fs, app, nproc, maxima), states[|steps|], step)) ==> states[|steps|].manager.Finished?
  {
    WalkIsPriced(fs, app, nproc, maxima);
    RunsAreBounded(Job(fs, app, nproc, maxima), ItemPrice(fs, app), StartItems(starts), states, steps);
    NoDeadlock(Job(fs, app, nproc, maxima), StartItems(starts), states, steps, |steps|);
  }

  /** At no point of a run has an observer of the node at p counted more than the node contributes in all. */
  lemma WalkCountsAtMost(fs: FileSystem, app: App, w: Weights, p: Path, nproc: nat, maxima: seq<int>, starts: seq<Path>,
                         states: seq<State<Item, Msg, Event>>, steps: seq<Step>, k: nat)
    requires WellFormed(fs) && AllReadable(fs) && FilesOnlyCompare(app)
    requires w.msg(WorkDone) == 0 && OnlyAt(fs, app, w, p)
    requires (forall e :: w.event(e) >= 0) && (forall m :: w.msg(m) >= 0)
    requires forall j :: 0 <= j < |starts| ==> starts[j] in fs
    requires IsRun(Job(fs, app, nproc, maxima), StartItems(starts), states, steps) && k < |states|
    ensures Sum(w.event, states[k].log) >= 0 && Sum(w.msg, states[k].handled) >= 0
    ensures Sum(w.event, states[k].log) + Sum(w.msg, states[k].handled) <= Covering(starts, p) * LocalOwes(fs, app, w, p)
  {
    hide WellFormed, AllReadable, FilesOnlyCompare, OnlyAt, LocalOwes, Faithful, Priced, IsRun, ItemPrice, ItemOwes, Covering;
    BatchingIsFaithful(fs, app, w, nproc, maxima);
    WalkIsPriced(fs, app, nproc, maxima);
    NeverTooMuch(Job(fs, app, nproc, maxima), ItemPrice(fs, app), WalkMeter(fs, app, w), StartItems(starts), states, steps, k);
    StartsOwe(fs, app, w, p, starts);
  }

  // ---------------------------------------------------------------- the walk is complete

  ghost function ListedMeter(x: Event): Meter<Item, Msg, Event> {
    Meter(e => if e == x then 1 else 0, m => 0, i => 0)
  }

  lemma {:induction false} ReadRunListsReadable(fs: FileSystem, dirs: seq<Path>, buffer: seq<Path>, k: nat)
    requires k < |ReadRun(fs, dirs, buffer)|
    ensures match ReadRun(fs, dirs, buffer)[k]
            case Effect(Listed(d)) => IsReadable(fs, d)
            case _ => true
    decreases |dirs|
  {
    if dirs != [] {
      var (acts, b) := ReadNames(dirs[0], fs[dirs[0]].entries, buffer);
      if k < |acts| {
        ReadNamesOnlyStat(dirs[0], fs[dirs[0]].entries, buffer);
      } else if k > |acts| {
        ReadRunListsReadable(fs, dirs[1..], b, k - |acts| - 1);
      }
    }
  }

  lemma {:induction false} StatRunListsNothing(fs: FileSystem, app: App, paths: seq<Path>, buffer: seq<Path>, k: nat)
    requires FilesOnlyCompare(app)
    requires k < |StatRun(fs, app, paths, buffer)|
    ensures match StatRun(fs, app, paths, buffer)[k]
            case Effect(Listed(_)) => false
            case _ => true
    decreases |paths|
  {
    if paths != [] {
      var one, b := StatOne(fs, app, paths[0]), StatBuffer(fs, paths[0], buffer);
      if k < |one| {
        assert paths[0] in fs;
        assert k >= 2 ==> one[k] == app.files(paths[0])[k - 2];
      } else if |b| < PATH_BUFFER_MAX {
        StatRunListsNothing(fs, app, paths[1..], b, k - |one|);
      } else if k > |one| {
        StatRunListsNothing(fs, app, paths[1..], [], k - |one| - 1);
      }
    }
  }

  /** A directory that cannot be opened is never reported as read. */
  lemma UnreadableNeverListed(fs: FileSystem, app: App, nproc: nat, maxima: seq<int>, starts: seq<Path>,
                              states: seq<State<Item, Msg, Event>>, steps: seq<Step>, d: Path)
    requires FilesOnlyCompare(app) && (d in fs && fs[d].Directory? ==> !fs[d].readable)
    requires IsRun(Job(fs, app, nproc, maxima), StartItems(starts), states, steps)
    requires states[|steps|].manager.Finished?
    ensures multiset(states[|steps|].log)[Listed(d)] == 0
  {
    var x := Listed(d);
    var meter := ListedMeter(x);
    var job := Job(fs, app, nproc, maxima);
    forall i: Item
      ensures meter.item(i) == Sum(ActionOwes(meter), job.program(i)) + meter.msg(job.result(i))
    {
      var acts := ProgramOf(fs, app, i);
      forall k | 0 <= k < |acts| ensures ActionOwes(meter)(acts[k]) == 0 {
        match i
        case StatPaths(paths) => StatRunListsNothing(fs, app, paths, [], k);
        case ReadDirs(dirs) => ReadRunListsReadable(fs, dirs, [], k);
      }
      SumNothing(ActionOwes(meter), acts);
    }
    FinishedMeansAllDone(job, meter, StartItems(starts), states, steps);
    SumNothing(meter.item, StartItems(starts));
    SumNothing(meter.msg, states[|steps|].handled);
    SumCounts(meter.event, states[|steps|].log, x);
  }

  /** For one start: the finished walk has visited every node at or below it exactly once, in every way
      that node calls for, if and only if every directory there could be opened. */
  lemma WalkIsCompleteIffReadable(fs: FileSystem, app: App, nproc: nat, maxima: seq<int>, start: Path,
                                  states: seq<State<Item, Msg, Event>>, steps: seq<Step>)
    requires WellFormed(fs) && FilesOnlyCompare(app)
    requires start in fs && forall p :: p in fs ==> start <= p
    requires IsRun(Job(fs, app, nproc, maxima), StartItems([start]), states, steps)
    requires states[|steps|].manager.Finished?
    ensures (forall x :: multiset(states[|steps|].log)[x] == if Due(fs, x) then 1 else 0) <==> AllReadable(fs)
  {
    if AllReadable(fs) {
      forall x ensures multiset(states[|steps|].log)[x] == if Due(fs, x) then 1 else 0 {
        WalkIsExact(fs, app, nproc, maxima, [start], states, steps, x);
        assert Due(fs, x) ==> start <= x.path;
        assert [start][1..] == [];
      }
    } else {
      var d :| IsDirectory(fs, d) && !IsReadable(fs, d);
      UnreadableNeverListed(fs, app, nproc, maxima, [start], states, steps, d);
      assert Due(fs, Listed(d));
    }
  }
}
