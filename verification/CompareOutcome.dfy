/**
  The parallel compare from start to end: one verdict per file, the right one, whatever the
  number of workers, the interleaving and the order in which chunk results arrive.
 */
module CompareOutcome {
  import opened Pwt
  import opened PwtConservation
  import opened PwtCausality
  import opened PwtProgress
  import opened TreeWalk
  import opened TreeWalkOutcome
  import opened Compare

  // ---------------------------------------------------------------- the manager's replies to one file

  function Verdicts(out: seq<Verdict>, p: Path): seq<Verdict> {
    if out == [] then []
    else Verdicts(out[..|out| - 1], p) + (if out[|out| - 1].path == p then [out[|out| - 1]] else [])
  }

  lemma VerdictsSnoc(out: seq<Verdict>, p: Path, v: Verdict)
    ensures Verdicts(out + [v], p) == Verdicts(out, p) + (if v.path == p then [v] else [])
  {
    assert (out + [v])[..|out|] == out;
  }

  predicate About(m: Msg, p: Path) {
    !m.WorkDone? && m.path == p
  }

  ghost function AddsFor(p: Path): Msg -> int {
    (m: Msg) => if m.AddChunks? && m.path == p then 1 else 0
  }

  ghost function ResultsFor(p: Path): Msg -> int {
    (m: Msg) => if m.Compared? && m.path == p then 1 else 0
  }

  ghost function MismatchesFor(p: Path): Msg -> int {
    (m: Msg) => if m.Compared? && m.path == p && !m.matched then 1 else 0
  }

  ghost predicate CountsOnly(f: Msg -> int) {
    forall m :: 0 <= f(m) <= 1
  }

  lemma {:induction false} SumBounds(f: Msg -> int, s: seq<Msg>)
    requires CountsOnly(f)
    ensures Sum(f, s) >= 0
    ensures Sum(f, s) == 0 <==> forall k :: 0 <= k < |s| ==> f(s[k]) == 0
  {
    if s != [] {
      SumBounds(f, s[1..]);
      assert forall k :: 1 <= k < |s| ==> s[k] == s[1..][k - 1];
    }
  }

  /** What the manager has heard about a chunked file: the count once, then at most that many results. */
  ghost predicate ChunkedTraffic(h: seq<Msg>, p: Path, n: nat) {
    && (forall t :: 0 <= t < |h| && About(h[t], p) ==> h[t] == AddChunks(p, n) || (h[t].Compared? && h[t].chunk >= 0))
    && (forall t :: 0 <= t < |h| && About(h[t], p) && h[t].Compared? ==> AddChunks(p, n) in h[..t])
    && Sum(AddsFor(p), h) <= 1
    && Sum(ResultsFor(p), h) <= n
  }

  /** The manager's view of a chunked file at any moment: nothing before the count is known; then the
      chunks still to come, until the first mismatch or the last match decides and clears the entry. */
  ghost predicate ChunkedView(verbose: bool, b: Board, h: seq<Msg>, p: Path, n: nat) {
    var k, bad := Sum(ResultsFor(p), h), Sum(MismatchesFor(p), h);
    if Sum(AddsFor(p), h) == 0 then k == 0 && bad == 0 && p !in b.table && Verdicts(b.out, p) == []
    else if bad > 0 then p !in b.table && Verdicts(b.out, p) == [Differs(p)]
    else if k < n then p in b.table && b.table[p] == n - k && Verdicts(b.out, p) == []
    else p !in b.table && Verdicts(b.out, p) == if verbose then [Matches(p)] else []
  }

  lemma TrafficPrefix(h: seq<Msg>, p: Path, n: nat, m: Msg)
    requires ChunkedTraffic(h + [m], p, n)
    ensures ChunkedTraffic(h, p, n)
    ensures About(m, p) && m.Compared? ==> Sum(AddsFor(p), h) == 1
    ensures Sum(MismatchesFor(p), h) >= 0
  {
    var g := h + [m];
    SumSnoc(AddsFor(p), h, m);
    SumSnoc(ResultsFor(p), h, m);
    SumBounds(AddsFor(p), h);
    SumBounds(MismatchesFor(p), h);
    forall t | 0 <= t < |h| && About(h[t], p)
      ensures h[t] == AddChunks(p, n) || (h[t].Compared? && h[t].chunk >= 0)
      ensures h[t].Compared? ==> AddChunks(p, n) in h[..t]
    {
      assert g[t] == h[t] && g[..t] == h[..t];
    }
    if About(m, p) && m.Compared? {
      assert g[|h|] == m && g[..|h|] == h;
      var t :| 0 <= t < |h| && h[t] == AddChunks(p, n);
      assert AddsFor(p)(h[t]) == 1;
    }
  }

  lemma {:induction false} ChunkedReplay(verbose: bool, h: seq<Msg>, p: Path, n: nat)
    requires n >= 1 && ChunkedTraffic(h, p, n)
    ensures ChunkedView(verbose, Replay(verbose, h), h, p, n)
  {
    if h != [] {
      var g, m := h[..|h| - 1], h[|h| - 1];
      assert h == g + [m];
      TrafficPrefix(g, p, n, m);
      ChunkedReplay(verbose, g, p, n);
      SumSnoc(AddsFor(p), g, m);
      SumSnoc(ResultsFor(p), g, m);
      SumSnoc(MismatchesFor(p), g, m);
      ChunkedStep(verbose, Replay(verbose, g), g, p, n, m);
    }
  }

  /** Messages about other files leave this one alone. */
  lemma HandleOther(verbose: bool, b: Board, p: Path, m: Msg)
    requires !About(m, p)
    ensures var c := Handle(verbose, b, m);
            (p in c.table <==> p in b.table) && (p in b.table ==> c.table[p] == b.table[p])
            && Verdicts(c.out, p) == Verdicts(b.out, p)
  {
    hide Verdicts;
    if m.Compared? {
      VerdictsSnoc(b.out, p, Differs(m.path));
      VerdictsSnoc(b.out, p, Matches(m.path));
    }
  }

  /** What the manager does with a result: a mismatch is printed unless the file's entry is gone, a match
      is printed when nothing is left to wait for. */
  lemma HandleResult(verbose: bool, b: Board, p: Path, k: int, matched: bool)
    ensures var c, left := Handle(verbose, b, Compared(p, k, matched)), Lookup(b.table, p);
            && (k < 0 ==> c.table == b.table && Verdicts(c.out, p) == Verdicts(b.out, p) +
                            if !matched then [Differs(p)] else if verbose then [Matches(p)] else [])
            && (k >= 0 && p !in b.table ==> c.table == b.table && c.out == b.out)
            && (k >= 0 && p in b.table && !matched ==>
                  p !in c.table && Verdicts(c.out, p) == Verdicts(b.out, p) + [Differs(p)])
            && (k >= 0 && p in b.table && matched && left > 1 ==>
                  p in c.table && c.table[p] == left - 1 && c.out == b.out)
            && (k >= 0 && p in b.table && matched && left == 1 ==>
                  p !in c.table && Verdicts(c.out, p) == Verdicts(b.out, p) + if verbose then [Matches(p)] else [])
  {
    hide Verdicts;
    VerdictsSnoc(b.out, p, Differs(p));
    VerdictsSnoc(b.out, p, Matches(p));
  }

  lemma ChunkedStep(verbose: bool, b: Board, g: seq<Msg>, p: Path, n: nat, m: Msg)
    requires n >= 1 && ChunkedTraffic(g + [m], p, n) && ChunkedView(verbose, b, g, p, n)
    ensures ChunkedView(verbose, Handle(verbose, b, m), g + [m], p, n)
  {
    TrafficPrefix(g, p, n, m);
    SumSnoc(AddsFor(p), g, m);
    SumSnoc(ResultsFor(p), g, m);
    SumSnoc(MismatchesFor(p), g, m);
    assert (g + [m])[|g|] == m;
    assert About(m, p) ==> m == AddChunks(p, n) || (m.Compared? && m.chunk >= 0);
    assert Sum(AddsFor(p), g + [m]) <= 1 && Sum(ResultsFor(p), g + [m]) <= n;
    SumBounds(AddsFor(p), g);
    hide ChunkedTraffic, Verdicts;
    if !About(m, p) {
      hide Handle;
      HandleOther(verbose, b, p, m);
    } else if m.Compared? {
      hide Handle;
      HandleResult(verbose, b, p, m.chunk, m.matched);
    }
  }

  /** One verdict for each result about an unchunked file, in the order of the results. */
  function ResultVerdicts(verbose: bool, h: seq<Msg>, p: Path): seq<Verdict> {
    if h == [] then []
    else
      var m := h[|h| - 1];
      ResultVerdicts(verbose, h[..|h| - 1], p) +
      if !m.Compared? || m.path != p then [] else if !m.matched then [Differs(p)] else if verbose then [Matches(p)] else []
  }

  lemma {:induction false} UnchunkedReplay(verbose: bool, h: seq<Msg>, p: Path)
    requires forall t :: 0 <= t < |h| && About(h[t], p) ==> h[t].Compared? && h[t].chunk < 0
    ensures p !in Replay(verbose, h).table
    ensures Verdicts(Replay(verbose, h).out, p) == ResultVerdicts(verbose, h, p)
  {
    if h != [] {
      var g, m := h[..|h| - 1], h[|h| - 1];
      assert h == g + [m];
      UnchunkedReplay(verbose, g, p);
      hide Verdicts, Handle;
      var b := Replay(verbose, g);
      if !About(m, p) {
        HandleOther(verbose, b, p, m);
      } else {
        HandleResult(verbose, b, p, m.chunk, m.matched);
      }
    }
  }

  lemma {:induction false} OneResultVerdict(verbose: bool, h: seq<Msg>, p: Path)
    requires Sum(ResultsFor(p), h) <= 1
    ensures ResultVerdicts(verbose, h, p)
            == if Sum(MismatchesFor(p), h) > 0 then [Differs(p)]
               else if Sum(ResultsFor(p), h) > 0 && verbose then [Matches(p)]
               else []
    ensures 0 <= Sum(MismatchesFor(p), h) <= Sum(ResultsFor(p), h)
  {
    if h != [] {
      var g, m := h[..|h| - 1], h[|h| - 1];
      assert h == g + [m];
      SumSnoc(ResultsFor(p), g, m);
      SumSnoc(MismatchesFor(p), g, m);
      SumBounds(ResultsFor(p), g);
      OneResultVerdict(verbose, g, p);
    }
  }

  // ---------------------------------------------------------------- the count is announced first

  /** Every chunk submission comes after the announcement of its file. */
  ghost predicate Announced(n: nat, acts: seq<Act>) {
    forall k :: 0 <= k < |acts| ==>
      && (acts[k].Submit? && acts[k].item.CompareFiles? && acts[k].item.chunk >= 0 ==>
            Told(acts, k, AddChunks(acts[k].item.path, n)))
      && (acts[k].Tell? ==> acts[k].msg.AddChunks?)
  }

  lemma AnnouncedConcat(n: nat, a: seq<Act>, b: seq<Act>)
    requires Announced(n, a) && Announced(n, b)
    ensures Announced(n, a + b)
  {
    var c := a + b;
    forall k | 0 <= k < |c| && c[k].Submit? && c[k].item.CompareFiles? && c[k].item.chunk >= 0
      ensures Told(c, k, AddChunks(c[k].item.path, n))
    {
      var msg := AddChunks(c[k].item.path, n);
      if k < |a| {
        assert Told(a, k, msg);
        var t :| 0 <= t < k && a[t] == Tell(msg);
        assert c[t] == Tell(msg);
      } else {
        assert b[k - |a|] == c[k];
        assert Told(b, k - |a|, msg);
        var t :| 0 <= t < k - |a| && b[t] == Tell(msg);
        assert c[t + |a|] == Tell(msg);
      }
    }
  }

  lemma FileAnnounced(world: World, o: Options, p: Path)
    ensures Announced(o.nproc, CompareActions(world, o, p))
  {
    var acts := CompareActions(world, o, p);
    if !world.dest(p).StatError? && IsChunked(world, o, p) {
      assert acts[0] == Tell(AddChunks(p, o.nproc));
      forall k | 1 <= k < |acts|
        ensures acts[k] == Submit(1, CompareFiles(p, k - 1)) && Told(acts, k, AddChunks(p, o.nproc))
      {
      }
    }
  }

  lemma {:induction false} StatRunAnnounced(fs: FileSystem, world: World, o: Options, paths: seq<Path>, buffer: seq<Path>)
    requires o.nproc > 0
    ensures Announced(o.nproc, StatRun(fs, CompareApp(world, o), paths, buffer))
    decreases |paths|
  {
    var app := CompareApp(world, o);
    if paths != [] {
      var p, b := paths[0], StatBuffer(fs, paths[0], buffer);
      FileAnnounced(world, o, p);
      var head: seq<Act> := [Effect(Stated(p)), Effect(Processed(p))];
      AnnouncedConcat(o.nproc, head, CompareActions(world, o, p));
      assert Announced(o.nproc, StatOne(fs, app, p));
      var sent: seq<Act> := [Submit(0, ReadDirs(b))];
      var rest := StatRun(fs, app, paths[1..], if |b| >= PATH_BUFFER_MAX then [] else b);
      StatRunAnnounced(fs, world, o, paths[1..], if |b| >= PATH_BUFFER_MAX then [] else b);
      AnnouncedConcat(o.nproc, sent, rest);
      AnnouncedConcat(o.nproc, StatOne(fs, app, p), sent + rest);
      AnnouncedConcat(o.nproc, StatOne(fs, app, p), rest);
    }
  }

  lemma {:induction false} ReadRunAnnounced(n: nat, fs: FileSystem, dirs: seq<Path>, buffer: seq<Path>)
    ensures Announced(n, ReadRun(fs, dirs, buffer))
    decreases |dirs|
  {
    if dirs != [] && IsReadable(fs, dirs[0]) {
      var (acts, b) := ReadNames(dirs[0], fs[dirs[0]].entries, buffer);
      forall k | 0 <= k < |acts| ensures acts[k].Submit? && acts[k].item.StatPaths? {
        ReadNamesOnlyStat(dirs[0], fs[dirs[0]].entries, buffer);
      }
      ReadRunAnnounced(n, fs, dirs[1..], b);
      var listed: seq<Act> := [Effect(Listed(dirs[0]))];
      AnnouncedConcat(n, acts, listed);
      AnnouncedConcat(n, acts + listed, ReadRun(fs, dirs[1..], b));
    }
  }

  ghost function ChunkOrder(n: nat): Order<Item, Msg> {
    Order((i: Item) => if i.CompareFiles? && i.chunk >= 0 then {AddChunks(i.path, n)} else {},
          (m: Msg) => if m.Compared? && m.chunk >= 0 then {AddChunks(m.path, n)} else {})
  }

  lemma CompareRespectsOrder(fs: FileSystem, world: World, o: Options, maxima: seq<int>)
    requires o.nproc > 0
    ensures Respects(Job(fs, CompareApp(world, o), o.nproc, maxima), ChunkOrder(o.nproc))
  {
    var app, order := CompareApp(world, o), ChunkOrder(o.nproc);
    forall i: Item
      ensures order.after(ResultOf(app, i)) <= order.needs(i)
      ensures TellsFreely(order, ProgramOf(fs, app, i))
      ensures forall k, m :: 0 <= k < |ProgramOf(fs, app, i)| && ProgramOf(fs, app, i)[k].Submit?
                             && m in order.needs(ProgramOf(fs, app, i)[k].item) ==>
                m in order.needs(i) || Told(ProgramOf(fs, app, i), k, m)
    {
      match i
      case StatPaths(paths) => StatRunAnnounced(fs, world, o, paths, []);
      case ReadDirs(dirs) => ReadRunAnnounced(o.nproc, fs, dirs, []);
      case CompareFiles(_, _) =>
    }
  }

  // ---------------------------------------------------------------- what the manager hears in a whole run

  ghost function Hears(f: Msg -> int): Weights {
    Weights(e => 0, f)
  }

  ghost function FileOwes(world: World, o: Options, f: Msg -> int, p: Path): int
    requires o.nproc > 0
  {
    Sum(ActOwes(CompareApp(world, o), Hears(f)), CompareActions(world, o, p))
  }

  ghost function ChunkResult(world: World, o: Options, p: Path, k: int): Msg
    requires o.nproc > 0 && k < o.nproc
  {
    Compared(p, k, ChunkMatched(world, o, p, k))
  }

  ghost function ChunksOwe(world: World, o: Options, f: Msg -> int, p: Path, from: nat): int
    requires 0 < o.nproc && from <= o.nproc
    decreases o.nproc - from
  {
    if from == o.nproc then 0 else f(ChunkResult(world, o, p, from)) + ChunksOwe(world, o, f, p, from + 1)
  }

  lemma {:induction false} SubmissionsOwe(world: World, o: Options, f: Msg -> int, p: Path, from: nat)
    requires 0 < o.nproc && from <= o.nproc
    ensures Sum(ActOwes(CompareApp(world, o), Hears(f)), ChunkSubmissions(p, from, o.nproc)) == ChunksOwe(world, o, f, p, from)
    decreases o.nproc - from
  {
    if from < o.nproc {
      var acts := ChunkSubmissions(p, from, o.nproc);
      assert acts[0] == Submit(1, CompareFiles(p, from)) && acts[1..] == ChunkSubmissions(p, from + 1, o.nproc);
      SubmissionsOwe(world, o, f, p, from + 1);
    }
  }

  lemma FileOwesIs(world: World, o: Options, f: Msg -> int, p: Path)
    requires o.nproc > 0
    ensures FileOwes(world, o, f, p)
            == if world.dest(p).StatError? then 0
               else if IsChunked(world, o, p) then f(AddChunks(p, o.nproc)) + ChunksOwe(world, o, f, p, 0)
               else f(ChunkResult(world, o, p, -1))
  {
    var g, acts := ActOwes(CompareApp(world, o), Hears(f)), CompareActions(world, o, p);
    if world.dest(p).StatError? {
    } else if IsChunked(world, o, p) {
      SubmissionsOwe(world, o, f, p, 0);
      assert acts[1..] == ChunkSubmissions(p, 0, o.nproc);
    } else {
      assert acts == [Submit(1, CompareFiles(p, -1))];
      assert Sum(g, acts) == g(acts[0]) + Sum(g, acts[1..]);
      assert g(acts[0]) == f(ChunkResult(world, o, p, -1));
    }
  }

  // A compare run: one start, everything known below it, every directory readable.
  ghost predicate CompareRun(fs: FileSystem, world: World, o: Options, maxima: seq<int>, start: Path,
                             states: seq<State<Item, Msg, Event>>, steps: seq<Step>)
  {
    && o.nproc > 0
    && WellFormed(fs) && AllReadable(fs)
    && start in fs && (forall p :: p in fs ==> start <= p)
    && IsRun(Job(fs, CompareApp(world, o), o.nproc, maxima), StartItems([start]), states, steps)
  }

  lemma HeardOnlyAt(fs: FileSystem, world: World, o: Options, f: Msg -> int, p: Path)
    requires o.nproc > 0
    requires forall m :: !About(m, p) ==> f(m) == 0
    ensures OnlyAt(fs, CompareApp(world, o), Hears(f), p)
    ensures LocalOwes(fs, CompareApp(world, o), Hears(f), p) == if p in fs && fs[p].Regular? then FileOwes(world, o, f, p) else 0
  {
    var app, w := CompareApp(world, o), Hears(f);
    forall q | q != p ensures LocalOwes(fs, app, w, q) == 0 {
      if q in fs && fs[q].Regular? {
        SumNothing(ActOwes(app, w), app.files(q));
      }
    }
  }

  /** Counting messages about one file over a finished run gives what processing that file submits. */
  lemma HeardAbout(fs: FileSystem, world: World, o: Options, maxima: seq<int>, start: Path,
                   states: seq<State<Item, Msg, Event>>, steps: seq<Step>, f: Msg -> int, p: Path)
    requires CompareRun(fs, world, o, maxima, start, states, steps)
    requires states[|steps|].manager.Finished?
    requires forall m :: !About(m, p) ==> f(m) == 0
    ensures Sum(f, states[|steps|].handled)
            == if p in fs && fs[p].Regular? then FileOwes(world, o, f, p) else 0
  {
    var app, w := CompareApp(world, o), Hears(f);
    HeardOnlyAt(fs, world, o, f, p);
    FilesCompareOnly(world, o);
    hide OnlyAt, LocalOwes, WellFormed, AllReadable, FileOwes, IsRun, Covering, FilesOnlyCompare;
    WalkCounts(fs, app, w, p, o.nproc, maxima, [start], states, steps);
    SumNothing(w.event, states[|steps|].log);
    OneStart(start, p);
  }

  /** At no point of a run has the manager heard more about a file than processing that file submits. */
  lemma HeardAtMost(fs: FileSystem, world: World, o: Options, maxima: seq<int>, start: Path,
                    states: seq<State<Item, Msg, Event>>, steps: seq<Step>, f: Msg -> int, p: Path, k: nat)
    requires CompareRun(fs, world, o, maxima, start, states, steps) && k < |states|
    requires (forall m :: f(m) >= 0) && (forall m :: !About(m, p) ==> f(m) == 0)
    ensures 0 <= Sum(f, states[k].handled) <= if p in fs && fs[p].Regular? then FileOwes(world, o, f, p) else 0
  {
    var app, w := CompareApp(world, o), Hears(f);
    HeardOnlyAt(fs, world, o, f, p);
    FilesCompareOnly(world, o);
    hide OnlyAt, LocalOwes, WellFormed, AllReadable, FileOwes, IsRun, Covering, FilesOnlyCompare;
    WalkCountsAtMost(fs, app, w, p, o.nproc, maxima, [start], states, steps, k);
    OneStart(start, p);
  }

  lemma FilesCompareOnly(world: World, o: Options)
    requires o.nproc > 0
    ensures FilesOnlyCompare(CompareApp(world, o))
  {
  }

  lemma OneStart(start: Path, p: Path)
    ensures Covering([start], p) == if start <= p then 1 else 0
  {
    assert [start][1..] == [];
  }

  // A message about p that this run should never produce.
  ghost predicate Unexpected(fs: FileSystem, world: World, o: Options, p: Path, m: Msg)
    requires o.nproc > 0
  {
    About(m, p) &&
    !(p in fs && fs[p].Regular? && !world.dest(p).StatError? &&
      if IsChunked(world, o, p) then
        m == AddChunks(p, o.nproc) || (m.Compared? && 0 <= m.chunk < o.nproc && m == ChunkResult(world, o, p, m.chunk))
      else m == ChunkResult(world, o, p, -1))
  }

  ghost function Strays(fs: FileSystem, world: World, o: Options, p: Path): Msg -> int
    requires o.nproc > 0
  {
    (m: Msg) => if Unexpected(fs, world, o, p, m) then 1 else 0
  }

  lemma {:induction false} NoStrayChunks(fs: FileSystem, world: World, o: Options, p: Path, from: nat)
    requires 0 < o.nproc && from <= o.nproc
    requires p in fs && fs[p].Regular? && !world.dest(p).StatError? && IsChunked(world, o, p)
    ensures ChunksOwe(world, o, Strays(fs, world, o, p), p, from) == 0
    decreases o.nproc - from
  {
    if from < o.nproc {
      NoStrayChunks(fs, world, o, p, from + 1);
    }
  }

  lemma NoStrays(fs: FileSystem, world: World, o: Options, maxima: seq<int>, start: Path,
                 states: seq<State<Item, Msg, Event>>, steps: seq<Step>, p: Path, k: nat, t: nat)
    requires CompareRun(fs, world, o, maxima, start, states, steps)
    requires k < |states| && t < |states[k].handled|
    ensures !Unexpected(fs, world, o, p, states[k].handled[t])
  {
    var f := Strays(fs, world, o, p);
    HeardAtMost(fs, world, o, maxima, start, states, steps, f, p, k);
    if p in fs && fs[p].Regular? {
      FileOwesIs(world, o, f, p);
      if !world.dest(p).StatError? && IsChunked(world, o, p) {
        NoStrayChunks(fs, world, o, p, 0);
      }
    }
    SumBounds(f, states[k].handled);
  }

  lemma {:induction false} ChunkTotals(world: World, o: Options, p: Path, from: nat)
    requires 0 < o.nproc && from <= o.nproc
    ensures ChunksOwe(world, o, AddsFor(p), p, from) == 0
    ensures ChunksOwe(world, o, ResultsFor(p), p, from) == o.nproc - from
    ensures ChunksOwe(world, o, MismatchesFor(p), p, from) >= 0
    ensures ChunksOwe(world, o, MismatchesFor(p), p, from) == 0 <==>
            forall k :: from <= k < o.nproc ==> ChunkMatched(world, o, p, k)
    decreases o.nproc - from
  {
    if from < o.nproc {
      ChunkTotals(world, o, p, from + 1);
    }
  }

  function Expected(fs: FileSystem, world: World, o: Options, p: Path): seq<Verdict> {
    if p !in fs || !fs[p].Regular? || world.dest(p).StatError? then []
    else if !FileMatches(world, o, p) then [Differs(p)]
    else if o.verbose then [Matches(p)]
    else []
  }

  /** In every reachable state the handled messages about a chunked file are in an order the manager can
      work with. */
  lemma ResultsFollowCount(fs: FileSystem, world: World, o: Options, maxima: seq<int>, start: Path,
                           states: seq<State<Item, Msg, Event>>, steps: seq<Step>, k: nat, t: nat)
    requires CompareRun(fs, world, o, maxima, start, states, steps) && k < |states|
    requires t < |states[k].handled| && states[k].handled[t].Compared? && states[k].handled[t].chunk >= 0
    ensures AddChunks(states[k].handled[t].path, o.nproc) in states[k].handled[..t]
  {
    CompareRespectsOrder(fs, world, o, maxima);
    assert [start][1..] == [];
    assert StartItems([start]) == [StatPaths([start])];
    HandledRespectsOrder(Job(fs, CompareApp(world, o), o.nproc, maxima), ChunkOrder(o.nproc), StartItems([start]), states, steps, k);
    assert Covered(ChunkOrder(o.nproc).after(states[k].handled[t]), states[k].handled[..t]);
  }

  /** What the manager has heard about a chunked file at any point of a run. */
  lemma TrafficSoFar(fs: FileSystem, world: World, o: Options, maxima: seq<int>, start: Path,
                     states: seq<State<Item, Msg, Event>>, steps: seq<Step>, p: Path, k: nat)
    requires CompareRun(fs, world, o, maxima, start, states, steps) && k < |states|
    requires p in fs && fs[p].Regular? && !world.dest(p).StatError? && IsChunked(world, o, p)
    ensures ChunkedTraffic(states[k].handled, p, o.nproc)
  {
    var h := states[k].handled;
    HeardAtMost(fs, world, o, maxima, start, states, steps, AddsFor(p), p, k);
    HeardAtMost(fs, world, o, maxima, start, states, steps, ResultsFor(p), p, k);
    FileOwesIs(world, o, AddsFor(p), p);
    FileOwesIs(world, o, ResultsFor(p), p);
    ChunkTotals(world, o, p, 0);
    forall t | 0 <= t < |h| && About(h[t], p)
      ensures h[t] == AddChunks(p, o.nproc) || (h[t].Compared? && h[t].chunk >= 0)
      ensures h[t].Compared? ==> AddChunks(p, o.nproc) in h[..t]
    {
      NoStrays(fs, world, o, maxima, start, states, steps, p, k, t);
      if h[t].Compared? {
        ResultsFollowCount(fs, world, o, maxima, start, states, steps, k, t);
      }
    }
  }

  /** And by the end. */
  lemma TrafficOfRun(fs: FileSystem, world: World, o: Options, maxima: seq<int>, start: Path,
                     states: seq<State<Item, Msg, Event>>, steps: seq<Step>, p: Path)
    requires CompareRun(fs, world, o, maxima, start, states, steps)
    requires states[|steps|].manager.Finished?
    requires p in fs && fs[p].Regular? && !world.dest(p).StatError? && IsChunked(world, o, p)
    ensures ChunkedTraffic(states[|steps|].handled, p, o.nproc)
    ensures Sum(AddsFor(p), states[|steps|].handled) == 1
    ensures Sum(ResultsFor(p), states[|steps|].handled) == o.nproc
    ensures Sum(MismatchesFor(p), states[|steps|].handled) >= 0
    ensures Sum(MismatchesFor(p), states[|steps|].handled) == 0 <==> FileMatches(world, o, p)
  {
    TrafficSoFar(fs, world, o, maxima, start, states, steps, p, |steps|);
    HeardAbout(fs, world, o, maxima, start, states, steps, AddsFor(p), p);
    HeardAbout(fs, world, o, maxima, start, states, steps, ResultsFor(p), p);
    HeardAbout(fs, world, o, maxima, start, states, steps, MismatchesFor(p), p);
    FileOwesIs(world, o, AddsFor(p), p);
    FileOwesIs(world, o, ResultsFor(p), p);
    FileOwesIs(world, o, MismatchesFor(p), p);
    ChunkTotals(world, o, p, 0);
    ChunksDecide(world, o, p);
  }

  /** In every reachable state, so after every single message of any run, finished or not, the table and the output of
      a chunked file are as they should be; in particular a mismatch is printed when the first differing chunk is
      heard of, and never again. */
  lemma VerdictAtEveryMoment(fs: FileSystem, world: World, o: Options, maxima: seq<int>, start: Path,
                             states: seq<State<Item, Msg, Event>>, steps: seq<Step>, p: Path, k: nat)
    requires CompareRun(fs, world, o, maxima, start, states, steps) && k < |states|
    requires p in fs && fs[p].Regular? && !world.dest(p).StatError? && IsChunked(world, o, p)
    ensures var h := states[k].handled; ChunkedView(o.verbose, Replay(o.verbose, h), h, p, o.nproc)
    ensures Sum(MismatchesFor(p), states[k].handled) > 0 ==> !FileMatches(world, o, p)
  {
    HeardAtMost(fs, world, o, maxima, start, states, steps, MismatchesFor(p), p, k);
    FileOwesIs(world, o, MismatchesFor(p), p);
    ChunkTotals(world, o, p, 0);
    ChunksDecide(world, o, p);
    TrafficSoFar(fs, world, o, maxima, start, states, steps, p, k);
    ChunkedReplay(o.verbose, states[k].handled, p, o.nproc);
  }

  lemma ExpectedIs(fs: FileSystem, world: World, o: Options, p: Path)
    requires o.nproc > 0
    ensures Expected(fs, world, o, p)
            == if p !in fs || fs[p].Directory? || world.dest(p).StatError? then []
               else if world.dest(p).Present? && (var s, d := world.src(p), world.dest(p).file;
                         if o.metaOnly then |s.bytes| == |d.bytes| && s.mtime == d.mtime else s.bytes == d.bytes)
               then (if o.verbose then [Matches(p)] else [])
               else [Differs(p)]
  {
    WholeDecides(world, o, p);
  }

  /** When a compare run has ended, the manager has printed exactly the right verdict about every file,
      once, nothing about anything else, and no entry is left in the chunk table. */
  lemma VerdictsAreRight(fs: FileSystem, world: World, o: Options, maxima: seq<int>, start: Path,
                         states: seq<State<Item, Msg, Event>>, steps: seq<Step>, p: Path)
    requires CompareRun(fs, world, o, maxima, start, states, steps)
    requires states[|steps|].manager.Finished?
    ensures Verdicts(Replay(o.verbose, states[|steps|].handled).out, p)
            == if p !in fs || fs[p].Directory? || world.dest(p).StatError? then []
               else if world.dest(p).Present? && (var s, d := world.src(p), world.dest(p).file;
                         if o.metaOnly then |s.bytes| == |d.bytes| && s.mtime == d.mtime else s.bytes == d.bytes)
               then (if o.verbose then [Matches(p)] else [])
               else [Differs(p)]
    ensures p !in Replay(o.verbose, states[|steps|].handled).table
  {
    var h := states[|steps|].handled;
    ExpectedIs(fs, world, o, p);
    if p in fs && fs[p].Regular? && !world.dest(p).StatError? && IsChunked(world, o, p) {
      TrafficOfRun(fs, world, o, maxima, start, states, steps, p);
      ChunkedReplay(o.verbose, h, p, o.nproc);
    } else {
      forall t | 0 <= t < |h| ensures !Unexpected(fs, world, o, p, h[t]) {
        NoStrays(fs, world, o, maxima, start, states, steps, p, |steps|, t);
      }
      HeardAbout(fs, world, o, maxima, start, states, steps, ResultsFor(p), p);
      HeardAbout(fs, world, o, maxima, start, states, steps, MismatchesFor(p), p);
      FileOwesIs(world, o, ResultsFor(p), p);
      FileOwesIs(world, o, MismatchesFor(p), p);
      WholeDecides(world, o, p);
      UnchunkedReplay(o.verbose, h, p);
      OneResultVerdict(o.verbose, h, p);
    }
  }

  /** With unlimited queues a compare run cannot go on for ever, and one that cannot go on has printed
      the right verdicts. */
  lemma EveryCompareEndsRight(fs: FileSystem, world: World, o: Options, maxima: seq<int>, start: Path,
                              states: seq<State<Item, Msg, Event>>, steps: seq<Step>, p: Path)
    requires CompareRun(fs, world, o, maxima, start, states, steps)
    requires o.nproc >= 2 && forall q :: 0 <= q < |maxima| ==> maxima[q] < 0
    ensures |steps| <= Total(ItemCost(ItemPrice(fs, CompareApp(world, o))), StartItems([start])) + o.nproc
    ensures Shaped(Job(fs, CompareApp(world, o), o.nproc, maxima), states[|steps|])
    ensures (forall step :: !Enabled(Job(fs, CompareApp(world, o), o.nproc, maxima), states[|steps|], step)) ==>
              && Verdicts(Replay(o.verbose, states[|steps|].handled).out, p) == Expected(fs, world, o, p)
              && p !in Replay(o.verbose, states[|steps|].handled).table
  {
    ExpectedIs(fs, world, o, p);
    WalkEnds(fs, CompareApp(world, o), o.nproc, maxima, [start], states, steps);
    if states[|steps|].manager.Finished? {
      VerdictsAreRight(fs, world, o, maxima, start, states, steps, p);
    }
  }
}
