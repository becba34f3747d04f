/**
  The parallel tree walk: path items are stat-ed, directories found are batched and
  sent back to be read, the names read are batched and sent back to be stat-ed.
 */
module TreeWalk {
  import opened Pwt
  import opened PwtConservation
  import opened PwtProgress

  const PATH_BUFFER_MAX: nat := 50

  type Path = seq<string>

  // entries is what readdir returns, "." and ".." included; a directory that opendir
  // refuses is not readable.
  datatype Entry = Regular | Directory(entries: seq<string>, readable: bool)

  type FileSystem = map<Path, Entry>

  datatype Item =
    | StatPaths(paths: seq<Path>)
    | ReadDirs(dirs: seq<Path>)
    | CompareFiles(path: Path, chunk: int)

  datatype Msg =
    | WorkDone
    | AddChunks(path: Path, chunks: nat)
    | Compared(path: Path, chunk: int, matched: bool)

  datatype Event = Stated(path: Path) | Listed(path: Path) | Processed(path: Path)

  type Act = Action<Item, Msg, Event>

  // What the application plugs in: the actions of its processfile function, and the
  // outcome of comparing one chunk.
  datatype App = App(files: Path -> seq<Act>, matched: (Path, int) -> bool)

  predicate IsDot(name: string) {
    name == "." || name == ".."
  }

  function Children(entries: seq<string>): (names: seq<string>)
    ensures forall n :: n in names <==> n in entries && n != "." && n != ".."
  {
    if entries == [] then []
    else if IsDot(entries[0]) then Children(entries[1..])
    else [entries[0]] + Children(entries[1..])
  }

  predicate IsDirectory(fs: FileSystem, p: Path) {
    p in fs && fs[p].Directory?
  }

  predicate IsReadable(fs: FileSystem, p: Path) {
    IsDirectory(fs, p) && fs[p].readable
  }

  predicate Distinct(names: seq<string>) {
    forall i, j :: 0 <= i < j < |names| ==> names[i] != names[j]
  }

  /** A forest: what a directory lists, apart from "." and "..", exists and is listed once, and what lies
      below a directory is listed by it. */
  ghost predicate WellFormed(fs: FileSystem) {
    && (forall d, n :: IsDirectory(fs, d) && n in fs[d].entries && n != "." && n != ".." ==> d + [n] in fs)
    && (forall d, i, j :: IsDirectory(fs, d) && 0 <= i < j < |fs[d].entries| && fs[d].entries[i] == fs[d].entries[j] ==>
          fs[d].entries[i] == "." || fs[d].entries[i] == "..")
    && (forall p, k :: p in fs && 0 <= k < |p| && p[..k] in fs ==>
          IsDirectory(fs, p[..k]) && p[k] in fs[p[..k]].entries && p[k] != "." && p[k] != "..")
  }

  /** What a directory of a forest lists are its children, each once. */
  lemma ChildrenOfForest(fs: FileSystem, d: Path)
    requires WellFormed(fs) && IsDirectory(fs, d)
    ensures Distinct(Children(fs[d].entries))
    ensures forall n :: n in Children(fs[d].entries) ==> d + [n] in fs
  {
    var entries := fs[d].entries;
    assert forall i, j :: 0 <= i < j < |entries| && entries[i] == entries[j] ==> entries[i] == "." || entries[i] == "..";
    DistinctChildren(entries);
  }

  lemma {:induction false} DistinctChildren(entries: seq<string>)
    requires forall i, j :: 0 <= i < j < |entries| && entries[i] == entries[j] ==> entries[i] == "." || entries[i] == ".."
    ensures Distinct(Children(entries))
  {
    if entries != [] {
      var rest := entries[1..];
      assert forall i, j :: 0 <= i < j < |rest| && rest[i] == rest[j] ==> rest[i] == entries[i + 1] && rest[j] == entries[j + 1];
      DistinctChildren(rest);
      if !IsDot(entries[0]) {
        assert entries[0] !in rest;
      }
    }
  }

  // ---------------------------------------------------------------- work functions

  function FlushDirs(buffer: seq<Path>): seq<Act> {
    if buffer == [] then [] else [Submit(0, ReadDirs(buffer))]
  }

  function FlushPaths(buffer: seq<Path>): seq<Act> {
    if buffer == [] then [] else [Submit(0, StatPaths(buffer))]
  }

  /** What stat-ing one path does before the directory buffer is looked at. */
  function StatOne(fs: FileSystem, app: App, p: Path): seq<Act> {
    if p !in fs then []
    else if fs[p].Directory? then [Effect(Stated(p))]
    else [Effect(Stated(p)), Effect(Processed(p))] + app.files(p)
  }

  function StatBuffer(fs: FileSystem, p: Path, buffer: seq<Path>): seq<Path> {
    if IsDirectory(fs, p) then buffer + [p] else buffer
  }

  function StatRun(fs: FileSystem, app: App, paths: seq<Path>, buffer: seq<Path>): seq<Act> {
    if paths == [] then FlushDirs(buffer)
    else
      var b := StatBuffer(fs, paths[0], buffer);
      StatOne(fs, app, paths[0]) +
      if |b| >= PATH_BUFFER_MAX then [Submit(0, ReadDirs(b))] + StatRun(fs, app, paths[1..], [])
      else StatRun(fs, app, paths[1..], b)
  }

  /** Names of one directory: the batches sent, and the paths left in the buffer. */
  function ReadNames(d: Path, entries: seq<string>, buffer: seq<Path>): (seq<Act>, seq<Path>) {
    if entries == [] then ([], buffer)
    else if IsDot(entries[0]) then ReadNames(d, entries[1..], buffer)
    else
      var b := buffer + [d + [entries[0]]];
      if |b| >= PATH_BUFFER_MAX then
        var (acts, left) := ReadNames(d, entries[1..], []);
        ([Submit(0, StatPaths(b))] + acts, left)
      else ReadNames(d, entries[1..], b)
  }

  /** Directories in order; the first one that cannot be opened ends the work at once, and the
      paths still in the buffer are not sent. */
  function ReadRun(fs: FileSystem, dirs: seq<Path>, buffer: seq<Path>): seq<Act> {
    if dirs == [] then FlushPaths(buffer)
    else if !IsReadable(fs, dirs[0]) then []
    else
      var (acts, b) := ReadNames(dirs[0], fs[dirs[0]].entries, buffer);
      acts + [Effect(Listed(dirs[0]))] + ReadRun(fs, dirs[1..], b)
  }

  function ProgramOf(fs: FileSystem, app: App, item: Item): seq<Act> {
    match item
    case StatPaths(paths) => StatRun(fs, app, paths, [])
    case ReadDirs(dirs) => ReadRun(fs, dirs, [])
    case CompareFiles(_, _) => []
  }

  function ResultOf(app: App, item: Item): Msg {
    match item
    case StatPaths(_) => WorkDone
    case ReadDirs(_) => WorkDone
    case CompareFiles(p, k) => Compared(p, k, app.matched(p, k))
  }

  ghost function Job(fs: FileSystem, app: App, nproc: nat, maxima: seq<int>): Config<Item, Msg, Event> {
    Config(nproc, maxima, (i: Item) => ProgramOf(fs, app, i), (i: Item) => ResultOf(app, i))
  }

  function FullBuffer(b: seq<Path>): seq<Act> {
    if |b| >= PATH_BUFFER_MAX then [Submit(0, ReadDirs(b))] else []
  }

  function KeptBuffer(b: seq<Path>): seq<Path> {
    if |b| >= PATH_BUFFER_MAX then [] else b
  }

  /** What has been done so far and the rest of the run, moved on by one path. */
  lemma StatRunStep(fs: FileSystem, app: App, trace: seq<Act>, paths: seq<Path>, i: nat, buffer: seq<Path>)
    requires i < |paths|
    ensures var b := StatBuffer(fs, paths[i], buffer);
            trace + StatOne(fs, app, paths[i]) + FullBuffer(b) + StatRun(fs, app, paths[i + 1..], KeptBuffer(b))
            == trace + StatRun(fs, app, paths[i..], buffer)
  {
    hide StatOne, StatBuffer;
    var rest := paths[i..];
    assert rest[0] == paths[i] && rest[1..] == paths[i + 1..];
    var b := StatBuffer(fs, paths[i], buffer);
    var one, full, after := StatOne(fs, app, paths[i]), FullBuffer(b), StatRun(fs, app, paths[i + 1..], KeptBuffer(b));
    assert StatRun(fs, app, rest, buffer) == one + (full + after);
    assert trace + one + full + after == trace + (one + (full + after));
  }

  lemma StatRunEnds(fs: FileSystem, app: App, buffer: seq<Path>)
    ensures StatRun(fs, app, [], buffer) == FlushDirs(buffer)
  {
  }

  /** treewalk_statpath: the loop over the incoming paths, filling and sending the directory buffer. */
  method TreewalkStatpath(fs: FileSystem, app: App, paths: seq<Path>) returns (trace: seq<Act>)
    ensures trace == ProgramOf(fs, app, StatPaths(paths))
  {
    hide StatRun;
    trace := [];
    var dirbuf: seq<Path> := [];
    assert paths[0..] == paths;
    for i := 0 to |paths|
      invariant |dirbuf| < PATH_BUFFER_MAX
      invariant trace + StatRun(fs, app, paths[i..], dirbuf) == StatRun(fs, app, paths, [])
    {
      var path := paths[i];
      StatRunStep(fs, app, trace, paths, i, dirbuf);
      ghost var before, b := trace, StatBuffer(fs, path, dirbuf);
      if path in fs {
        trace := trace + [Effect(Stated(path))];
        if fs[path].Directory? {
          dirbuf := dirbuf + [path];
        } else {
          trace := trace + [Effect(Processed(path))] + app.files(path);
        }
      }
      assert dirbuf == b && trace == before + StatOne(fs, app, path);
      if |dirbuf| >= PATH_BUFFER_MAX {
        trace := trace + [Submit(0, ReadDirs(dirbuf))];
        dirbuf := [];
      }
    }
    assert paths[|paths|..] == [];
    StatRunEnds(fs, app, dirbuf);
    if dirbuf != [] {
      trace := trace + [Submit(0, ReadDirs(dirbuf))];
    }
  }

  lemma Regroup(a: seq<Act>, b: seq<Act>, c: seq<Act>, d: seq<Act>)
    ensures a + (b + c + d) == (a + b + c) + d
  {
  }

  /** treewalk_readdir: the two nested loops over the directories and their entries. */
  method TreewalkReaddir(fs: FileSystem, app: App, dirs: seq<Path>) returns (trace: seq<Act>)
    ensures trace == ProgramOf(fs, app, ReadDirs(dirs))
  {
    trace := [];
    var statbuf: seq<Path> := [];
    for i := 0 to |dirs|
      invariant |statbuf| < PATH_BUFFER_MAX
      invariant trace + ReadRun(fs, dirs[i..], statbuf) == ReadRun(fs, dirs, [])
    {
      var dir := dirs[i];
      assert dirs[i..][1..] == dirs[i + 1..];
      if !IsReadable(fs, dir) {
        return;
      }
      var entries := fs[dir].entries;
      ghost var before, full := trace, ReadNames(dir, entries, statbuf);
      var j := 0;
      while j < |entries|
        invariant 0 <= j <= |entries| && |statbuf| < PATH_BUFFER_MAX
        invariant var rest := ReadNames(dir, entries[j..], statbuf);
                  trace + rest.0 == before + full.0 && rest.1 == full.1
      {
        assert entries[j..][1..] == entries[j + 1..];
        if !IsDot(entries[j]) {
          statbuf := statbuf + [dir + [entries[j]]];
          if |statbuf| >= PATH_BUFFER_MAX {
            trace := trace + [Submit(0, StatPaths(statbuf))];
            statbuf := [];
          }
        }
        j := j + 1;
      }
      assert entries[|entries|..] == [];
      assert trace + [] == trace;
      trace := trace + [Effect(Listed(dir))];
      Regroup(before, full.0, [Effect(Listed(dir))], ReadRun(fs, dirs[i + 1..], statbuf));
    }
    assert dirs[|dirs|..] == [];
    if statbuf != [] {
      trace := trace + [Submit(0, StatPaths(statbuf))];
    }
  }

  // ---------------------------------------------------------------- what an item owes

  // Weights an observer gives to events and to messages.
  datatype Weights = Weights(event: Event -> int, msg: Msg -> int)

  ghost function Below(fs: FileSystem, p: Path): set<Path> {
    set q | q in fs && |q| > |p|
  }

  ghost function SumPaths(f: Path -> int, paths: seq<Path>): int {
    if paths == [] then 0 else f(paths[0]) + SumPaths(f, paths[1..])
  }

  lemma {:induction false} SumPathsSnoc(f: Path -> int, paths: seq<Path>, p: Path)
    ensures SumPaths(f, paths + [p]) == SumPaths(f, paths) + f(p)
  {
    if paths == [] {
      assert paths + [p] == [p];
    } else {
      assert (paths + [p])[1..] == paths[1..] + [p];
      SumPathsSnoc(f, paths[1..], p);
    }
  }

  ghost function ActOwes(app: App, w: Weights): Act -> int {
    (a: Act) => match a
                case Effect(e) => w.event(e)
                case Tell(m) => w.msg(m)
                case Submit(_, CompareFiles(p, k)) => w.msg(Compared(p, k, app.matched(p, k)))
                case Submit(_, _) => 0
  }

  ghost function PathOwes(fs: FileSystem, app: App, w: Weights, p: Path): int
    decreases Below(fs, p), 2
  {
    if p !in fs then 0
    else if fs[p].Directory? then w.event(Stated(p)) + DirOwes(fs, app, w, p)
    else w.event(Stated(p)) + w.event(Processed(p)) + Sum(ActOwes(app, w), app.files(p))
  }

  ghost function DirOwes(fs: FileSystem, app: App, w: Weights, d: Path): int
    decreases Below(fs, d), 1
  {
    if !IsReadable(fs, d) then 0
    else w.event(Listed(d)) + NamesOwe(fs, app, w, d, fs[d].entries)
  }

  ghost function NamesOwe(fs: FileSystem, app: App, w: Weights, d: Path, entries: seq<string>): int
    decreases Below(fs, d), 0, |entries|
  {
    if entries == [] then 0
    else
      (if IsDot(entries[0]) || d + [entries[0]] !in fs then 0
       else
         assert d + [entries[0]] in Below(fs, d) && d + [entries[0]] !in Below(fs, d + [entries[0]]);
         PathOwes(fs, app, w, d + [entries[0]])) +
      NamesOwe(fs, app, w, d, entries[1..])
  }

  ghost function PathWeigher(fs: FileSystem, app: App, w: Weights): Path -> int {
    p => PathOwes(fs, app, w, p)
  }

  ghost function DirWeigher(fs: FileSystem, app: App, w: Weights): Path -> int {
    d => DirOwes(fs, app, w, d)
  }

  ghost function BatchOwes(fs: FileSystem, app: App, w: Weights): Act -> int {
    (a: Act) => match a
                case Effect(e) => w.event(e)
                case Tell(m) => w.msg(m)
                case Submit(_, StatPaths(paths)) => SumPaths(PathWeigher(fs, app, w), paths)
                case Submit(_, _) => 0
  }

  ghost function ItemOwes(fs: FileSystem, app: App, w: Weights): Item -> int {
    (i: Item) => match i
                 case StatPaths(paths) => SumPaths(PathWeigher(fs, app, w), paths)
                 case ReadDirs(dirs) => Sum(BatchOwes(fs, app, w), ReadRun(fs, dirs, []))
                 case CompareFiles(p, k) => w.msg(Compared(p, k, app.matched(p, k)))
  }

  ghost function WalkMeter(fs: FileSystem, app: App, w: Weights): Meter<Item, Msg, Event> {
    Meter(w.event, w.msg, ItemOwes(fs, app, w))
  }

  ghost predicate AllReadable(fs: FileSystem) {
    forall d :: IsDirectory(fs, d) ==> IsReadable(fs, d)
  }

  /** processfile reports no events of the walk and submits only comparisons. */
  ghost predicate FilesOnlyCompare(app: App) {
    forall p, k :: 0 <= k < |app.files(p)| ==>
      !app.files(p)[k].Effect? && (app.files(p)[k].Submit? ==> app.files(p)[k].item.CompareFiles?)
  }

  // ---------------------------------------------------------------- batching changes nothing

  lemma {:induction false} ReadNamesOwe(fs: FileSystem, app: App, w: Weights, d: Path, entries: seq<string>, buffer: seq<Path>)
    ensures var (acts, left) := ReadNames(d, entries, buffer);
            Sum(BatchOwes(fs, app, w), acts) + SumPaths(PathWeigher(fs, app, w), left)
            == SumPaths(PathWeigher(fs, app, w), buffer) + NamesOwe(fs, app, w, d, entries)
    decreases |entries|
  {
    if entries != [] && !IsDot(entries[0]) {
      var b := buffer + [d + [entries[0]]];
      SumPathsSnoc(PathWeigher(fs, app, w), buffer, d + [entries[0]]);
      ReadNamesOwe(fs, app, w, d, entries[1..], if |b| >= PATH_BUFFER_MAX then [] else b);
    } else if entries != [] {
      ReadNamesOwe(fs, app, w, d, entries[1..], buffer);
    }
  }

  lemma {:induction false} ReadRunOwes(fs: FileSystem, app: App, w: Weights, dirs: seq<Path>, buffer: seq<Path>)
    requires forall k :: 0 <= k < |dirs| ==> IsReadable(fs, dirs[k])
    ensures Sum(BatchOwes(fs, app, w), ReadRun(fs, dirs, buffer))
            == SumPaths(DirWeigher(fs, app, w), dirs) + SumPaths(PathWeigher(fs, app, w), buffer)
    decreases |dirs|
  {
    if dirs != [] {
      var (acts, b) := ReadNames(dirs[0], fs[dirs[0]].entries, buffer);
      ReadNamesOwe(fs, app, w, dirs[0], fs[dirs[0]].entries, buffer);
      ReadRunOwes(fs, app, w, dirs[1..], b);
      SumConcat(BatchOwes(fs, app, w), acts + [Effect(Listed(dirs[0]))], ReadRun(fs, dirs[1..], b));
      SumSnoc(BatchOwes(fs, app, w), acts, Effect(Listed(dirs[0])));
    }
  }

  lemma {:induction false} SumAgrees(f: Act -> int, g: Act -> int, acts: seq<Act>)
    requires forall k :: 0 <= k < |acts| ==> f(acts[k]) == g(acts[k])
    ensures Sum(f, acts) == Sum(g, acts)
  {
    if acts != [] {
      assert forall k :: 0 <= k < |acts| - 1 ==> acts[1..][k] == acts[k + 1];
      SumAgrees(f, g, acts[1..]);
    }
  }

  lemma StatOneOwes(fs: FileSystem, app: App, w: Weights, p: Path)
    requires FilesOnlyCompare(app)
    ensures Sum(ActionOwes(WalkMeter(fs, app, w)), StatOne(fs, app, p))
            + (if IsDirectory(fs, p) then DirOwes(fs, app, w, p) else 0) == PathOwes(fs, app, w, p)
  {
    var f := ActionOwes(WalkMeter(fs, app, w));
    SumAgrees(f, ActOwes(app, w), app.files(p));
    var head := [Effect(Stated(p)), Effect(Processed(p))];
    assert head[1..] == [Effect(Processed(p))] && head[1..][1..] == [];
    SumConcat(f, head, app.files(p));
    assert Sum(f, [Effect(Stated(p))]) == w.event(Stated(p)) + Sum(f, []);
  }

  lemma SentDirsOwe(fs: FileSystem, app: App, w: Weights, b: seq<Path>, rest: seq<Act>)
    requires forall k :: 0 <= k < |b| ==> IsReadable(fs, b[k])
    ensures Sum(ActionOwes(WalkMeter(fs, app, w)), [Submit(0, ReadDirs(b))] + rest)
            == SumPaths(DirWeigher(fs, app, w), b) + Sum(ActionOwes(WalkMeter(fs, app, w)), rest)
  {
    var acts := [Submit(0, ReadDirs(b))] + rest;
    assert acts[1..] == rest;
    ReadRunOwes(fs, app, w, b, []);
  }

  lemma {:induction false} StatRunOwes(fs: FileSystem, app: App, w: Weights, paths: seq<Path>, buffer: seq<Path>)
    requires FilesOnlyCompare(app)
    requires AllReadable(fs) && forall k :: 0 <= k < |buffer| ==> IsReadable(fs, buffer[k])
    ensures Sum(ActionOwes(WalkMeter(fs, app, w)), StatRun(fs, app, paths, buffer))
            == SumPaths(PathWeigher(fs, app, w), paths) + SumPaths(DirWeigher(fs, app, w), buffer)
    decreases |paths|
  {
    var f := ActionOwes(WalkMeter(fs, app, w));
    if paths == [] {
      SentDirsOwe(fs, app, w, buffer, []);
      assert FlushDirs(buffer) == [] || FlushDirs(buffer) + [] == FlushDirs(buffer);
    } else {
      var p, b := paths[0], StatBuffer(fs, paths[0], buffer);
      StatOneOwes(fs, app, w, p);
      SumPathsSnoc(DirWeigher(fs, app, w), buffer, p);
      if |b| >= PATH_BUFFER_MAX {
        var rest := StatRun(fs, app, paths[1..], []);
        StatRunOwes(fs, app, w, paths[1..], []);
        SentDirsOwe(fs, app, w, b, rest);
        SumConcat(f, StatOne(fs, app, p), [Submit(0, ReadDirs(b))] + rest);
      } else {
        StatRunOwes(fs, app, w, paths[1..], b);
        SumConcat(f, StatOne(fs, app, p), StatRun(fs, app, paths[1..], b));
      }
    }
  }

  lemma {:induction false} ReadNamesOnlyStat(d: Path, entries: seq<string>, buffer: seq<Path>)
    ensures forall k :: 0 <= k < |ReadNames(d, entries, buffer).0| ==>
              ReadNames(d, entries, buffer).0[k].Submit? && ReadNames(d, entries, buffer).0[k].item.StatPaths?
    decreases |entries|
  {
    if entries != [] {
      ReadNamesOnlyStat(d, entries[1..], buffer);
      ReadNamesOnlyStat(d, entries[1..], []);
      ReadNamesOnlyStat(d, entries[1..], buffer + [d + [entries[0]]]);
    }
  }

  lemma {:induction false} ReadRunAgrees(fs: FileSystem, app: App, w: Weights, dirs: seq<Path>, buffer: seq<Path>)
    ensures Sum(ActionOwes(WalkMeter(fs, app, w)), ReadRun(fs, dirs, buffer))
            == Sum(BatchOwes(fs, app, w), ReadRun(fs, dirs, buffer))
    decreases |dirs|
  {
    if dirs != [] && IsReadable(fs, dirs[0]) {
      var (acts, b) := ReadNames(dirs[0], fs[dirs[0]].entries, buffer);
      ReadNamesOnlyStat(dirs[0], fs[dirs[0]].entries, buffer);
      var head := acts + [Effect(Listed(dirs[0]))];
      SumAgrees(ActionOwes(WalkMeter(fs, app, w)), BatchOwes(fs, app, w), head);
      ReadRunAgrees(fs, app, w, dirs[1..], b);
      SumConcat(ActionOwes(WalkMeter(fs, app, w)), head, ReadRun(fs, dirs[1..], b));
      SumConcat(BatchOwes(fs, app, w), head, ReadRun(fs, dirs[1..], b));
    }
  }

  /** The walk sends itself batches of one to fifty paths, for the lowest queue. */
  ghost predicate SmallBatches(acts: seq<Act>) {
    forall k :: 0 <= k < |acts| && acts[k].Submit? ==>
      match acts[k].item
      case StatPaths(paths) => acts[k].queue == 0 && 0 < |paths| <= 50
      case ReadDirs(dirs) => acts[k].queue == 0 && 0 < |dirs| <= 50
      case CompareFiles(_, _) => true
  }

  lemma {:induction false} StatRunBatches(fs: FileSystem, app: App, paths: seq<Path>, buffer: seq<Path>)
    requires FilesOnlyCompare(app) && |buffer| < PATH_BUFFER_MAX
    ensures SmallBatches(StatRun(fs, app, paths, buffer))
    decreases |paths|
  {
    if paths != [] {
      var b := StatBuffer(fs, paths[0], buffer);
      StatRunBatches(fs, app, paths[1..], KeptBuffer(b));
      assert SmallBatches(StatOne(fs, app, paths[0]));
    }
  }

  lemma {:induction false} ReadNamesBatches(d: Path, entries: seq<string>, buffer: seq<Path>)
    requires |buffer| < PATH_BUFFER_MAX
    ensures SmallBatches(ReadNames(d, entries, buffer).0) && |ReadNames(d, entries, buffer).1| < PATH_BUFFER_MAX
    decreases |entries|
  {
    if entries != [] {
      ReadNamesBatches(d, entries[1..], buffer);
      if !IsDot(entries[0]) {
        ReadNamesBatches(d, entries[1..], KeptBuffer(buffer + [d + [entries[0]]]));
      }
    }
  }

  lemma {:induction false} ReadRunBatches(fs: FileSystem, dirs: seq<Path>, buffer: seq<Path>)
    requires |buffer| < PATH_BUFFER_MAX
    ensures SmallBatches(ReadRun(fs, dirs, buffer))
    decreases |dirs|
  {
    if dirs != [] && IsReadable(fs, dirs[0]) {
      var entries := fs[dirs[0]].entries;
      ReadNamesBatches(dirs[0], entries, buffer);
      ReadRunBatches(fs, dirs[1..], ReadNames(dirs[0], entries, buffer).1);
    }
  }

  lemma WalkSubmits(fs: FileSystem, app: App, item: Item, k: nat)
    requires FilesOnlyCompare(app) && k < |ProgramOf(fs, app, item)| && ProgramOf(fs, app, item)[k].Submit?
    ensures match ProgramOf(fs, app, item)[k].item
            case StatPaths(paths) => ProgramOf(fs, app, item)[k].queue == 0 && 0 < |paths| <= 50
            case ReadDirs(dirs) => ProgramOf(fs, app, item)[k].queue == 0 && 0 < |dirs| <= 50
            case CompareFiles(_, _) => true
  {
    match item
    case StatPaths(paths) => StatRunBatches(fs, app, paths, []);
    case ReadDirs(dirs) => ReadRunBatches(fs, dirs, []);
    case CompareFiles(_, _) =>
  }

  /** Batches of fifty, re-submitted or flushed, owe exactly what the paths in them owe. */
  lemma BatchingIsFaithful(fs: FileSystem, app: App, w: Weights, nproc: nat, maxima: seq<int>)
    requires FilesOnlyCompare(app) && AllReadable(fs) && w.msg(WorkDone) == 0
    ensures Faithful(Job(fs, app, nproc, maxima), WalkMeter(fs, app, w))
  {
    forall i: Item
      ensures ItemOwes(fs, app, w)(i)
              == Sum(ActionOwes(WalkMeter(fs, app, w)), ProgramOf(fs, app, i)) + w.msg(ResultOf(app, i))
    {
      match i
      case StatPaths(paths) => StatRunOwes(fs, app, w, paths, []);
      case ReadDirs(dirs) => ReadRunAgrees(fs, app, w, dirs, []);
      case CompareFiles(_, _) =>
    }
  }

  // ---------------------------------------------------------------- every node exactly once

  /** The events that are due for the node at x.path. */
  predicate Due(fs: FileSystem, x: Event) {
    x.path in fs && match x
                    case Stated(_) => true
                    case Listed(p) => fs[p].Directory?
                    case Processed(p) => fs[p].Regular?
  }

  ghost function CountEvent(x: Event): Weights {
    Weights(e => if e == x then 1 else 0, m => 0)
  }

  lemma {:induction false} QuietFiles(app: App, x: Event, acts: seq<Act>)
    requires forall k :: 0 <= k < |acts| ==> !acts[k].Effect?
    ensures Sum(ActOwes(app, CountEvent(x)), acts) == 0
  {
    if acts != [] {
      assert forall k :: 0 <= k < |acts| - 1 ==> acts[1..][k] == acts[k + 1];
      QuietFiles(app, x, acts[1..]);
    }
  }

  lemma DistinctTail(names: seq<string>)
    requires Distinct(names) && names != []
    ensures Distinct(names[1..]) && names[0] !in names[1..]
  {
  }

  lemma ChildPrefix(q: Path, n: string, p: Path)
    ensures q + [n] <= p <==> q < p && p[|q|] == n
  {
    if q < p && p[|q|] == n {
      assert p[..|q| + 1] == q + [n];
    }
  }

  /** What the node at p itself contributes, leaving out what lies below it. */
  ghost function LocalOwes(fs: FileSystem, app: App, w: Weights, p: Path): int {
    if p !in fs then 0
    else if fs[p].Regular? then w.event(Stated(p)) + w.event(Processed(p)) + Sum(ActOwes(app, w), app.files(p))
    else w.event(Stated(p)) + (if fs[p].readable then w.event(Listed(p)) else 0)
  }

  /** Weights that only the node at p feels. */
  ghost predicate OnlyAt(fs: FileSystem, app: App, w: Weights, p: Path) {
    forall q :: q != p ==> LocalOwes(fs, app, w, q) == 0
  }

  /** The node at p is reached from q once if q is at or above p, and never otherwise. */
  lemma {:induction false} ReachedOnce(fs: FileSystem, app: App, w: Weights, p: Path, q: Path)
    requires WellFormed(fs) && AllReadable(fs) && OnlyAt(fs, app, w, p) && q in fs
    ensures PathOwes(fs, app, w, q) == if q <= p then LocalOwes(fs, app, w, p) else 0
    decreases Below(fs, q), 1
  {
    if p in fs && q < p {
      assert p[..|q|] == q;
    }
    assert LocalOwes(fs, app, w, q) == if q == p then LocalOwes(fs, app, w, p) else 0;
    if fs[q].Directory? {
      assert IsReadable(fs, q);
      ChildrenOfForest(fs, q);
      NamesReachOnce(fs, app, w, p, q, fs[q].entries);
    }
  }

  lemma {:induction false} NamesReachOnce(fs: FileSystem, app: App, w: Weights, p: Path, q: Path, entries: seq<string>)
    requires WellFormed(fs) && AllReadable(fs) && OnlyAt(fs, app, w, p) && IsDirectory(fs, q)
    requires Distinct(Children(entries))
    requires forall n :: n in Children(entries) ==> q + [n] in fs
    ensures NamesOwe(fs, app, w, q, entries)
            == if q < p && p[|q|] in Children(entries) then LocalOwes(fs, app, w, p) else 0
    decreases Below(fs, q), 0, |entries|
  {
    if entries != [] {
      if !IsDot(entries[0]) {
        var n, child := entries[0], q + [entries[0]];
        assert Children(entries)[0] == n && Children(entries)[1..] == Children(entries[1..]);
        DistinctTail(Children(entries));
        assert n in Children(entries);
        assert child in Below(fs, q) && child !in Below(fs, child);
        ReachedOnce(fs, app, w, p, child);
        ChildPrefix(q, n, p);
      }
      NamesReachOnce(fs, app, w, p, q, entries[1..]);
    }
  }

  /** How many starting paths lie at or above p. */
  function Covering(starts: seq<Path>, p: Path): nat {
    if starts == [] then 0 else (if starts[0] <= p then 1 else 0) + Covering(starts[1..], p)
  }

  function StartItems(starts: seq<Path>): seq<Item> {
    if starts == [] then [] else [StatPaths([starts[0]])] + StartItems(starts[1..])
  }

  lemma {:induction false} StartsOwe(fs: FileSystem, app: App, w: Weights, p: Path, starts: seq<Path>)
    requires WellFormed(fs) && AllReadable(fs) && OnlyAt(fs, app, w, p)
    requires forall k :: 0 <= k < |starts| ==> starts[k] in fs
    ensures Sum(ItemOwes(fs, app, w), StartItems(starts)) == Covering(starts, p) * LocalOwes(fs, app, w, p)
  {
    hide WellFormed, AllReadable, OnlyAt, LocalOwes, ItemOwes;
    if starts != [] {
      StartOwes(fs, app, w, p, starts[0]);
      StartsOwe(fs, app, w, p, starts[1..]);
      Distribute(if starts[0] <= p then 1 else 0, Covering(starts[1..], p), LocalOwes(fs, app, w, p));
    }
  }

  lemma StartOwes(fs: FileSystem, app: App, w: Weights, p: Path, start: Path)
    requires WellFormed(fs) && AllReadable(fs) && OnlyAt(fs, app, w, p) && start in fs
    ensures ItemOwes(fs, app, w)(StatPaths([start])) == if start <= p then LocalOwes(fs, app, w, p) else 0
  {
    var f := PathWeigher(fs, app, w);
    ReachedOnce(fs, app, w, p, start);
    assert SumPaths(f, [start]) == f(start) + SumPaths(f, []);
  }

  lemma Distribute(a: int, b: int, x: int)
    ensures (a + b) * x == a * x + b * x
  {
  }

  /** In a finished run, what an observer of the node at p has counted is what that node contributes,
      once for each start at or above it. */
  lemma WalkCounts(fs: FileSystem, app: App, w: Weights, p: Path, nproc: nat, maxima: seq<int>, starts: seq<Path>,
                   states: seq<State<Item, Msg, Event>>, steps: seq<Step>)
    requires WellFormed(fs) && AllReadable(fs) && FilesOnlyCompare(app)
    requires w.msg(WorkDone) == 0 && OnlyAt(fs, app, w, p)
    requires forall k :: 0 <= k < |starts| ==> starts[k] in fs
    requires IsRun(Job(fs, app, nproc, maxima), StartItems(starts), states, steps)
    requires states[|steps|].manager.Finished?
    ensures Sum(w.event, states[|steps|].log) + Sum(w.msg, states[|steps|].handled)
            == Covering(starts, p) * LocalOwes(fs, app, w, p)
  {
    BatchingIsFaithful(fs, app, w, nproc, maxima);
    FinishedMeansAllDone(Job(fs, app, nproc, maxima), WalkMeter(fs, app, w), StartItems(starts), states, steps);
    StartsOwe(fs, app, w, p, starts);
  }

  /** A node accounts for an event once if the event is due there. */
  lemma LocalCount(fs: FileSystem, app: App, x: Event, q: Path)
    requires AllReadable(fs) && FilesOnlyCompare(app)
    ensures LocalOwes(fs, app, CountEvent(x), q) == if q == x.path && Due(fs, x) then 1 else 0
  {
    if q in fs && fs[q].Regular? {
      QuietFiles(app, x, app.files(q));
    }
    assert q in fs ==> IsReadable(fs, q) || fs[q].Regular?;
  }

  /** When the manager has left its loop, whatever the number of workers and the interleaving, every
      node has been stat-ed, every directory read and every other node processed once for each start
      at or above it. */
  lemma WalkIsExact(fs: FileSystem, app: App, nproc: nat, maxima: seq<int>, starts: seq<Path>,
                    states: seq<State<Item, Msg, Event>>, steps: seq<Step>, x: Event)
    requires WellFormed(fs) && AllReadable(fs) && FilesOnlyCompare(app)
    requires forall k :: 0 <= k < |starts| ==> starts[k] in fs
    requires IsRun(Job(fs, app, nproc, maxima), StartItems(starts), states, steps)
    requires states[|steps|].manager.Finished?
    ensures multiset(states[|steps|].log)[x] == if Due(fs, x) then Covering(starts, x.path) else 0
  {
    hide LocalOwes, WellFormed, AllReadable, FilesOnlyCompare, Covering, Due, Sum, CountEvent, Init, Next;
    var w := CountEvent(x);
    forall q
      ensures LocalOwes(fs, app, w, q) == if q == x.path && Due(fs, x) then 1 else 0
    {
      LocalCount(fs, app, x, q);
    }
    Counted(x, states[|steps|].log, states[|steps|].handled);
    WalkCounts(fs, app, w, x.path, nproc, maxima, starts, states, steps);
  }

  lemma Counted(x: Event, log: seq<Event>, handled: seq<Msg>)
    ensures Sum(CountEvent(x).event, log) == multiset(log)[x]
    ensures Sum(CountEvent(x).msg, handled) == 0 && CountEvent(x).msg(WorkDone) == 0
  {
    SumCounts(CountEvent(x).event, log, x);
    SumNothing(CountEvent(x).msg, handled);
  }
}
