/**
  The tree walk when some directories cannot be opened: exactly which nodes are lost.
 */
module TreeWalkLoss {
  import opened Pwt
  import opened PwtConservation
  import opened PwtProgress
  import opened PwtOutcome
  import opened TreeWalk
  import opened TreeWalkOutcome

  // ---------------------------------------------------------------- batches

  function FullBatches(s: seq<Path>): seq<seq<Path>> {
    if |s| < PATH_BUFFER_MAX then [] else [s[..PATH_BUFFER_MAX]] + FullBatches(s[PATH_BUFFER_MAX..])
  }

  function Leftover(s: seq<Path>): (rest: seq<Path>)
    ensures |rest| < PATH_BUFFER_MAX
  {
    if |s| < PATH_BUFFER_MAX then s else Leftover(s[PATH_BUFFER_MAX..])
  }

  /** A list of paths in batches, the last one with what is left. */
  function Batches(s: seq<Path>): seq<seq<Path>> {
    FullBatches(s) + if Leftover(s) == [] then [] else [Leftover(s)]
  }

  lemma {:induction false} FullBatchesConcat(s: seq<Path>, t: seq<Path>)
    ensures FullBatches(s + t) == FullBatches(s) + FullBatches(Leftover(s) + t)
    ensures Leftover(s + t) == Leftover(Leftover(s) + t)
  {
    if |s| >= PATH_BUFFER_MAX {
      assert (s + t)[..PATH_BUFFER_MAX] == s[..PATH_BUFFER_MAX];
      assert (s + t)[PATH_BUFFER_MAX..] == s[PATH_BUFFER_MAX..] + t;
      FullBatchesConcat(s[PATH_BUFFER_MAX..], t);
    }
  }

  lemma SliceOfTail<T>(s: seq<T>, k: nat, a: nat, b: nat)
    requires a <= b && k + b <= |s|
    ensures s[k..][a..b] == s[k + a..k + b]
  {
  }

  lemma {:induction false} FullBatchAt(s: seq<Path>, c: nat)
    ensures 50 * |FullBatches(s)| <= |s| && Leftover(s) == s[50 * |FullBatches(s)|..]
    ensures c < |FullBatches(s)| <==> 50 * (c + 1) <= |s|
    ensures c < |FullBatches(s)| ==> FullBatches(s)[c] == s[50 * c..50 * (c + 1)]
  {
    if |s| >= PATH_BUFFER_MAX {
      var rest := s[PATH_BUFFER_MAX..];
      FullBatchAt(rest, if c > 0 then c - 1 else 0);
      assert s[PATH_BUFFER_MAX * |FullBatches(s)|..] == rest[PATH_BUFFER_MAX * |FullBatches(rest)|..];
      if 0 < c < |FullBatches(s)| {
        SliceOfTail(s, PATH_BUFFER_MAX, PATH_BUFFER_MAX * (c - 1), PATH_BUFFER_MAX * c);
      }
    }
  }

  /** Batch c holds the paths from position 50 c on, fifty or as many as there are. */
  lemma BatchAt(s: seq<Path>, c: nat)
    requires c < |Batches(s)|
    ensures 50 * c < |s|
    ensures Batches(s)[c] == s[50 * c..if 50 * (c + 1) <= |s| then 50 * (c + 1) else |s|]
  {
    hide FullBatches;
    FullBatchAt(s, c);
    FullBatchAt(s, |FullBatches(s)|);
  }

  lemma InSomeBatch(s: seq<Path>, i: nat) returns (c: nat)
    requires i < |s|
    ensures c < |Batches(s)| && PATH_BUFFER_MAX * c <= i < PATH_BUFFER_MAX * (c + 1) && s[i] in Batches(s)[c]
  {
    c := i / PATH_BUFFER_MAX;
    FullBatchAt(s, c);
    if c > 0 {
      FullBatchAt(s, c - 1);
    }
    BatchAt(s, c);
    assert Batches(s)[c][i - PATH_BUFFER_MAX * c] == s[i];
  }

  // ---------------------------------------------------------------- what a batch leads to

  /** The directories of a batch of paths, in order. */
  function Dirs(fs: FileSystem, batch: seq<Path>): seq<Path> {
    if batch == [] then [] else StatBuffer(fs, batch[0], []) + Dirs(fs, batch[1..])
  }

  function NamePaths(d: Path, entries: seq<string>): seq<Path> {
    if entries == [] then []
    else (if IsDot(entries[0]) then [] else [d + [entries[0]]]) + NamePaths(d, entries[1..])
  }

  /** All that a list of directories holds, whether they can be opened or not. */
  function Contents(fs: FileSystem, dirs: seq<Path>): seq<Path> {
    if dirs == [] then []
    else (if IsDirectory(fs, dirs[0]) then NamePaths(dirs[0], fs[dirs[0]].entries) else []) + Contents(fs, dirs[1..])
  }

  /** How many directories of a list are opened before the first that cannot be. */
  function Opened(fs: FileSystem, dirs: seq<Path>): (u: nat)
    ensures u <= |dirs|
  {
    if dirs == [] || !IsReadable(fs, dirs[0]) then 0 else 1 + Opened(fs, dirs[1..])
  }

  /** The batches that an item which stats a batch leads to when all its directories can be opened. */
  function NextBatches(fs: FileSystem, batch: seq<Path>): seq<seq<Path>> {
    Batches(Contents(fs, Dirs(fs, batch)))
  }

  /** Batch c of them is sent: every directory can be opened, or the batch is full before the first that cannot. */
  predicate Sent(fs: FileSystem, batch: seq<Path>, c: nat) {
    var dirs := Dirs(fs, batch);
    Opened(fs, dirs) == |dirs| || PATH_BUFFER_MAX * (c + 1) <= |Contents(fs, dirs[..Opened(fs, dirs)])|
  }

  ghost predicate Covers(batch: seq<Path>, p: Path) {
    exists q :: q in batch && q <= p
  }

  /** No item above the node, from one that stats a batch of paths of length n on, meets a directory it cannot open
      before the node's batch is sent; and for a directory to be read, none before it in its own batch either. */
  ghost predicate NothingLost(fs: FileSystem, batch: seq<Path>, n: nat, x: Event)
    decreases |x.path| - n
  {
    var dirs, next := Dirs(fs, batch), NextBatches(fs, batch);
    if n >= |x.path| then x.Listed? ==> x.path in dirs[..Opened(fs, dirs)]
    else forall c :: 0 <= c < |next| && Covers(next[c], x.path) ==> Sent(fs, batch, c) && NothingLost(fs, next[c], n + 1, x)
  }

  // ---------------------------------------------------------------- what the items do, batch by batch

  ghost function Does(c: Config<Item, Msg, Event>, price: Item -> nat, x: Event, i: Item): int
    requires Priced(c, price)
  {
    ItemDoes(c, price, CountEvent(x).event, CountEvent(x).msg, i)
  }

  ghost function ActsDone(c: Config<Item, Msg, Event>, price: Item -> nat, x: Event, acts: seq<Act>): int
    requires Priced(c, price)
  {
    ActsDo(c, price, CountEvent(x).event, CountEvent(x).msg, acts)
  }

  ghost function BatchesDo(c: Config<Item, Msg, Event>, price: Item -> nat, x: Event, bs: seq<seq<Path>>): int
    requires Priced(c, price)
  {
    if bs == [] then 0 else Does(c, price, x, StatPaths(bs[0])) + BatchesDo(c, price, x, bs[1..])
  }

  lemma {:induction false} ActsDoneConcat(c: Config<Item, Msg, Event>, price: Item -> nat, x: Event, a: seq<Act>, b: seq<Act>)
    requires Priced(c, price)
    ensures ActsDone(c, price, x, a + b) == ActsDone(c, price, x, a) + ActsDone(c, price, x, b)
  {
    hide Priced;
    if a == [] {
      assert a + b == b;
    } else {
      assert (a + b)[1..] == a[1..] + b;
      ActsDoneConcat(c, price, x, a[1..], b);
    }
  }

  lemma {:induction false} BatchesDoConcat(c: Config<Item, Msg, Event>, price: Item -> nat, x: Event, a: seq<seq<Path>>, b: seq<seq<Path>>)
    requires Priced(c, price)
    ensures BatchesDo(c, price, x, a + b) == BatchesDo(c, price, x, a) + BatchesDo(c, price, x, b)
  {
    hide Priced, Does;
    if a == [] {
      assert a + b == b;
    } else {
      assert (a + b)[1..] == a[1..] + b;
      BatchesDoConcat(c, price, x, a[1..], b);
    }
  }

  lemma OneSubmit(c: Config<Item, Msg, Event>, price: Item -> nat, x: Event, i: Item)
    requires Priced(c, price)
    ensures ActsDone(c, price, x, [Submit(0, i)]) == Does(c, price, x, i)
  {
    hide Priced;
    var acts: seq<Act> := [Submit(0, i)];
    assert acts[1..] == [];
    assert ActsDone(c, price, x, acts) == Does(c, price, x, i) + ActsDone(c, price, x, []);
  }

  lemma OneEffect(c: Config<Item, Msg, Event>, price: Item -> nat, x: Event, e: Event)
    requires Priced(c, price)
    ensures ActsDone(c, price, x, [Effect(e)]) == if e == x then 1 else 0
  {
    hide Priced;
    var acts: seq<Act> := [Effect(e)];
    assert acts[1..] == [];
    assert ActsDone(c, price, x, acts) == CountEvent(x).event(e) + ActsDone(c, price, x, []);
  }

  /** Reading names sends the full batches of what was buffered and what is read, and keeps the rest. */
  lemma {:induction false} ReadNamesDoes(c: Config<Item, Msg, Event>, price: Item -> nat, x: Event,
                                         d: Path, entries: seq<string>, buffer: seq<Path>)
    requires Priced(c, price) && |buffer| < PATH_BUFFER_MAX
    ensures var (acts, left) := ReadNames(d, entries, buffer);
            && left == Leftover(buffer + NamePaths(d, entries))
            && ActsDone(c, price, x, acts) == BatchesDo(c, price, x, FullBatches(buffer + NamePaths(d, entries)))
    decreases |entries|
  {
    hide Priced, Does, ActsDone;
    var names := NamePaths(d, entries);
    if entries == [] {
      assert buffer + names == buffer;
      NoActs(c, price, x);
    } else if IsDot(entries[0]) {
      assert names == NamePaths(d, entries[1..]);
      ReadNamesDoes(c, price, x, d, entries[1..], buffer);
    } else {
      var b, later := buffer + [d + [entries[0]]], NamePaths(d, entries[1..]);
      assert buffer + names == b + later;
      if |b| >= PATH_BUFFER_MAX {
        ReadNamesDoes(c, price, x, d, entries[1..], []);
        var acts := ReadNames(d, entries[1..], []).0;
        OneSubmit(c, price, x, StatPaths(b));
        ActsDoneConcat(c, price, x, [Submit(0, StatPaths(b))], acts);
        assert (b + later)[..PATH_BUFFER_MAX] == b && (b + later)[PATH_BUFFER_MAX..] == later && [] + later == later;
      } else {
        ReadNamesDoes(c, price, x, d, entries[1..], b);
      }
    }
  }

  lemma NoActs(c: Config<Item, Msg, Event>, price: Item -> nat, x: Event)
    requires Priced(c, price)
    ensures ActsDone(c, price, x, []) == 0
  {
  }

  function ListedIn(dirs: seq<Path>, x: Event): nat {
    if dirs == [] then 0 else (if Listed(dirs[0]) == x then 1 else 0) + ListedIn(dirs[1..], x)
  }

  /** The batches that reading a list of directories sends, given what is in the buffer. */
  function SentFrom(fs: FileSystem, dirs: seq<Path>, buffer: seq<Path>): seq<seq<Path>> {
    if Opened(fs, dirs) == |dirs| then Batches(buffer + Contents(fs, dirs))
    else FullBatches(buffer + Contents(fs, dirs[..Opened(fs, dirs)]))
  }

  lemma DirsSplit(fs: FileSystem, p: Path, rest: seq<Path>)
    ensures Dirs(fs, [p] + rest) == StatBuffer(fs, p, []) + Dirs(fs, rest)
    ensures Contents(fs, [p] + rest) == (if IsDirectory(fs, p) then NamePaths(p, fs[p].entries) else []) + Contents(fs, rest)
    ensures Opened(fs, [p] + rest) == if IsReadable(fs, p) then 1 + Opened(fs, rest) else 0
  {
    assert ([p] + rest)[1..] == rest;
  }

  lemma SentFromStep(fs: FileSystem, dirs: seq<Path>, buffer: seq<Path>)
    requires dirs != [] && IsReadable(fs, dirs[0])
    ensures var names := NamePaths(dirs[0], fs[dirs[0]].entries);
            SentFrom(fs, dirs, buffer) == FullBatches(buffer + names) + SentFrom(fs, dirs[1..], Leftover(buffer + names))
    ensures dirs[..Opened(fs, dirs)] == [dirs[0]] + dirs[1..][..Opened(fs, dirs[1..])]
  {
    hide FullBatches, Leftover, Opened, Contents, Dirs, NamePaths;
    var d, rest := dirs[0], dirs[1..];
    var names, u := NamePaths(d, fs[d].entries), Opened(fs, rest);
    assert dirs == [d] + rest && dirs[..u + 1] == [d] + rest[..u];
    DirsSplit(fs, d, rest);
    DirsSplit(fs, d, rest[..u]);
    var later := if u == |rest| then Contents(fs, rest) else Contents(fs, rest[..u]);
    assert buffer + (names + later) == buffer + names + later;
    FullBatchesConcat(buffer + names, later);
  }

  lemma {:induction false} ReadRunDoes(c: Config<Item, Msg, Event>, price: Item -> nat, x: Event,
                                       fs: FileSystem, dirs: seq<Path>, buffer: seq<Path>)
    requires Priced(c, price) && |buffer| < PATH_BUFFER_MAX
    ensures ActsDone(c, price, x, ReadRun(fs, dirs, buffer))
            == ListedIn(dirs[..Opened(fs, dirs)], x) + BatchesDo(c, price, x, SentFrom(fs, dirs, buffer))
    decreases |dirs|
  {
    hide Priced, Does, ActsDone, SentFrom;
    if dirs == [] {
      NoneSent(fs, buffer);
      NoActs(c, price, x);
      OneSubmit(c, price, x, StatPaths(buffer));
      assert buffer != [] ==> BatchesDo(c, price, x, [buffer]) == Does(c, price, x, StatPaths(buffer)) + BatchesDo(c, price, x, []);
    } else if !IsReadable(fs, dirs[0]) {
      NoneOpened(fs, dirs, buffer);
      NoActs(c, price, x);
    } else {
      var d, names := dirs[0], NamePaths(dirs[0], fs[dirs[0]].entries);
      var (acts, b) := ReadNames(d, fs[d].entries, buffer);
      ReadNamesDoes(c, price, x, d, fs[d].entries, buffer);
      ReadRunDoes(c, price, x, fs, dirs[1..], b);
      SentFromStep(fs, dirs, buffer);
      BatchesDoConcat(c, price, x, FullBatches(buffer + names), SentFrom(fs, dirs[1..], b));
      OneEffect(c, price, x, Listed(d));
      ActsDoneConcat(c, price, x, acts, [Effect(Listed(d))]);
      ActsDoneConcat(c, price, x, acts + [Effect(Listed(d))], ReadRun(fs, dirs[1..], b));
    }
  }

  lemma NoneSent(fs: FileSystem, buffer: seq<Path>)
    requires |buffer| < PATH_BUFFER_MAX
    ensures SentFrom(fs, [], buffer) == if buffer == [] then [] else [buffer]
  {
    assert buffer + [] == buffer;
  }

  lemma NoneOpened(fs: FileSystem, dirs: seq<Path>, buffer: seq<Path>)
    requires |buffer| < PATH_BUFFER_MAX && dirs != [] && !IsReadable(fs, dirs[0])
    ensures SentFrom(fs, dirs, buffer) == [] && ListedIn(dirs[..Opened(fs, dirs)], Listed([])) == 0 && dirs[..Opened(fs, dirs)] == []
  {
    assert buffer + [] == buffer;
  }

  /** What stat-ing one path counts for. */
  function StatedIn(fs: FileSystem, batch: seq<Path>, x: Event): nat {
    if batch == [] then 0
    else (if batch[0] == x.path && Due(fs, x) && !x.Listed? then 1 else 0) + StatedIn(fs, batch[1..], x)
  }

  ghost predicate IsJob(c: Config<Item, Msg, Event>, fs: FileSystem, app: App) {
    && FilesOnlyCompare(app)
    && (forall i :: c.program(i) == ProgramOf(fs, app, i))
    && (forall i :: c.result(i) == ResultOf(app, i))
  }

  lemma ItemDone(c: Config<Item, Msg, Event>, price: Item -> nat, x: Event, fs: FileSystem, app: App, i: Item)
    requires Priced(c, price) && IsJob(c, fs, app)
    ensures Does(c, price, x, i) == ActsDone(c, price, x, ProgramOf(fs, app, i))
  {
  }

  lemma {:induction false} QuietDone(c: Config<Item, Msg, Event>, price: Item -> nat, x: Event, fs: FileSystem, app: App, acts: seq<Act>)
    requires Priced(c, price) && IsJob(c, fs, app)
    requires forall k :: 0 <= k < |acts| ==> !acts[k].Effect? && (acts[k].Submit? ==> acts[k].item.CompareFiles?)
    ensures ActsDone(c, price, x, acts) == 0
  {
    hide Priced, IsJob;
    if acts != [] {
      assert forall k :: 0 <= k < |acts| - 1 ==> acts[1..][k] == acts[k + 1];
      QuietDone(c, price, x, fs, app, acts[1..]);
      if acts[0].Submit? {
        ItemDone(c, price, x, fs, app, acts[0].item);
        NoActs(c, price, x);
      }
    }
  }

  lemma StatOneDoes(c: Config<Item, Msg, Event>, price: Item -> nat, x: Event, fs: FileSystem, app: App, p: Path)
    requires Priced(c, price) && IsJob(c, fs, app)
    ensures ActsDone(c, price, x, StatOne(fs, app, p)) == if p == x.path && Due(fs, x) && !x.Listed? then 1 else 0
  {
    FilesQuiet(c, fs, app, p);
    hide Priced, IsJob, ActsDone;
    NoActs(c, price, x);
    OneEffect(c, price, x, Stated(p));
    OneEffect(c, price, x, Processed(p));
    QuietDone(c, price, x, fs, app, app.files(p));
    var s, r: seq<Act> := [Effect(Stated(p))], [Effect(Processed(p))];
    ActsDoneConcat(c, price, x, s, r);
    ActsDoneConcat(c, price, x, s + r, app.files(p));
    assert s + r == [Effect(Stated(p)), Effect(Processed(p))];
  }

  lemma FilesQuiet(c: Config<Item, Msg, Event>, fs: FileSystem, app: App, p: Path)
    requires IsJob(c, fs, app)
    ensures forall k :: 0 <= k < |app.files(p)| ==>
              !app.files(p)[k].Effect? && (app.files(p)[k].Submit? ==> app.files(p)[k].item.CompareFiles?)
  {
  }

  lemma NothingRead(c: Config<Item, Msg, Event>, price: Item -> nat, x: Event, fs: FileSystem, app: App)
    requires Priced(c, price) && IsJob(c, fs, app)
    ensures Does(c, price, x, ReadDirs([])) == 0
  {
    hide Priced, IsJob;
    ItemDone(c, price, x, fs, app, ReadDirs([]));
    NoActs(c, price, x);
  }

  /** Stat-ing a batch counts for its paths and for reading its directories, which fit one buffer. */
  lemma {:induction false} StatRunDoes(c: Config<Item, Msg, Event>, price: Item -> nat, x: Event, fs: FileSystem, app: App,
                                       paths: seq<Path>, buffer: seq<Path>)
    requires Priced(c, price) && IsJob(c, fs, app)
    requires |buffer| < PATH_BUFFER_MAX && |buffer| + |Dirs(fs, paths)| <= PATH_BUFFER_MAX
    ensures ActsDone(c, price, x, StatRun(fs, app, paths, buffer))
            == StatedIn(fs, paths, x) + Does(c, price, x, ReadDirs(buffer + Dirs(fs, paths)))
    decreases |paths|
  {
    hide Priced, IsJob, ActsDone, Does, StatOne, Due;
    NothingRead(c, price, x, fs, app);
    NoActs(c, price, x);
    if paths == [] {
      OneSubmit(c, price, x, ReadDirs(buffer));
      assert buffer + [] == buffer;
    } else {
      var p, b, later := paths[0], StatBuffer(fs, paths[0], buffer), Dirs(fs, paths[1..]);
      StatOneDoes(c, price, x, fs, app, p);
      assert buffer + Dirs(fs, paths) == b + later;
      if |b| >= PATH_BUFFER_MAX {
        var rest := StatRun(fs, app, paths[1..], []);
        StatRunDoes(c, price, x, fs, app, paths[1..], []);
        assert later == [] && [] + later == [] && b + later == b;
        OneSubmit(c, price, x, ReadDirs(b));
        ActsDoneConcat(c, price, x, [Submit(0, ReadDirs(b))], rest);
        ActsDoneConcat(c, price, x, StatOne(fs, app, p), [Submit(0, ReadDirs(b))] + rest);
      } else {
        StatRunDoes(c, price, x, fs, app, paths[1..], b);
        ActsDoneConcat(c, price, x, StatOne(fs, app, p), StatRun(fs, app, paths[1..], b));
      }
    }
  }

  lemma BatchDoes(c: Config<Item, Msg, Event>, price: Item -> nat, x: Event, fs: FileSystem, app: App, batch: seq<Path>)
    requires Priced(c, price) && IsJob(c, fs, app) && |Dirs(fs, batch)| <= PATH_BUFFER_MAX
    ensures var dirs := Dirs(fs, batch);
            Does(c, price, x, StatPaths(batch))
            == StatedIn(fs, batch, x) + ListedIn(dirs[..Opened(fs, dirs)], x) + BatchesDo(c, price, x, SentFrom(fs, dirs, []))
  {
    hide Priced, IsJob, ActsDone, Does, SentFrom, BatchesDo, StatedIn, ListedIn;
    var dirs := Dirs(fs, batch);
    ItemDone(c, price, x, fs, app, StatPaths(batch));
    StatRunDoes(c, price, x, fs, app, batch, []);
    assert [] + dirs == dirs;
    ItemDone(c, price, x, fs, app, ReadDirs(dirs));
    ReadRunDoes(c, price, x, fs, dirs, []);
  }

  /** The batches sent are the first of those that would have been. */
  lemma SentAreFirst(fs: FileSystem, batch: seq<Path>)
    ensures var sent, next := SentFrom(fs, Dirs(fs, batch), []), NextBatches(fs, batch);
            sent <= next && forall c :: 0 <= c < |next| ==> (Sent(fs, batch, c) <==> c < |sent|)
  {
    hide FullBatches, Leftover, Opened, Dirs, Contents;
    var dirs := Dirs(fs, batch);
    var u := Opened(fs, dirs);
    var all, some := Contents(fs, dirs), Contents(fs, dirs[..u]);
    assert [] + all == all && [] + some == some;
    if u < |dirs| {
      ContentsConcat(fs, dirs[..u], dirs[u..]);
      assert dirs[..u] + dirs[u..] == dirs;
      FirstBatches(some, Contents(fs, dirs[u..]));
    }
  }

  lemma FirstBatches(some: seq<Path>, more: seq<Path>)
    ensures FullBatches(some) <= Batches(some + more)
    ensures PATH_BUFFER_MAX * |FullBatches(some)| <= |some| < PATH_BUFFER_MAX * (|FullBatches(some)| + 1)
  {
    hide FullBatches, Leftover;
    FullBatchesConcat(some, more);
    FullBatchAt(some, |FullBatches(some)|);
  }

  lemma {:induction false} ContentsConcat(fs: FileSystem, a: seq<Path>, b: seq<Path>)
    ensures Contents(fs, a + b) == Contents(fs, a) + Contents(fs, b)
  {
    if a == [] {
      assert a + b == b;
    } else {
      assert (a + b)[1..] == a[1..] + b && (a + b)[0] == a[0];
      ContentsConcat(fs, a[1..], b);
      var names := if IsDirectory(fs, a[0]) then NamePaths(a[0], fs[a[0]].entries) else [];
      assert names + (Contents(fs, a[1..]) + Contents(fs, b)) == names + Contents(fs, a[1..]) + Contents(fs, b);
    }
  }

  // ---------------------------------------------------------------- the paths of a batch

  /** Nodes of one length, none of them twice. */
  ghost predicate Nodes(fs: FileSystem, s: seq<Path>, n: nat) {
    && (forall k :: 0 <= k < |s| ==> s[k] in fs && |s[k]| == n)
    && (forall j, k :: 0 <= j < k < |s| ==> s[j] != s[k])
  }

  lemma {:induction false} InDirs(fs: FileSystem, batch: seq<Path>, q: Path)
    ensures q in Dirs(fs, batch) <==> q in batch && IsDirectory(fs, q)
    ensures |Dirs(fs, batch)| <= |batch|
  {
    if batch != [] {
      InDirs(fs, batch[1..], q);
    }
  }

  lemma {:induction false} DirsAreNodes(fs: FileSystem, batch: seq<Path>, n: nat)
    requires Nodes(fs, batch, n)
    ensures Nodes(fs, Dirs(fs, batch), n)
  {
    if batch != [] {
      DirsAreNodes(fs, batch[1..], n);
      InDirs(fs, batch[1..], batch[0]);
      forall k | 0 <= k < |Dirs(fs, batch[1..])|
        ensures Dirs(fs, batch[1..])[k] != batch[0]
      {
        assert Dirs(fs, batch[1..])[k] in Dirs(fs, batch[1..]);
        assert batch[0] !in batch[1..];
      }
    }
  }

  lemma {:induction false} InNamePaths(d: Path, entries: seq<string>, q: Path)
    ensures q in NamePaths(d, entries) <==> |q| == |d| + 1 && q[..|d|] == d && q[|d|] in Children(entries)
  {
    if entries != [] {
      InNamePaths(d, entries[1..], q);
      if |q| == |d| + 1 && q[..|d|] == d {
        assert q == d + [q[|d|]];
      }
    }
  }

  lemma {:induction false} NamePathsDiffer(d: Path, entries: seq<string>)
    requires Distinct(Children(entries))
    ensures forall j, k :: 0 <= j < k < |NamePaths(d, entries)| ==> NamePaths(d, entries)[j] != NamePaths(d, entries)[k]
  {
    if entries != [] {
      if !IsDot(entries[0]) {
        var q := d + [entries[0]];
        assert Children(entries)[1..] == Children(entries[1..]);
        DistinctTail(Children(entries));
        InNamePaths(d, entries[1..], q);
        assert q !in NamePaths(d, entries[1..]);
      }
      NamePathsDiffer(d, entries[1..]);
    }
  }

  lemma {:induction false} InContents(fs: FileSystem, dirs: seq<Path>, n: nat, q: Path)
    requires forall k :: 0 <= k < |dirs| ==> |dirs[k]| == n && IsDirectory(fs, dirs[k])
    ensures q in Contents(fs, dirs) <==> |q| == n + 1 && q[..n] in dirs && IsDirectory(fs, q[..n]) && q[n] in Children(fs[q[..n]].entries)
  {
    if dirs != [] {
      InContents(fs, dirs[1..], n, q);
      InNamePaths(dirs[0], fs[dirs[0]].entries, q);
    }
  }

  lemma {:induction false} ContentsAreNodes(fs: FileSystem, dirs: seq<Path>, n: nat)
    requires WellFormed(fs) && Nodes(fs, dirs, n) && forall k :: 0 <= k < |dirs| ==> IsDirectory(fs, dirs[k])
    ensures Nodes(fs, Contents(fs, dirs), n + 1)
  {
    hide WellFormed;
    if dirs != [] {
      var d, rest := dirs[0], Contents(fs, dirs[1..]);
      var names := NamePaths(d, fs[d].entries);
      ContentsAreNodes(fs, dirs[1..], n);
      NamesAreNodes(fs, d);
      forall q | q in names
        ensures q !in rest
      {
        InNamePaths(d, fs[d].entries, q);
        InContents(fs, dirs[1..], n, q);
        assert d !in dirs[1..];
      }
      NodesConcat(fs, names, rest, n + 1);
    }
  }

  lemma NamesAreNodes(fs: FileSystem, d: Path)
    requires WellFormed(fs) && IsDirectory(fs, d)
    ensures Nodes(fs, NamePaths(d, fs[d].entries), |d| + 1)
  {
    ChildrenOfForest(fs, d);
    var names := NamePaths(d, fs[d].entries);
    NamePathsDiffer(d, fs[d].entries);
    forall k | 0 <= k < |names|
      ensures names[k] in fs && |names[k]| == |d| + 1
    {
      assert names[k] in names;
      InNamePaths(d, fs[d].entries, names[k]);
      assert names[k] == d + [names[k][|d|]];
    }
  }

  lemma NodesConcat(fs: FileSystem, a: seq<Path>, b: seq<Path>, n: nat)
    requires Nodes(fs, a, n) && Nodes(fs, b, n) && forall q :: q in a ==> q !in b
    ensures Nodes(fs, a + b, n)
  {
    forall j, k | 0 <= j < k < |a + b|
      ensures (a + b)[j] != (a + b)[k]
    {
      if j < |a| <= k {
        assert a[j] in a && b[k - |a|] in b;
      }
    }
  }

  lemma NextAreNodes(fs: FileSystem, batch: seq<Path>, n: nat, c: nat)
    requires WellFormed(fs) && Nodes(fs, batch, n) && c < |NextBatches(fs, batch)|
    ensures var b := NextBatches(fs, batch)[c]; Nodes(fs, b, n + 1) && 0 < |b| <= PATH_BUFFER_MAX
    ensures forall q :: q in NextBatches(fs, batch)[c] ==> q in Contents(fs, Dirs(fs, batch))
  {
    hide Batches, Contents, Dirs, WellFormed, Nodes;
    var below := Contents(fs, Dirs(fs, batch));
    AllNextAreNodes(fs, batch, n);
    BatchAt(below, c);
    SliceOfNodes(fs, below, n + 1, PATH_BUFFER_MAX * c, if PATH_BUFFER_MAX * (c + 1) <= |below| then PATH_BUFFER_MAX * (c + 1) else |below|);
  }

  lemma SliceOfNodes(fs: FileSystem, s: seq<Path>, n: nat, a: nat, b: nat)
    requires Nodes(fs, s, n) && a <= b <= |s|
    ensures Nodes(fs, s[a..b], n) && forall q :: q in s[a..b] ==> q in s
  {
    forall k | 0 <= k < b - a
      ensures s[a..b][k] == s[a + k]
    {
    }
  }

  lemma AllNextAreNodes(fs: FileSystem, batch: seq<Path>, n: nat)
    requires WellFormed(fs) && Nodes(fs, batch, n)
    ensures Nodes(fs, Contents(fs, Dirs(fs, batch)), n + 1)
    ensures forall q :: q in Contents(fs, Dirs(fs, batch)) <==>
              |q| == n + 1 && q[..n] in batch && IsDirectory(fs, q[..n]) && q[n] in Children(fs[q[..n]].entries)
  {
    var dirs := Dirs(fs, batch);
    DirsAreNodes(fs, batch, n);
    forall k | 0 <= k < |dirs|
      ensures IsDirectory(fs, dirs[k])
    {
      assert dirs[k] in dirs;
      InDirs(fs, batch, dirs[k]);
    }
    ContentsAreNodes(fs, dirs, n);
    forall q
      ensures q in Contents(fs, dirs) <==>
                |q| == n + 1 && q[..n] in batch && IsDirectory(fs, q[..n]) && q[n] in Children(fs[q[..n]].entries)
    {
      InContents(fs, dirs, n, q);
      if |q| == n + 1 {
        InDirs(fs, batch, q[..n]);
      }
    }
  }

  // ---------------------------------------------------------------- which nodes are visited

  ghost predicate Visited(fs: FileSystem, batch: seq<Path>, n: nat, x: Event) {
    Covers(batch, x.path) && Due(fs, x) && NothingLost(fs, batch, n, x)
  }

  lemma {:induction false} NoBatchDoes(c: Config<Item, Msg, Event>, price: Item -> nat, x: Event, bs: seq<seq<Path>>)
    requires Priced(c, price) && forall k :: 0 <= k < |bs| ==> Does(c, price, x, StatPaths(bs[k])) == 0
    ensures BatchesDo(c, price, x, bs) == 0
  {
    hide Priced, Does;
    if bs != [] {
      assert forall k :: 0 <= k < |bs| - 1 ==> bs[1..][k] == bs[k + 1];
      NoBatchDoes(c, price, x, bs[1..]);
    }
  }

  lemma {:induction false} OneBatchDoes(c: Config<Item, Msg, Event>, price: Item -> nat, x: Event, bs: seq<seq<Path>>, k0: nat)
    requires Priced(c, price) && forall k :: 0 <= k < |bs| && k != k0 ==> Does(c, price, x, StatPaths(bs[k])) == 0
    ensures BatchesDo(c, price, x, bs) == if k0 < |bs| then Does(c, price, x, StatPaths(bs[k0])) else 0
  {
    hide Priced, Does;
    if bs != [] {
      assert forall k :: 0 <= k < |bs| - 1 ==> bs[1..][k] == bs[k + 1];
      if k0 == 0 {
        NoBatchDoes(c, price, x, bs[1..]);
      } else {
        OneBatchDoes(c, price, x, bs[1..], k0 - 1);
      }
    }
  }

  lemma {:induction false} StatedOnce(fs: FileSystem, batch: seq<Path>, n: nat, x: Event)
    requires Nodes(fs, batch, n)
    ensures StatedIn(fs, batch, x) == if x.path in batch && Due(fs, x) && !x.Listed? then 1 else 0
  {
    if batch != [] {
      StatedOnce(fs, batch[1..], n, x);
      assert batch[0] !in batch[1..];
    }
  }

  lemma {:induction false} ListedOnce(fs: FileSystem, dirs: seq<Path>, n: nat, x: Event)
    requires Nodes(fs, dirs, n)
    ensures ListedIn(dirs, x) == if x.Listed? && x.path in dirs then 1 else 0
  {
    if dirs != [] {
      ListedOnce(fs, dirs[1..], n, x);
      assert dirs[0] !in dirs[1..];
    }
  }

  /** What a batch counts for itself, without the batches it leads to. */
  lemma OwnCount(fs: FileSystem, batch: seq<Path>, n: nat, x: Event)
    requires Nodes(fs, batch, n)
    ensures var dirs := Dirs(fs, batch);
            StatedIn(fs, batch, x) + ListedIn(dirs[..Opened(fs, dirs)], x)
            == if |x.path| <= n && Visited(fs, batch, n, x) then 1 else 0
  {
    var dirs, p := Dirs(fs, batch), x.path;
    StatedOnce(fs, batch, n, x);
    DirsAreNodes(fs, batch, n);
    SliceOfNodes(fs, dirs, n, 0, Opened(fs, dirs));
    ListedOnce(fs, dirs[..Opened(fs, dirs)], n, x);
    InDirs(fs, batch, p);
    if |p| <= n {
      if q :| q in batch && q <= p {
        assert |q| == n && q == p;
      }
      assert p in batch ==> Covers(batch, p);
    }
  }

  /** Only one batch that a batch leads to can hold the way to a node below it, and one does. */
  lemma OneLeadsOn(fs: FileSystem, batch: seq<Path>, n: nat, p: Path) returns (k0: nat)
    requires WellFormed(fs) && Nodes(fs, batch, n) && p in fs && |p| > n && Covers(batch, p)
    ensures k0 < |NextBatches(fs, batch)| && Covers(NextBatches(fs, batch)[k0], p)
    ensures forall k :: 0 <= k < |NextBatches(fs, batch)| && Covers(NextBatches(fs, batch)[k], p) ==> k == k0
  {
    WayDown(fs, batch, n, p);
    AllNextAreNodes(fs, batch, n);
    hide WellFormed, Batches, Contents, Nodes;
    var q, below := p[..n + 1], Contents(fs, Dirs(fs, batch));
    var i :| 0 <= i < |below| && below[i] == q;
    k0 := InSomeBatch(below, i);
    assert q in NextBatches(fs, batch)[k0] && q <= p;
    forall k | 0 <= k < |NextBatches(fs, batch)| && Covers(NextBatches(fs, batch)[k], p)
      ensures k == k0
    {
      OnlyBatch(fs, below, n, p, i, k);
    }
  }

  lemma WayDown(fs: FileSystem, batch: seq<Path>, n: nat, p: Path)
    requires WellFormed(fs) && Nodes(fs, batch, n) && p in fs && |p| > n && Covers(batch, p)
    ensures p[..n + 1] in Contents(fs, Dirs(fs, batch))
  {
    hide Contents, Dirs, WellFormed, Nodes, Covers;
    AllNextAreNodes(fs, batch, n);
    CoveredBy(fs, batch, n, p);
    StepDown(fs, p, n);
    assert p[..n + 1][..n] == p[..n];
  }

  lemma CoveredBy(fs: FileSystem, batch: seq<Path>, n: nat, p: Path)
    requires Nodes(fs, batch, n) && Covers(batch, p)
    ensures |p| >= n && p[..n] in batch && p[..n] in fs
  {
    var q :| q in batch && q <= p;
    assert q == p[..n];
  }

  lemma StepDown(fs: FileSystem, p: Path, n: nat)
    requires WellFormed(fs) && p in fs && n < |p| && p[..n] in fs
    ensures IsDirectory(fs, p[..n]) && p[n] in Children(fs[p[..n]].entries)
  {
  }

  lemma OnlyBatch(fs: FileSystem, below: seq<Path>, n: nat, p: Path, i: nat, k: nat)
    requires Nodes(fs, below, n + 1) && |p| > n && i < |below| && below[i] == p[..n + 1]
    requires k < |Batches(below)| && Covers(Batches(below)[k], p)
    ensures PATH_BUFFER_MAX * k <= i < PATH_BUFFER_MAX * (k + 1)
  {
    hide Batches;
    var r :| r in Batches(below)[k] && r <= p;
    BatchAt(below, k);
    var j :| 0 <= j < |Batches(below)[k]| && Batches(below)[k][j] == r;
    assert below[PATH_BUFFER_MAX * k + j] == r;
    assert r == p[..n + 1];
  }

  lemma NextCoveredFromHere(fs: FileSystem, batch: seq<Path>, n: nat, p: Path, k: nat)
    requires WellFormed(fs) && Nodes(fs, batch, n) && k < |NextBatches(fs, batch)| && Covers(NextBatches(fs, batch)[k], p)
    ensures |p| > n && Covers(batch, p)
  {
    var r :| r in NextBatches(fs, batch)[k] && r <= p;
    NextAreNodes(fs, batch, n, k);
    AllNextAreNodes(fs, batch, n);
    assert r[..n] in batch && r[..n] <= p;
  }

  ghost function Deeper(fs: FileSystem, n: nat): set<Path> {
    set q | q in fs && |q| > n
  }

  /** A batch and everything it leads to account for an event once if it is due at or below the batch and nothing
      above it is lost, and never otherwise. */
  lemma {:induction false} BatchVisits(c: Config<Item, Msg, Event>, price: Item -> nat, x: Event, fs: FileSystem, app: App,
                                       batch: seq<Path>, n: nat)
    requires Priced(c, price) && IsJob(c, fs, app) && WellFormed(fs)
    requires Nodes(fs, batch, n) && |batch| <= PATH_BUFFER_MAX
    ensures Does(c, price, x, StatPaths(batch)) == if Visited(fs, batch, n, x) then 1 else 0
    decreases Deeper(fs, n)
  {
    hide Priced, IsJob, WellFormed, Does, ActsDone, Nodes, NextBatches, Sent, Visited, Due, Opened, SentFrom;
    var next, sent := NextBatches(fs, batch), SentFrom(fs, Dirs(fs, batch), []);
    InDirs(fs, batch, []);
    BatchDoes(c, price, x, fs, app, batch);
    OwnCount(fs, batch, n, x);
    SentAreFirst(fs, batch);
    forall k | 0 <= k < |sent|
      ensures Does(c, price, x, StatPaths(sent[k])) == if Visited(fs, next[k], n + 1, x) then 1 else 0
    {
      assert sent[k] == next[k];
      NextAreNodes(fs, batch, n, k);
      DeeperNodes(fs, next[k], n);
      BatchVisits(c, price, x, fs, app, next[k], n + 1);
    }
    var k0 := VisitedNext(fs, batch, n, x);
    OneBatchDoes(c, price, x, sent, k0);
  }

  lemma DeeperNodes(fs: FileSystem, b: seq<Path>, n: nat)
    requires Nodes(fs, b, n + 1) && b != []
    ensures Deeper(fs, n + 1) < Deeper(fs, n)
  {
    assert b[0] in Deeper(fs, n) && b[0] !in Deeper(fs, n + 1);
  }

  /** An event below a batch happens exactly when it happens in the one batch on its way, and that batch is sent. */
  lemma VisitedNext(fs: FileSystem, batch: seq<Path>, n: nat, x: Event) returns (k0: nat)
    requires WellFormed(fs) && Nodes(fs, batch, n)
    ensures var next := NextBatches(fs, batch);
            && (forall k :: 0 <= k < |next| && k != k0 ==> !Visited(fs, next[k], n + 1, x))
            && (|x.path| <= n && k0 < |next| ==> !Visited(fs, next[k0], n + 1, x))
            && (|x.path| > n ==>
                  (Visited(fs, batch, n, x) <==> k0 < |next| && Sent(fs, batch, k0) && Visited(fs, next[k0], n + 1, x)))
  {
    hide WellFormed, Nodes, NextBatches, Sent;
    var next, p := NextBatches(fs, batch), x.path;
    forall k | 0 <= k < |next| && Covers(next[k], p)
      ensures |p| > n && Covers(batch, p)
    {
      NextCoveredFromHere(fs, batch, n, p, k);
    }
    if |p| > n && Due(fs, x) && Covers(batch, p) {
      k0 := OneLeadsOn(fs, batch, n, p);
    } else {
      k0 := 0;
    }
  }

  /** How many starts at or above an event's node lead to it without loss. */
  ghost function Reaching(fs: FileSystem, starts: seq<Path>, x: Event): nat {
    if starts == [] then 0
    else (if starts[0] <= x.path && NothingLost(fs, [starts[0]], |starts[0]|, x) then 1 else 0) + Reaching(fs, starts[1..], x)
  }

  lemma {:induction false} StartsVisit(c: Config<Item, Msg, Event>, price: Item -> nat, x: Event, fs: FileSystem, app: App,
                                       starts: seq<Path>)
    requires Priced(c, price) && IsJob(c, fs, app) && WellFormed(fs)
    requires forall k :: 0 <= k < |starts| ==> starts[k] in fs
    ensures Sum((i: Item) => Does(c, price, x, i), StartItems(starts)) == if Due(fs, x) then Reaching(fs, starts, x) else 0
  {
    hide Priced, IsJob, WellFormed, Does, Due, NothingLost;
    if starts != [] {
      var start := starts[0];
      BatchVisits(c, price, x, fs, app, [start], |start|);
      assert start in [start];
      assert Covers([start], x.path) <==> start <= x.path;
      StartsVisit(c, price, x, fs, app, starts[1..]);
    }
  }

  /** When the manager has left its loop, whatever could not be opened: every event that is due at a node has happened
      once for each start at or above it from which nothing on the way is lost, and nothing else has happened. */
  lemma WalkVisits(fs: FileSystem, app: App, nproc: nat, maxima: seq<int>, starts: seq<Path>,
                   states: seq<State<Item, Msg, Event>>, steps: seq<Step>, x: Event)
    requires WellFormed(fs) && FilesOnlyCompare(app)
    requires forall k :: 0 <= k < |starts| ==> starts[k] in fs
    requires IsRun(Job(fs, app, nproc, maxima), StartItems(starts), states, steps)
    requires states[|steps|].manager.Finished?
    ensures multiset(states[|steps|].log)[x] == if Due(fs, x) then Reaching(fs, starts, x) else 0
  {
    var c, price := Job(fs, app, nproc, maxima), ItemPrice(fs, app);
    WalkIsPriced(fs, app, nproc, maxima);
    assert IsJob(c, fs, app);
    hide Priced, IsJob, WellFormed, Due, IsRun, Reaching, ItemPrice;
    StartsVisit(c, price, x, fs, app, starts);
    FinishedRunDoes(c, price, CountEvent(x).event, CountEvent(x).msg, StartItems(starts), states, steps);
    SameSums(c, price, x, StartItems(starts));
    Counted(x, states[|steps|].log, states[|steps|].handled);
  }

  lemma {:induction false} SameSums(c: Config<Item, Msg, Event>, price: Item -> nat, x: Event, items: seq<Item>)
    requires Priced(c, price)
    ensures Sum((i: Item) => ItemDoes(c, price, CountEvent(x).event, CountEvent(x).msg, i), items)
            == Sum((i: Item) => Does(c, price, x, i), items)
  {
    hide Priced;
    if items != [] {
      SameSums(c, price, x, items[1..]);
    }
  }

  /** So any two finished walks from the same starts have done the same, whatever their numbers of workers and queues. */
  lemma WalksAgree(fs: FileSystem, app: App, starts: seq<Path>, nproc: nat, maxima: seq<int>,
                   states: seq<State<Item, Msg, Event>>, steps: seq<Step>, nproc': nat, maxima': seq<int>,
                   states': seq<State<Item, Msg, Event>>, steps': seq<Step>)
    requires FilesOnlyCompare(app)
    requires IsRun(Job(fs, app, nproc, maxima), StartItems(starts), states, steps) && states[|steps|].manager.Finished?
    requires IsRun(Job(fs, app, nproc', maxima'), StartItems(starts), states', steps') && states'[|steps'|].manager.Finished?
    ensures multiset(states[|steps|].log) == multiset(states'[|steps'|].log)
    ensures multiset(states[|steps|].handled) == multiset(states'[|steps'|].handled)
  {
    var c, d := Job(fs, app, nproc, maxima), Job(fs, app, nproc', maxima');
    WalkIsPriced(fs, app, nproc, maxima);
    assert c.program == d.program && c.result == d.result;
    OutcomeIsDetermined(c, d, ItemPrice(fs, app), StartItems(starts), states, steps, states', steps');
  }

  // ---------------------------------------------------------------- a tree that loses nodes

  /** A directory with a file, one that cannot be opened, and an empty one, in this order. */
  function LossyTree(): FileSystem {
    map[[] := Directory(["a", "bad", "b"], true),
        ["a"] := Directory(["f"], true),
        ["a", "f"] := Regular,
        ["bad"] := Directory([], false),
        ["b"] := Directory([], true)]
  }

  lemma LossyTreeNodes(p: Path)
    ensures p in LossyTree() <==> p == [] || p == ["a"] || p == ["a", "f"] || p == ["bad"] || p == ["b"]
    ensures p == [] ==> LossyTree()[p] == Directory(["a", "bad", "b"], true)
    ensures p == ["a"] ==> LossyTree()[p] == Directory(["f"], true)
    ensures p == ["a", "f"] ==> LossyTree()[p] == Regular
    ensures p == ["bad"] ==> LossyTree()[p] == Directory([], false)
    ensures p == ["b"] ==> LossyTree()[p] == Directory([], true)
  {
  }

  lemma LossyTreeIsWellFormed()
    ensures WellFormed(LossyTree())
  {
    hide LossyTree;
    var fs := LossyTree();
    forall d, n | IsDirectory(fs, d) && n in fs[d].entries && n != "." && n != ".."
      ensures d + [n] in fs
    {
      LossyTreeNodes(d);
      LossyTreeNodes(d + [n]);
    }
    forall p, k | p in fs && 0 <= k < |p| && p[..k] in fs
      ensures IsDirectory(fs, p[..k]) && p[k] in fs[p[..k]].entries && p[k] != "." && p[k] != ".."
    {
      LossyTreeNodes(p);
      LossyTreeNodes(p[..k]);
    }
    forall d, i, j | IsDirectory(fs, d) && 0 <= i < j < |fs[d].entries|
      ensures fs[d].entries[i] != fs[d].entries[j]
    {
      LossyTreeNodes(d);
    }
  }

  /** The file is in a batch that is not full when the second directory cannot be opened, and the third directory comes
      after it: in no finished run is the one stat-ed or the other read, although every directory above them opens. */
  lemma ReadableNodesAreLost(app: App, nproc: nat, maxima: seq<int>, states: seq<State<Item, Msg, Event>>, steps: seq<Step>)
    requires FilesOnlyCompare(app)
    requires IsRun(Job(LossyTree(), app, nproc, maxima), StartItems([[]]), states, steps)
    requires states[|steps|].manager.Finished?
    ensures Due(LossyTree(), Stated(["a", "f"])) && multiset(states[|steps|].log)[Stated(["a", "f"])] == 0
    ensures IsReadable(LossyTree(), ["b"]) && multiset(states[|steps|].log)[Listed(["b"])] == 0
  {
    LossyTreeIsWellFormed();
    WalkVisits(LossyTree(), app, nproc, maxima, [[]], states, steps, Stated(["a", "f"]));
    WalkVisits(LossyTree(), app, nproc, maxima, [[]], states, steps, Listed(["b"]));
    LossyBatches();
  }

  lemma SmallBatch(s: seq<Path>)
    requires 0 < |s| < PATH_BUFFER_MAX
    ensures Batches(s) == [s]
  {
  }

  lemma NamesSplit(d: Path, name: string, rest: seq<string>, p: Path)
    requires !IsDot(name) && p == d + [name]
    ensures NamePaths(d, [name] + rest) == [p] + NamePaths(d, rest)
  {
    assert ([name] + rest)[1..] == rest;
  }

  lemma RootLeads()
    ensures NextBatches(LossyTree(), [[]]) == [[["a"], ["bad"], ["b"]]]
  {
    hide Batches, LossyTree;
    var fs := LossyTree();
    LossyTreeNodes([]);
    DirsSplit(fs, [], []);
    NamesSplit([], "a", ["bad", "b"], ["a"]);
    NamesSplit([], "bad", ["b"], ["bad"]);
    NamesSplit([], "b", [], ["b"]);
    assert ["a", "bad", "b"] == ["a"] + (["bad"] + (["b"] + []));
    assert ["bad", "b"] == ["bad"] + ["b"] && ["b"] == ["b"] + [];
    var root: seq<Path> := [[]];
    assert root == [[]] + [] && Dirs(fs, root) == root;
    assert Contents(fs, root) == NamePaths([], ["a", "bad", "b"]) == [["a"], ["bad"], ["b"]];
    SmallBatch([["a"], ["bad"], ["b"]]);
  }

  lemma ChildrenLead()
    ensures var fs, batch := LossyTree(), [["a"], ["bad"], ["b"]];
            && Dirs(fs, batch) == batch && Opened(fs, batch) == 1
            && NextBatches(fs, batch) == [[["a", "f"]]] && |Contents(fs, batch[..1])| == 1
  {
    hide Batches, LossyTree;
    var fs, batch := LossyTree(), [["a"], ["bad"], ["b"]];
    LossyTreeNodes(["a"]);
    LossyTreeNodes(["bad"]);
    LossyTreeNodes(["b"]);
    DirsSplit(fs, ["a"], [["bad"], ["b"]]);
    DirsSplit(fs, ["bad"], [["b"]]);
    DirsSplit(fs, ["b"], []);
    DirsSplit(fs, ["a"], []);
    NamesSplit(["a"], "f", [], ["a", "f"]);
    SmallBatch([["a", "f"]]);
    assert ["f"] == ["f"] + [] && NamePaths(["a"], ["f"]) == [["a", "f"]];
    assert batch == [["a"]] + ([["bad"]] + ([["b"]] + []));
    assert [["bad"], ["b"]] == [["bad"]] + [["b"]] && [["b"]] == [["b"]] + [];
    assert batch[..1] == [["a"]] + [];
    assert Contents(fs, batch) == [["a", "f"]];
  }

  lemma LossyBatches()
    ensures Reaching(LossyTree(), [[]], Stated(["a", "f"])) == 0
    ensures Reaching(LossyTree(), [[]], Listed(["b"])) == 0
  {
    hide LossyTree, NextBatches, Dirs, Opened, Contents;
    var fs, batch := LossyTree(), [["a"], ["bad"], ["b"]];
    RootLeads();
    ChildrenLead();
    assert [["a"], ["bad"], ["b"]][..1] == [["a"]];
    assert ["a"] in batch && ["a"] <= ["a", "f"];
    assert ["b"] in batch && ["b"] <= ["b"];
    assert Covers(NextBatches(fs, [[]])[0], ["a", "f"]) && Covers(NextBatches(fs, [[]])[0], ["b"]);
    assert ["a", "f"] in NextBatches(fs, batch)[0];
    assert Covers(NextBatches(fs, batch)[0], ["a", "f"]);
    assert !Sent(fs, batch, 0);
    assert !NothingLost(fs, batch, 1, Stated(["a", "f"]));
    assert !NothingLost(fs, batch, 1, Listed(["b"]));
    var starts: seq<Path> := [[]];
    assert starts[1..] == [];
  }
}
