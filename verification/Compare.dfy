/**
  The parallel file compare: what processing a file submits, how the bytes of a file are
  cut into chunks, what comparing one chunk finds, and how the manager turns the results
  into one verdict per file with the help of the chunk table.
 */
module Compare {
  import opened Pwt
  import opened TreeWalk
  import opened FchunkTable

  datatype FileData = FileData(bytes: seq<bv8>, mtime: int)

  // What lstat says about the path to compare with.
  datatype Dest = Missing | StatError | Present(file: FileData)

  datatype Options = Options(nproc: nat, metaOnly: bool, verbose: bool, startChunking: nat, bufferSize: nat)

  datatype World = World(src: Path -> FileData, dest: Path -> Dest)

  // ---------------------------------------------------------------- cutting a file into chunks

  /** Bytes in the given chunk; chunk -1 is the whole file. */
  function TransferLength(size: nat, nproc: nat, chunk: int): (len: nat)
    requires nproc > 0
  {
    if chunk < 0 then size
    else size / nproc + (if chunk + 1 == nproc then size % nproc else 0)
  }

  function TransferOffset(size: nat, nproc: nat, chunk: int): (offset: nat)
    requires nproc > 0
  {
    if chunk < 0 then 0 else size / nproc * chunk
  }

  /** Chunk after chunk the file is covered without a gap or an overlap, from byte 0 to its end. */
  lemma ChunksTile(size: nat, nproc: nat, chunk: nat)
    requires chunk < nproc
    ensures TransferOffset(size, nproc, 0) == 0
    ensures TransferOffset(size, nproc, chunk) == size / nproc * chunk
    ensures TransferOffset(size, nproc, chunk) + TransferLength(size, nproc, chunk)
            == if chunk + 1 < nproc then TransferOffset(size, nproc, chunk + 1) else size
  {
    var c := size / nproc;
    assert c * (chunk + 1) == c * chunk + c;
    assert size == c * nproc + size % nproc;
  }

  /** All chunks have the same length, except that the last one also takes what the division leaves; chunk -1 is the file. */
  lemma ChunksAreEven(size: nat, nproc: nat, chunk: int)
    requires nproc > 0 && chunk < nproc
    ensures TransferLength(size, nproc, chunk) == if chunk < 0 then size else if chunk < nproc - 1 then size / nproc
                                                  else size - size / nproc * (nproc - 1)
    ensures TransferOffset(size, nproc, chunk) == if chunk < 0 then 0 else size / nproc * chunk
  {
    var c := size / nproc;
    assert size == c * nproc + size % nproc;
    assert c * nproc == c * (nproc - 1) + c;
  }

  lemma {:induction false} ChunkInFile(size: nat, nproc: nat, chunk: nat)
    requires chunk < nproc
    ensures TransferOffset(size, nproc, chunk) + TransferLength(size, nproc, chunk) <= size
    decreases nproc - chunk
  {
    ChunksTile(size, nproc, chunk);
    if chunk + 1 < nproc {
      ChunkInFile(size, nproc, chunk + 1);
    }
  }

  lemma RangeInFile(size: nat, nproc: nat, chunk: int)
    requires chunk < nproc && nproc > 0
    ensures TransferOffset(size, nproc, chunk) + TransferLength(size, nproc, chunk) <= size
  {
    if chunk >= 0 {
      ChunkInFile(size, nproc, chunk);
    }
  }

  predicate SameRange(a: seq<bv8>, b: seq<bv8>, offset: nat, len: nat)
    requires |a| == |b| && offset + len <= |a|
  {
    a[offset..offset + len] == b[offset..offset + len]
  }

  lemma {:induction false} ChunksAgreeUpTo(a: seq<bv8>, b: seq<bv8>, nproc: nat, chunk: nat)
    requires |a| == |b| && chunk < nproc
    requires forall k {:trigger TransferOffset(|a|, nproc, k)} :: 0 <= k <= chunk ==>
               TransferOffset(|a|, nproc, k) + TransferLength(|a|, nproc, k) <= |a|
               && SameRange(a, b, TransferOffset(|a|, nproc, k), TransferLength(|a|, nproc, k))
    ensures TransferOffset(|a|, nproc, chunk) + TransferLength(|a|, nproc, chunk) <= |a|
    ensures var n := TransferOffset(|a|, nproc, chunk) + TransferLength(|a|, nproc, chunk); a[..n] == b[..n]
  {
    var o, l := TransferOffset(|a|, nproc, chunk), TransferLength(|a|, nproc, chunk);
    ChunksTile(|a|, nproc, chunk);
    assert a[..o + l] == a[..o] + a[o..o + l];
    assert b[..o + l] == b[..o] + b[o..o + l];
    if chunk > 0 {
      ChunksTile(|a|, nproc, chunk - 1);
      ChunksAgreeUpTo(a, b, nproc, chunk - 1);
    }
  }

  // ---------------------------------------------------------------- comparing one chunk

  /** cmp_compare's result for one chunk of a file, or for the whole file when chunk is -1. */
  function ChunkMatched(world: World, o: Options, p: Path, chunk: int): bool
    requires o.nproc > 0 && chunk < o.nproc
  {
    match world.dest(p)
    case Missing => false
    case StatError => false
    case Present(d) =>
      var s := world.src(p);
      if |s.bytes| == |d.bytes| && !o.metaOnly then
        var (offset, len) := (TransferOffset(|s.bytes|, o.nproc, chunk), TransferLength(|s.bytes|, o.nproc, chunk));
        RangeInFile(|s.bytes|, o.nproc, chunk);
        SameRange(s.bytes, d.bytes, offset, len)
      else
        |s.bytes| == |d.bytes| && s.mtime == d.mtime
  }

  predicate FileMatches(world: World, o: Options, p: Path) {
    match world.dest(p)
    case Missing => false
    case StatError => false
    case Present(d) =>
      var s := world.src(p);
      if o.metaOnly then |s.bytes| == |d.bytes| && s.mtime == d.mtime else s.bytes == d.bytes
  }

  lemma InnerRange(x: seq<bv8>, offset: nat, length: nat, i: nat, n: nat)
    requires offset + length <= |x| && i + n <= length
    ensures x[offset..offset + length][i..i + n] == x[i + offset..i + offset + n]
  {
    var outer, inner := x[offset..offset + length], x[i + offset..i + offset + n];
    assert |outer[i..i + n]| == |inner|;
    assert forall k :: 0 <= k < n ==> outer[i..i + n][k] == outer[i + k] == x[offset + i + k] == inner[k];
  }

  lemma Splice(x: seq<bv8>, a: nat, b: nat, c: nat)
    requires a <= b <= c <= |x|
    ensures x[a..c] == x[a..b] + x[b..c]
  {
  }

  lemma SameBytes(a: seq<bv8>, b: seq<bv8>, offset: nat, len: nat)
    requires |a| == |b| && offset + len <= |a|
    ensures SameRange(a, b, offset, len) <==> forall i :: offset <= i < offset + len ==> a[i] == b[i]
  {
    var x, y := a[offset..offset + len], b[offset..offset + len];
    if x == y {
      forall i | offset <= i < offset + len
        ensures a[i] == b[i]
      {
        assert x[i - offset] == a[i] && y[i - offset] == b[i];
      }
    }
  }

  /** A chunk matches when the sizes agree and its bytes do, or with metadata only the times. */
  lemma ChunkMatches(world: World, o: Options, p: Path, chunk: int)
    requires o.nproc > 0 && chunk < o.nproc
    ensures ChunkMatched(world, o, p, chunk) <==>
            match world.dest(p)
            case Missing => false
            case StatError => false
            case Present(d) =>
              var s := world.src(p);
              var from, len := TransferOffset(|s.bytes|, o.nproc, chunk), TransferLength(|s.bytes|, o.nproc, chunk);
              && |s.bytes| == |d.bytes|
              && if o.metaOnly then s.mtime == d.mtime
                 else forall i :: from <= i < from + len && i < |d.bytes| ==> s.bytes[i] == d.bytes[i]
  {
    hide TransferOffset, TransferLength;
    if world.dest(p).Present? && |world.src(p).bytes| == |world.dest(p).file.bytes| && !o.metaOnly {
      var s, d := world.src(p).bytes, world.dest(p).file.bytes;
      RangeInFile(|s|, o.nproc, chunk);
      SameBytes(s, d, TransferOffset(|s|, o.nproc, chunk), TransferLength(|s|, o.nproc, chunk));
    }
  }

  /** The loop of cmp_compare: buffer by buffer, until the length is reached or a difference is found. */
  method CompareLoop(src: seq<bv8>, dest: seq<bv8>, offset: nat, length: nat, bufferSize: nat) returns (matched: bool)
    requires |src| == |dest| && offset + length <= |src| && bufferSize > 0
    ensures matched <==> forall i :: offset <= i < offset + length ==> src[i] == dest[i]
  {
    var completed, bufsize, noMatch := 0, bufferSize, false;
    while completed < length && !noMatch
      invariant 0 < bufsize && completed <= length
      invariant noMatch ==> src[offset..offset + length] != dest[offset..offset + length]
      invariant !noMatch ==> src[offset..offset + completed] == dest[offset..offset + completed]
      decreases length - completed
    {
      if length - completed < bufsize {
        bufsize := length - completed;
      }
      var at := completed + offset;
      var sbuf, dbuf := src[at..at + bufsize], dest[at..at + bufsize];
      noMatch := sbuf != dbuf;
      InnerRange(src, offset, length, completed, bufsize);
      InnerRange(dest, offset, length, completed, bufsize);
      Splice(src, offset, at, at + bufsize);
      Splice(dest, offset, at, at + bufsize);
      completed := completed + bufsize;
    }
    SameBytes(src, dest, offset, length);
    return !noMatch;
  }

  /** A file matches exactly when all of its chunks do. */
  lemma ChunksDecide(world: World, o: Options, p: Path)
    requires o.nproc > 0 && !o.metaOnly
    ensures (forall k :: 0 <= k < o.nproc ==> ChunkMatched(world, o, p, k)) <==> FileMatches(world, o, p)
    ensures FileMatches(world, o, p) <==> world.dest(p).Present? && world.src(p).bytes == world.dest(p).file.bytes
  {
    if world.dest(p).Present? {
      var s, d := world.src(p).bytes, world.dest(p).file.bytes;
      if forall k :: 0 <= k < o.nproc ==> ChunkMatched(world, o, p, k) {
        assert ChunkMatched(world, o, p, 0);
        if |s| == |d| {
          forall k | 0 <= k < o.nproc
            ensures TransferOffset(|s|, o.nproc, k) + TransferLength(|s|, o.nproc, k) <= |s|
            ensures SameRange(s, d, TransferOffset(|s|, o.nproc, k), TransferLength(|s|, o.nproc, k))
          {
            ChunkInFile(|s|, o.nproc, k);
            assert ChunkMatched(world, o, p, k);
          }
          ChunksAgreeUpTo(s, d, o.nproc, o.nproc - 1);
          ChunksTile(|s|, o.nproc, o.nproc - 1);
          assert s == s[..|s|] && d == d[..|d|];
        }
      }
    } else {
      assert !ChunkMatched(world, o, p, 0);
    }
  }

  lemma WholeDecides(world: World, o: Options, p: Path)
    requires o.nproc > 0
    ensures ChunkMatched(world, o, p, -1) <==> FileMatches(world, o, p)
    ensures FileMatches(world, o, p) <==>
            world.dest(p).Present? && var s, d := world.src(p), world.dest(p).file;
                                      if o.metaOnly then |s.bytes| == |d.bytes| && s.mtime == d.mtime else s.bytes == d.bytes
  {
    if world.dest(p).Present? {
      var s, d := world.src(p).bytes, world.dest(p).file.bytes;
      assert s[0..|s|] == s && d[0..|d|] == d;
    }
  }

  // ---------------------------------------------------------------- what processing a file submits

  function ChunkSubmissions(p: Path, from: nat, n: nat): (acts: seq<Act>)
    requires from <= n
    ensures |acts| == n - from
    ensures forall k :: 0 <= k < |acts| ==> acts[k] == Submit(1, CompareFiles(p, from + k))
    decreases n - from
  {
    if from == n then [] else [Submit(1, CompareFiles(p, from))] + ChunkSubmissions(p, from + 1, n)
  }

  predicate IsChunked(world: World, o: Options, p: Path) {
    |world.src(p).bytes| >= o.startChunking && !o.metaOnly
  }

  /** cmp_process_file: nothing when the destination cannot be stat-ed; for a chunked file the chunk
      count is announced before the chunks are submitted. */
  function CompareActions(world: World, o: Options, p: Path): seq<Act> {
    if world.dest(p).StatError? then []
    else if IsChunked(world, o, p) then [Tell(AddChunks(p, o.nproc))] + ChunkSubmissions(p, 0, o.nproc)
    else [Submit(1, CompareFiles(p, -1))]
  }

  method CmpProcessFile(world: World, o: Options, p: Path) returns (trace: seq<Act>)
    ensures trace == CompareActions(world, o, p)
    ensures if world.dest(p).StatError? then trace == []
            else if |world.src(p).bytes| < o.startChunking || o.metaOnly then trace == [Submit(1, CompareFiles(p, -1))]
            else |trace| == o.nproc + 1 && trace[0] == Tell(AddChunks(p, o.nproc))
                 && forall k :: 0 <= k < o.nproc ==> trace[k + 1] == Submit(1, CompareFiles(p, k))
  {
    if world.dest(p).StatError? {
      return [];
    }
    if |world.src(p).bytes| >= o.startChunking && !o.metaOnly {
      trace := [Tell(AddChunks(p, o.nproc))];
      for i := 0 to o.nproc
        invariant trace + ChunkSubmissions(p, i, o.nproc) == CompareActions(world, o, p)
        invariant |trace| == i + 1 && trace[0] == Tell(AddChunks(p, o.nproc))
        invariant forall k :: 0 <= k < i ==> trace[k + 1] == Submit(1, CompareFiles(p, k))
      {
        trace := trace + [Submit(1, CompareFiles(p, i))];
      }
    } else {
      trace := [Submit(1, CompareFiles(p, -1))];
    }
  }

  ghost function CompareApp(world: World, o: Options): App
    requires o.nproc > 0
  {
    App(p => CompareActions(world, o, p), (p, k) => if k < o.nproc then ChunkMatched(world, o, p, k) else false)
  }

  // ---------------------------------------------------------------- the manager's side

  datatype Verdict = Differs(path: Path) | Matches(path: Path)

  // The chunk table and what has been printed.
  datatype Board = Board(table: map<Path, int>, out: seq<Verdict>)

  function Lookup(table: map<Path, int>, p: Path): int {
    if p in table then table[p] else -1
  }

  function Cleaned(table: map<Path, int>, p: Path): map<Path, int> {
    if Lookup(table, p) == 0 then table - {p} else table
  }

  /** One manager-run message: cmp_addchunkfile, cmp_workdone, manager_workdone. */
  function Handle(verbose: bool, b: Board, m: Msg): Board {
    match m
    case WorkDone => b
    case AddChunks(p, n) => b.(table := b.table[p := n])
    case Compared(p, k, matched) =>
      if !matched then
        if k < 0 then b.(out := b.out + [Differs(p)])
        else if p in b.table then Board(b.table - {p}, b.out + [Differs(p)])
        else b
      else
        var left := if k < 0 then 0 else if Lookup(b.table, p) > 0 then b.table[p] - 1 else Lookup(b.table, p);
        var table := if k >= 0 && Lookup(b.table, p) > 0 then b.table[p := left] else b.table;
        Board(if k >= 0 then Cleaned(table, p) else table,
              if verbose && left == 0 then b.out + [Matches(p)] else b.out)
  }

  function Replay(verbose: bool, handled: seq<Msg>): Board {
    if handled == [] then Board(map[], [])
    else Handle(verbose, Replay(verbose, handled[..|handled| - 1]), handled[|handled| - 1])
  }

  /** The manager's compare state over the real chunk table. */
  class CmpManager {
    const verbose: bool
    const table: FchunkTbl<Path>
    var out: seq<Verdict>

    ghost predicate Valid()
      reads this, table, table.Repr
    {
      table.Valid() && this !in table.Repr
    }

    ghost function View(): Board
      reads this, table
    {
      Board(table.Model, out)
    }

    constructor (verbose: bool, hashfunc: Path -> nat)
      ensures Valid() && fresh(this) && fresh(table.Repr)
      ensures this.verbose == verbose && View() == Board(map[], [])
    {
      this.verbose := verbose;
      var t := new FchunkTbl<Path>(17, hashfunc);
      this.table := t;
      this.out := [];
    }

    method AddChunkFile(p: Path, n: nat)
      requires Valid()
      modifies this, table.Repr
      ensures Valid() && fresh(table.Repr - old(table.Repr))
      ensures View() == Handle(verbose, old(View()), AddChunks(p, n))
      ensures table.Model == old(table.Model)[p := n] && out == old(out)
    {
      table.Insert(p, n);
    }

    method WorkDone(p: Path, chunk: int, matched: bool)
      requires Valid()
      modifies this, table.Repr
      ensures Valid() && fresh(table.Repr - old(table.Repr))
      ensures View() == Handle(verbose, old(View()), Compared(p, chunk, matched))
      ensures var was := old(table.Model);
              if chunk < 0 then
                && table.Model == was
                && out == if !matched then old(out) + [Differs(p)] else if verbose then old(out) + [Matches(p)] else old(out)
              else if p !in was then table.Model == was && out == old(out)
              else if !matched then table.Model == was - {p} && out == old(out) + [Differs(p)]
              else if was[p] < 0 || was[p] > 1 then
                && table.Model == (if was[p] > 1 then was[p := was[p] - 1] else was)
                && out == old(out)
              else table.Model == was - {p} && out == if verbose then old(out) + [Matches(p)] else old(out)
    {
      hide FchunkTbl.Valid;
      var isChunked := chunk >= 0;
      if !matched {
        var notify := true;
        if isChunked {
          var rc := table.Update(p, 0);
          if rc < 0 {
            notify := false;
          }
        }
        if notify {
          out := out + [Differs(p)];
        }
      } else {
        var chunksLeft := 0;
        if isChunked {
          chunksLeft := table.Get(p);
          if chunksLeft > 0 {
            chunksLeft := chunksLeft - 1;
            var rc := table.Update(p, chunksLeft);
          }
        }
        if verbose && chunksLeft == 0 {
          out := out + [Matches(p)];
        }
      }
      if isChunked {
        var left := table.Get(p);
        if left == 0 {
          var rc := table.Remove(p);
        }
      }
    }
  }
}
