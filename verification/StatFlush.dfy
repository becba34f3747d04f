/**
  The stat flush: every range server packs its statistics, the counts are turned into displacements,
  the packed records are gathered behind one another, and every rank unpacks them into its own table.
 */
module StatFlush {
  import opened RangeServer

  /** A packed record is one cell for each of its fields. */
  const STAT_SIZE := 4

  datatype Entry = Entry(slice: int, stat: Stat)

  function Pack(e: Entry): (cells: seq<real>)
    ensures |cells| == STAT_SIZE
  {
    [e.slice as real, e.stat.num as real, e.stat.min, e.stat.max]
  }

  function Unpack(cells: seq<real>): Entry
    requires |cells| == STAT_SIZE
  {
    Entry(cells[0].Floor, Stat(cells[2], cells[3], if cells[1].Floor >= 0 then cells[1].Floor else 0))
  }

  /** What a server sends. */
  function Packed(es: seq<Entry>): (cells: seq<real>)
    ensures |cells| == STAT_SIZE * |es|
  {
    if es == [] then [] else Packed(es[..|es| - 1]) + Pack(es[|es| - 1])
  }

  function Concat<T>(xs: seq<seq<T>>): seq<T> {
    if xs == [] then [] else Concat(xs[..|xs| - 1]) + xs[|xs| - 1]
  }

  lemma {:induction false} PackedConcat(a: seq<Entry>, b: seq<Entry>)
    ensures Packed(a + b) == Packed(a) + Packed(b)
  {
    if b == [] {
      assert a + b == a;
    } else {
      PackedConcat(a, b[..|b| - 1]);
      assert (a + b)[..|a + b| - 1] == a + b[..|b| - 1];
    }
  }

  ghost function PackedAll(tables: seq<seq<Entry>>): (bufs: seq<seq<real>>)
    ensures |bufs| == |tables|
  {
    seq(|tables|, i requires 0 <= i < |tables| => Packed(tables[i]))
  }

  /** Packing table by table and laying the results end to end is packing everything. */
  lemma {:induction false} PackedTables(tables: seq<seq<Entry>>)
    ensures Concat(PackedAll(tables)) == Packed(Concat(tables))
  {
    if tables != [] {
      var last := |tables| - 1;
      PackedTables(tables[..last]);
      assert PackedAll(tables)[..last] == PackedAll(tables[..last]);
      PackedConcat(Concat(tables[..last]), tables[last]);
    }
  }

  lemma {:induction false} RecordAt(es: seq<Entry>, k: nat)
    requires k < |es|
    ensures Packed(es)[STAT_SIZE * k..STAT_SIZE * k + STAT_SIZE] == Pack(es[k])
  {
    if k < |es| - 1 {
      RecordAt(es[..|es| - 1], k);
      var init, last := Packed(es[..|es| - 1]), Pack(es[|es| - 1]);
      assert (init + last)[STAT_SIZE * k..STAT_SIZE * k + STAT_SIZE] == init[STAT_SIZE * k..STAT_SIZE * k + STAT_SIZE];
    }
  }

  // ---------------------------------------------------------------- the gathering

  method PackStats(es: seq<Entry>) returns (sendbuf: seq<real>)
    ensures sendbuf == Packed(es)
  {
    sendbuf := [];
    for i := 0 to |es|
      invariant sendbuf == Packed(es[..i])
    {
      assert es[..i + 1][..i] == es[..i];
      sendbuf := sendbuf + Pack(es[i]);
    }
    assert es[..|es|] == es;
  }

  function Sum(counts: seq<nat>): nat {
    if counts == [] then 0 else Sum(counts[..|counts| - 1]) + counts[|counts| - 1]
  }

  /** The blocks of the receive buffer follow one another without gap or overlap and fill it. */
  ghost predicate Tiles(displs: seq<nat>, recvcounts: seq<nat>, size: nat) {
    && |displs| == |recvcounts|
    && (|displs| > 0 ==> displs[0] == 0 && displs[|displs| - 1] + recvcounts[|displs| - 1] == size)
    && (|displs| == 0 ==> size == 0)
    && (forall i {:trigger displs[i]} :: 0 < i < |displs| ==> displs[i] == displs[i - 1] + recvcounts[i - 1])
  }

  method Displacements(counts: seq<nat>) returns (displs: seq<nat>, recvcounts: seq<nat>, numItems: nat)
    ensures |displs| == |recvcounts| == |counts| && numItems == Sum(counts)
    ensures forall i :: 0 <= i < |counts| ==> recvcounts[i] == STAT_SIZE * counts[i]
    ensures Tiles(displs, recvcounts, STAT_SIZE * numItems)
  {
    displs, recvcounts, numItems := [], [], 0;
    for i := 0 to |counts|
      invariant |displs| == |recvcounts| == i && numItems == Sum(counts[..i])
      invariant forall j :: 0 <= j < i ==> recvcounts[j] == STAT_SIZE * counts[j]
      invariant Tiles(displs, recvcounts, STAT_SIZE * numItems)
    {
      assert counts[..i + 1][..i] == counts[..i];
      displs := displs + [numItems * STAT_SIZE];
      numItems := numItems + counts[i];
      recvcounts := recvcounts + [counts[i] * STAT_SIZE];
    }
    assert counts[..|counts|] == counts;
  }

  /** The gather with displacements: the block of every server is copied to its place. */
  method Gatherv(sendbufs: seq<seq<real>>, displs: seq<nat>, recvcounts: seq<nat>, recvbuf: array<real>)
    requires Tiles(displs, recvcounts, recvbuf.Length) && |sendbufs| == |displs|
    requires forall i :: 0 <= i < |sendbufs| ==> |sendbufs[i]| == recvcounts[i]
    modifies recvbuf
    ensures recvbuf[..] == Concat(sendbufs)
  {
    var n := |sendbufs|;
    for i := 0 to n
      invariant i < n ==> |Concat(sendbufs[..i])| == displs[i]
      invariant i == n ==> |Concat(sendbufs)| == recvbuf.Length
      invariant |Concat(sendbufs[..i])| <= recvbuf.Length && recvbuf[..|Concat(sendbufs[..i])|] == Concat(sendbufs[..i])
    {
      ghost var done := Concat(sendbufs[..i]);
      assert sendbufs[..i + 1][..i] == sendbufs[..i];
      assert Concat(sendbufs[..i + 1]) == done + sendbufs[i];
      WithinBuffer(displs, recvcounts, recvbuf.Length, i);
      assert i + 1 < n ==> displs[i + 1] == displs[i] + recvcounts[i];
      assert i + 1 == n ==> sendbufs[..i + 1] == sendbufs;
      for j := 0 to recvcounts[i]
        invariant recvbuf[..displs[i] + j] == done + sendbufs[i][..j]
      {
        recvbuf[displs[i] + j] := sendbufs[i][j];
      }
      assert sendbufs[i][..recvcounts[i]] == sendbufs[i];
    }
    assert sendbufs[..n] == sendbufs;
  }

  lemma {:induction false} WithinBuffer(displs: seq<nat>, recvcounts: seq<nat>, size: nat, i: nat)
    requires Tiles(displs, recvcounts, size) && i < |displs|
    ensures displs[i] + recvcounts[i] <= size
    decreases |displs| - i
  {
    if i + 1 < |displs| {
      WithinBuffer(displs, recvcounts, size, i + 1);
      assert displs[i + 1] == displs[i] + recvcounts[i];
    }
  }

  // ---------------------------------------------------------------- the tables afterwards

  function AddAll(stats: Stats, es: seq<Entry>): Stats {
    if es == [] then stats else AddAll(stats, es[..|es| - 1])[es[|es| - 1].slice := es[|es| - 1].stat]
  }

  /** Unpacking the received records one by one into a table that may have old entries. */
  method UnpackStats(recvbuf: seq<real>, stats: Stats, ghost es: seq<Entry>) returns (stats': Stats)
    requires recvbuf == Packed(es)
    ensures stats' == AddAll(stats, es)
  {
    stats' := stats;
    var i := 0;
    ghost var k: nat := 0;
    assert es[..0] == [];
    while i < |recvbuf|
      invariant i == STAT_SIZE * k && k <= |es|
      invariant stats' == AddAll(stats, es[..k])
      decreases |es| - k
    {
      RecordAt(es, k);
      var stat := Unpack(recvbuf[i..i + STAT_SIZE]);
      assert es[..k + 1][..k] == es[..k];
      stats' := stats'[stat.slice := stat.stat];
      i := i + STAT_SIZE;
      k := k + 1;
    }
    assert es[..k] == es;
  }

  lemma {:induction false} AddedEntry(stats: Stats, es: seq<Entry>, s: int)
    ensures s in AddAll(stats, es) <==> s in stats || exists k :: 0 <= k < |es| && es[k].slice == s
    ensures (forall k :: 0 <= k < |es| ==> es[k].slice != s) && s in stats ==> AddAll(stats, es)[s] == stats[s]
    ensures forall e :: e in es && e.slice == s && (forall f :: f in es && f.slice == s ==> f == e) ==>
              s in AddAll(stats, es) && AddAll(stats, es)[s] == e.stat
  {
    if es != [] {
      var init, last := es[..|es| - 1], es[|es| - 1];
      AddedEntry(stats, init, s);
      assert last in es && forall e :: e in init ==> e in es;
      assert forall e :: e in es ==> e in init || e == last;
      if last.slice == s {
        assert es[|es| - 1].slice == s;
      }
      if k :| 0 <= k < |init| && init[k].slice == s {
        assert es[k].slice == s;
      }
    }
  }

  /** No slice has an entry at two servers or two entries at one. */
  ghost predicate OneOwner(tables: seq<seq<Entry>>) {
    forall i, j, e, f :: 0 <= i < |tables| && 0 <= j < |tables| && e in tables[i] && f in tables[j] && e.slice == f.slice ==> e == f
  }

  lemma {:induction false} InConcat<T>(xs: seq<seq<T>>, x: T)
    ensures x in Concat(xs) <==> exists i :: 0 <= i < |xs| && x in xs[i]
  {
    if xs != [] {
      var last := |xs| - 1;
      InConcat(xs[..last], x);
      if i :| 0 <= i < |xs| && x in xs[i] {
        assert i < last ==> x in xs[..last][i];
      }
      if i :| 0 <= i < last && x in xs[..last][i] {
        assert x in xs[i];
      }
    }
  }

  /** After a flush, a rank's table has, for every slice that any server keeps statistics of, that server's
      entry, and for any other slice what it had before. */
  ghost predicate Flushed(tables: seq<seq<Entry>>, stats: Stats, stats': Stats) {
    && (forall i, e :: 0 <= i < |tables| && e in tables[i] ==> e.slice in stats' && stats'[e.slice] == e.stat)
    && (forall s :: (forall i, e :: 0 <= i < |tables| && e in tables[i] ==> e.slice != s) ==>
          ((s in stats' <==> s in stats) && (s in stats ==> stats'[s] == stats[s])))
  }

  lemma AddedTables(tables: seq<seq<Entry>>, stats: Stats)
    requires OneOwner(tables)
    ensures Flushed(tables, stats, AddAll(stats, Concat(tables)))
  {
    var es, stats' := Concat(tables), AddAll(stats, Concat(tables));
    forall i, e | 0 <= i < |tables| && e in tables[i]
      ensures e.slice in stats' && stats'[e.slice] == e.stat
    {
      AddedEntry(stats, es, e.slice);
      InConcat(tables, e);
      forall f | f in es && f.slice == e.slice
        ensures f == e
      {
        InConcat(tables, f);
      }
    }
    forall s | forall i, e :: 0 <= i < |tables| && e in tables[i] ==> e.slice != s
      ensures (s in stats' <==> s in stats) && (s in stats ==> stats'[s] == stats[s])
    {
      AddedEntry(stats, es, s);
      forall k | 0 <= k < |es|
        ensures es[k].slice != s
      {
        InConcat(tables, es[k]);
      }
    }
  }

  /** The whole flush, seen from one rank: the servers' tables in the order they are iterated, the rank's table before and after. */
  method GetStatFlush(tables: seq<seq<Entry>>, stats: Stats) returns (stats': Stats)
    requires OneOwner(tables)
    ensures Flushed(tables, stats, stats')
  {
    hide Packed, Concat, Flushed, OneOwner, Tiles, AddAll, Sum;
    var counts: seq<nat>, sendbufs: seq<seq<real>> := [], [];
    for i := 0 to |tables|
      invariant |counts| == |sendbufs| == i
      invariant forall j :: 0 <= j < i ==> counts[j] == |tables[j]| && sendbufs[j] == Packed(tables[j])
    {
      var sendbuf := PackStats(tables[i]);
      counts, sendbufs := counts + [|tables[i]|], sendbufs + [sendbuf];
    }
    assert sendbufs == PackedAll(tables);
    var displs, recvcounts, numItems := Displacements(counts);
    var recvbuf := new real[numItems * STAT_SIZE](_ => 0.0);
    Gatherv(sendbufs, displs, recvcounts, recvbuf);
    PackedTables(tables);
    stats' := UnpackStats(recvbuf[..], stats, Concat(tables));
    AddedTables(tables, stats);
  }
}
