/**
  The in-place mergesort of the application list: passes that relink the elements, doubling
  the length of the sorted runs.
 */
module UtHashSort {
  import opened UtHashChains
  import opened StableSort

  /** The output so far and the merge of what is left make the output before and the merge of the two runs. */
  ghost predicate Merging<T>(cmp: Comparison<T>, s: seq<T>, out0: seq<T>, out: seq<T>,
                             i: nat, a: nat, mid: nat, b: nat, end: nat)
  {
    && i <= a <= mid <= b <= end <= |s|
    && out + Merge(cmp, s[a..mid], s[b..end]) == out0 + Merge(cmp, s[i..mid], s[mid..end])
    && (forall n :: n in out ==> n in out0 || n in s)
  }

  lemma MergingStarts<T>(cmp: Comparison<T>, s: seq<T>, out0: seq<T>, i: nat, mid: nat, end: nat)
    requires i <= mid <= end <= |s|
    ensures Merging(cmp, s, out0, out0, i, i, mid, mid, end)
  {
  }

  lemma MergeStep<T>(cmp: Comparison<T>, p: seq<T>, q: seq<T>)
    ensures p != [] && (q == [] || cmp(p[0], q[0]) <= 0) ==> Merge(cmp, p, q) == [p[0]] + Merge(cmp, p[1..], q)
    ensures q != [] && (p == [] || cmp(p[0], q[0]) > 0) ==> Merge(cmp, p, q) == [q[0]] + Merge(cmp, p, q[1..])
  {
  }

  lemma MergingLeft<T>(cmp: Comparison<T>, s: seq<T>, out0: seq<T>, out: seq<T>, i: nat, a: nat, mid: nat, b: nat, end: nat)
    requires Merging(cmp, s, out0, out, i, a, mid, b, end)
    requires a < mid && (b == end || cmp(s[a], s[b]) <= 0)
    ensures Merging(cmp, s, out0, out + [s[a]], i, a + 1, mid, b, end)
  {
    hide Merge;
    assert s[a..mid][1..] == s[a + 1..mid] && s[a..mid][0] == s[a];
    var rest := Merge(cmp, s[a + 1..mid], s[b..end]);
    MergeStep(cmp, s[a..mid], s[b..end]);
    assert out + ([s[a]] + rest) == out + [s[a]] + rest;
  }

  lemma MergingRight<T>(cmp: Comparison<T>, s: seq<T>, out0: seq<T>, out: seq<T>, i: nat, a: nat, mid: nat, b: nat, end: nat)
    requires Merging(cmp, s, out0, out, i, a, mid, b, end)
    requires b < end && (a == mid || cmp(s[a], s[b]) > 0)
    ensures Merging(cmp, s, out0, out + [s[b]], i, a, mid, b + 1, end)
  {
    hide Merge;
    assert s[b..end][1..] == s[b + 1..end] && s[b..end][0] == s[b];
    var rest := Merge(cmp, s[a..mid], s[b + 1..end]);
    MergeStep(cmp, s[a..mid], s[b..end]);
    assert out + ([s[b]] + rest) == out + [s[b]] + rest;
  }

  lemma MergingEnds<T>(cmp: Comparison<T>, s: seq<T>, out0: seq<T>, out: seq<T>, i: nat, mid: nat, end: nat)
    requires Merging(cmp, s, out0, out, i, mid, mid, end, end)
    ensures out == out0 + Merge(cmp, s[i..mid], s[mid..end])
    ensures forall n :: n in out ==> n in out0 || n in s
  {
  }

  lemma PassAt<T>(cmp: Comparison<T>, s: seq<T>, k: nat, i: nat, mid: nat, end: nat)
    requires k > 0 && i < |s| && mid == (if i + k <= |s| then i + k else |s|) && end == (if mid + k <= |s| then mid + k else |s|)
    ensures Pass(cmp, s[i..], k) == Merge(cmp, s[i..mid], s[mid..end]) + Pass(cmp, s[end..], k)
  {
    hide Pass, Merge;
    assert Head(s[i..], k) == s[i..mid] && Tail(s[i..], k) == s[mid..];
    assert Head(s[mid..], k) == s[mid..end] && Tail(s[mid..], k) == s[end..];
    PassStep(cmp, s[i..], k);
  }

  lemma PassStep<T>(cmp: Comparison<T>, s: seq<T>, k: nat)
    requires k > 0 && s != []
    ensures var rest := Tail(s, k); Pass(cmp, s, k) == Merge(cmp, Head(s, k), Head(rest, k)) + Pass(cmp, Tail(rest, k), k)
  {
  }

  /** The elements still to be merged: the rest of the left run, and everything from the rest of the right run on. */
  ghost predicate Left(j: int, a: int, mid: int, b: int) {
    a <= j < mid || b <= j
  }

  ghost predicate Waiting<K>(s: seq<Handle<K>>, out: seq<Handle<K>>, a: int, mid: int, b: int)
    reads s`next
  {
    StillLinked(s, a, mid, b) && NotTaken(s, out, a, mid, b)
  }

  ghost predicate StillLinked<K>(s: seq<Handle<K>>, a: int, mid: int, b: int)
    reads s`next
  {
    forall j {:trigger s[j].next} :: 0 <= j < |s| && Left(j, a, mid, b) ==> s[j].next == At(s, j + 1)
  }

  ghost predicate NotTaken<K>(s: seq<Handle<K>>, out: seq<Handle<K>>, a: int, mid: int, b: int) {
    forall j :: 0 <= j < |s| && Left(j, a, mid, b) ==> s[j] !in out
  }

  ghost predicate BuiltNexts<K>(out: seq<Handle<K>>)
    reads out`next
  {
    forall j {:trigger out[j].next} :: 0 <= j < |out| - 1 ==> out[j].next == At(out, j + 1)
  }

  ghost predicate BuiltPrevs<K>(out: seq<Handle<K>>)
    reads out`prev
  {
    forall j {:trigger out[j].prev} :: 0 <= j < |out| ==> out[j].prev == At(out, j - 1)
  }

  /** The list built so far; the last element's next link is stale. */
  ghost predicate Built<K>(out: seq<Handle<K>>, list: Handle?<K>, tail: Handle?<K>)
    reads out`next, out`prev
  {
    list == At(out, 0) && tail == At(out, |out| - 1) && BuiltNexts(out) && BuiltPrevs(out) && Distinct(out)
  }

  method AppendNext<K>(e: Handle<K>, tail: Handle?<K>, ghost out: seq<Handle<K>>, ghost s: seq<Handle<K>>)
    requires BuiltNexts(out) && Distinct(out) && e !in out && tail == At(out, |out| - 1) && forall n :: n in out ==> n in s
    modifies s`next
    ensures BuiltNexts(out + [e])
    ensures forall n :: n in s && n !in out ==> n.next == old(n.next)
  {
    if tail != null {
      assert tail in out && tail in s;
      tail.next := e;
    }
    ghost var after := out + [e];
    forall j {:trigger after[j].next} | 0 <= j < |after| - 1
      ensures after[j].next == At(after, j + 1)
    {
      assert after[j] == out[j];
      ghost var x := old(out[j].next);
    }
  }

  method AppendPrev<K>(e: Handle<K>, tail: Handle?<K>, ghost out: seq<Handle<K>>)
    requires BuiltPrevs(out) && e !in out && tail == At(out, |out| - 1)
    modifies e`prev
    ensures BuiltPrevs(out + [e])
  {
    e.prev := tail;
    ghost var after := out + [e];
    forall j {:trigger after[j].prev} | 0 <= j < |after|
      ensures after[j].prev == At(after, j - 1)
    {
      if j < |out| {
        assert after[j] == out[j];
        ghost var x := old(out[j].prev);
      }
    }
  }

  /** Linking an element in behind the list built so far. */
  method Append<K>(e: Handle<K>, list0: Handle?<K>, tail0: Handle?<K>, ghost out: seq<Handle<K>>, ghost s: seq<Handle<K>>)
    returns (list: Handle?<K>, tail: Handle?<K>)
    requires Built(out, list0, tail0) && e !in out && forall n :: n in out ==> n in s
    modifies s`next, e`prev
    ensures Built(out + [e], list, tail)
    ensures forall n :: n in s && n !in out ==> n.next == old(n.next)
  {
    hide BuiltNexts, BuiltPrevs;
    list := list0;
    AppendNext(e, tail0, out, s);
    if tail0 == null {
      list := e;
    }
    AppendPrev(e, tail0, out);
    tail := e;
  }

  /** Taking the element at position j of the input; what still waits is untouched. */
  method Take<K>(e: Handle<K>, list0: Handle?<K>, tail0: Handle?<K>, ghost out: seq<Handle<K>>, ghost s: seq<Handle<K>>,
                 ghost j: nat, ghost a: nat, ghost mid: nat, ghost b: nat)
    returns (list: Handle?<K>, tail: Handle?<K>, next: Handle?<K>)
    requires Built(out, list0, tail0) && Waiting(s, out, a, mid, b) && Distinct(s)
    requires j < |s| && e == s[j] && mid <= b && ((j == a && a < mid) || j == b)
    requires forall n :: n in out ==> n in s
    modifies s`next, s`prev
    ensures Built(out + [e], list, tail) && (forall n :: n in out + [e] ==> n in s)
    ensures Waiting(s, out + [e], if j == b then a else a + 1, mid, if j == b then b + 1 else b)
    ensures next == At(s, j + 1)
  {
    hide Built;
    next := e.next;
    assert e.next == s[j].next && Left(j, a, mid, b);
    list, tail := Append(e, list0, tail0, out, s);
    ghost var a', b' := if j == b then a else a + 1, if j == b then b + 1 else b;
    NoneTaken(s, out, j, a, mid, b);
    forall i {:trigger s[i].next} | 0 <= i < |s| && Left(i, a', mid, b')
      ensures s[i].next == At(s, i + 1)
    {
      assert Left(i, a, mid, b) && s[i] !in out;
      ghost var x := old(s[i].next);
    }
  }

  lemma NoneTaken<K>(s: seq<Handle<K>>, out: seq<Handle<K>>, j: nat, a: nat, mid: nat, b: nat)
    requires NotTaken(s, out, a, mid, b) && Distinct(s)
    requires j < |s| && mid <= b && ((j == a && a < mid) || j == b)
    ensures NotTaken(s, out + [s[j]], if j == b then a else a + 1, mid, if j == b then b + 1 else b)
  {
    forall i | 0 <= i < |s| && Left(i, if j == b then a else a + 1, mid, if j == b then b + 1 else b)
      ensures s[i] !in out + [s[j]]
    {
      assert Left(i, a, mid, b) && s[i] != s[j];
    }
  }

  /** One merge: the run of psize elements at p with the run of at most insize elements at q behind it. */
  method MergeRuns<K>(cmp: Comparison<Handle<K>>, p0: Handle<K>, psize0: nat, q0: Handle?<K>, insize: nat,
                      list0: Handle?<K>, tail0: Handle?<K>, ghost out0: seq<Handle<K>>,
                      ghost s: seq<Handle<K>>, ghost i: nat, ghost mid: nat, ghost end: nat)
    returns (list: Handle?<K>, tail: Handle?<K>, q: Handle?<K>, ghost out: seq<Handle<K>>)
    requires Distinct(s) && insize > 0 && psize0 > 0 && i + psize0 == mid <= end <= |s|
    requires end == if mid + insize <= |s| then mid + insize else |s|
    requires p0 == s[i] && q0 == At(s, mid)
    requires Built(out0, list0, tail0) && Waiting(s, out0, i, mid, mid) && forall n :: n in out0 ==> n in s
    modifies s`next, s`prev
    ensures q == At(s, end) && Built(out, list, tail) && Waiting(s, out, mid, mid, end)
    ensures out == out0 + Merge(cmp, s[i..mid], s[mid..end])
    ensures forall n :: n in out ==> n in s
  {
    hide Built, Waiting, Merging, Merge, Distinct;
    ghost var a: nat, b: nat := i, mid;
    var p: Handle?<K> := p0;
    var psize: nat, qsize: nat := psize0, insize;
    list, tail, q, out := list0, tail0, q0, out0;
    MergingStarts(cmp, s, out0, i, mid, end);
    while psize > 0 || (qsize > 0 && q != null)
      invariant a <= mid <= b <= end && psize == mid - a && qsize == insize - (b - mid)
      invariant p == At(s, a) && q == At(s, b)
      invariant Built(out, list, tail) && Waiting(s, out, a, mid, b)
      invariant Merging(cmp, s, out0, out, i, a, mid, b, end)
      invariant forall n :: n in out ==> n in s
      decreases psize + qsize
    {
      var left: bool;
      if psize == 0 {
        left := false;
      } else if qsize == 0 || q == null {
        left := true;
      } else {
        left := cmp(p, q) <= 0;
      }
      if left {
        MergingLeft(cmp, s, out0, out, i, a, mid, b, end);
        var e := p;
        list, tail, p := Take(e, list, tail, out, s, a, a, mid, b);
        psize := psize - 1;
        out := out + [e];
        a := a + 1;
      } else {
        MergingRight(cmp, s, out0, out, i, a, mid, b, end);
        var e := q;
        list, tail, q := Take(e, list, tail, out, s, b, a, mid, b);
        qsize := qsize - 1;
        out := out + [e];
        b := b + 1;
      }
    }
    MergingEnds(cmp, s, out0, out, i, mid, end);
  }

  lemma NarrowWaiting<K>(s: seq<Handle<K>>, out: seq<Handle<K>>, i: nat, mid: nat)
    requires Waiting(s, out, i, i, i) && i <= mid
    ensures Waiting(s, out, i, mid, mid)
  {
    assert forall j :: Left(j, i, mid, mid) ==> Left(j, i, i, i);
  }

  lemma WidenWaiting<K>(s: seq<Handle<K>>, out: seq<Handle<K>>, mid: nat, end: nat)
    requires Waiting(s, out, mid, mid, end)
    ensures Waiting(s, out, end, end, end)
  {
    assert forall j :: Left(j, end, end, end) ==> Left(j, mid, mid, end);
  }

  ghost predicate DoublyLinked<K>(s: seq<Handle<K>>)
    reads s`next, s`prev
  {
    && (forall j {:trigger s[j].next} :: 0 <= j < |s| ==> s[j].next == At(s, j + 1))
    && (forall j {:trigger s[j].prev} :: 0 <= j < |s| ==> s[j].prev == At(s, j - 1))
  }

  /** Stepping over a run of at most insize elements. */
  method Advance<K>(p: Handle<K>, insize: nat, ghost s: seq<Handle<K>>, ghost out: seq<Handle<K>>, ghost i: nat)
    returns (q: Handle?<K>, psize: nat)
    requires insize > 0 && i < |s| && p == s[i] && Waiting(s, out, i, i, i)
    ensures psize > 0 && i + psize == (if i + insize <= |s| then i + insize else |s|) && q == At(s, i + psize)
  {
    q, psize := p, 0;
    var n := 0;
    while n < insize && q != null
      invariant n == psize <= insize && i + psize <= |s| && q == At(s, i + psize)
      invariant psize == 0 ==> q != null
      decreases insize - n
    {
      assert q.next == s[i + psize].next && Left(i + psize, i, i, i);
      psize := psize + 1;
      q := q.next;
      n := n + 1;
    }
  }

  // The output so far, followed by a pass over what is left, is a pass over everything; so many merges were needed.
  ghost predicate Passing<T>(cmp: Comparison<T>, s: seq<T>, k: nat, i: nat, out: seq<T>, nmerges: nat)
    requires k > 0
  {
    && i <= |s| && out + Pass(cmp, s[i..], k) == Pass(cmp, s, k)
    && (nmerges == 0 <==> i == 0) && (i <= 2 * k <==> nmerges <= 1) && |out| == i
    && (nmerges == 1 ==> i == if 2 * k <= |s| then 2 * k else |s|)
  }

  lemma PassingStarts<T>(cmp: Comparison<T>, s: seq<T>, k: nat)
    requires k > 0
    ensures Passing(cmp, s, k, 0, [], 0)
  {
    assert s[0..] == s;
  }

  lemma NothingBuilt<K>()
    ensures Built<K>([], null, null)
  {
  }

  lemma PassingStep<T>(cmp: Comparison<T>, s: seq<T>, k: nat, i: nat, mid: nat, end: nat, out: seq<T>, out': seq<T>, nmerges: nat)
    requires k > 0 && Passing(cmp, s, k, i, out, nmerges) && i < |s|
    requires mid == (if i + k <= |s| then i + k else |s|) && end == (if mid + k <= |s| then mid + k else |s|)
    requires out' == out + Merge(cmp, s[i..mid], s[mid..end])
    ensures Passing(cmp, s, k, end, out', nmerges + 1)
  {
    hide Pass, Merge;
    PassAt(cmp, s, k, i, mid, end);
    var m, rest := Merge(cmp, s[i..mid], s[mid..end]), Pass(cmp, s[end..], k);
    assert out + (m + rest) == out + m + rest;
  }

  /** One pass over the list. */
  method SortPass<K>(cmp: Comparison<Handle<K>>, list0: Handle<K>, insize: nat, ghost s: seq<Handle<K>>)
    returns (list: Handle<K>, tail: Handle<K>, nmerges: nat, ghost out: seq<Handle<K>>)
    requires insize > 0 && Distinct(s) && list0 == At(s, 0) && Waiting(s, [], 0, 0, 0)
    modifies s`next, s`prev
    ensures out == Pass(cmp, s, insize) && (nmerges <= 1 <==> |s| <= 2 * insize)
    ensures list == At(out, 0) && tail == At(out, |out| - 1) && Distinct(out)
    ensures DoublyLinked(out)
  {
    hide Passing, Built, Waiting, Pass, Merge, Distinct, DoublyLinked;
    PassingStarts(cmp, s, insize);
    NothingBuilt<K>();
    var p: Handle?<K>, last: Handle?<K>, first: Handle?<K> := list0, null, null;
    nmerges, out := 0, [];
    ghost var i: nat := 0;
    while p != null
      invariant i <= |s| && p == At(s, i) && (forall n :: n in out ==> n in s)
      invariant Built(out, first, last) && Waiting(s, out, i, i, i)
      invariant Passing(cmp, s, insize, i, out, nmerges)
      decreases |s| - i
    {
      var q, psize := Advance(p, insize, s, out, i);
      ghost var mid := i + psize;
      ghost var end := if mid + insize <= |s| then mid + insize else |s|;
      ghost var before := out;
      NarrowWaiting(s, out, i, mid);
      first, last, p, out := MergeRuns(cmp, p, psize, q, insize, first, last, out, s, i, mid, end);
      WidenWaiting(s, out, mid, end);
      PassingStep(cmp, s, insize, i, mid, end, before, out, nmerges);
      nmerges := nmerges + 1;
      i := end;
    }
    PassingEnds(cmp, s, insize, out, nmerges);
    list, tail := Close(first, last, out, s);
  }

  lemma PassingEnds<T>(cmp: Comparison<T>, s: seq<T>, k: nat, out: seq<T>, nmerges: nat)
    requires k > 0 && s != [] && Passing(cmp, s, k, |s|, out, nmerges)
    ensures out == Pass(cmp, s, k) && (nmerges <= 1 <==> |s| <= 2 * k) && out != []
  {
  }

  /** Ending the list that a pass has built. */
  method Close<K>(first: Handle?<K>, last: Handle?<K>, ghost out: seq<Handle<K>>, ghost s: seq<Handle<K>>)
    returns (list: Handle<K>, tail: Handle<K>)
    requires Built(out, first, last) && out != [] && forall n :: n in out ==> n in s
    modifies s`next
    ensures list == At(out, 0) && tail == At(out, |out| - 1) && Distinct(out)
    ensures DoublyLinked(out)
  {
    list, tail := first, last;
    assert tail in out && tail in s;
    tail.next := null;
    forall j {:trigger out[j].next} | 0 <= j < |out| - 1
      ensures out[j].next == At(out, j + 1)
    {
      ghost var x := old(out[j].next);
    }
  }

  lemma SortFromStep<T>(cmp: Comparison<T>, s: seq<T>, k: nat)
    requires k > 0
    ensures SortFrom(cmp, s, k) == if |s| <= 2 * k then Pass(cmp, s, k) else SortFrom(cmp, Pass(cmp, s, k), 2 * k)
    ensures multiset(Pass(cmp, s, k)) == multiset(s) && |Pass(cmp, s, k)| == |s|
  {
    PassPermutes(cmp, s, k);
  }

  lemma StartsWaiting<K>(s: seq<Handle<K>>)
    requires DoublyLinked(s)
    ensures Waiting(s, [], 0, 0, 0)
  {
  }

  lemma SameMembers<T>(s: seq<T>, t: seq<T>)
    requires multiset(s) == multiset(t)
    ensures forall x :: x in s <==> x in t
    ensures |s| == |t|
  {
    assert forall x :: x in s <==> x in multiset(s);
    assert forall x :: x in t <==> x in multiset(t);
    assert |multiset(s)| == |s| && |multiset(t)| == |t|;
  }

  /** The whole sort: passes until one of them merges a single pair. */
  method SortList<K>(cmp: Comparison<Handle<K>>, head: Handle<K>, ghost s0: seq<Handle<K>>)
    returns (list: Handle<K>, tail: Handle<K>, ghost s: seq<Handle<K>>)
    requires Distinct(s0) && head == At(s0, 0) && DoublyLinked(s0)
    modifies s0`next, s0`prev
    ensures s == SortFrom(cmp, s0, 1) && multiset(s) == multiset(s0) && Distinct(s)
    ensures list == At(s, 0) && tail == At(s, |s| - 1) && DoublyLinked(s)
  {
    hide DoublyLinked, Distinct, Pass, SortFrom, Waiting;
    var insize: nat, looping := 1, true;
    list, tail, s := head, head, s0;
    while looping
      invariant insize > 0 && Distinct(s) && list == At(s, 0) && DoublyLinked(s) && multiset(s) == multiset(s0) && |s| == |s0|
      invariant SortFrom(cmp, s0, 1) == if looping then SortFrom(cmp, s, insize) else s
      invariant !looping ==> tail == At(s, |s| - 1)
      decreases looping, |s0| - insize
    {
      ghost var before := s;
      SameMembers(s, s0);
      SortFromStep(cmp, s, insize);
      StartsWaiting(s);
      assert forall j :: 0 <= j < |s| ==> s[j] in s0;
      var nmerges: nat;
      list, tail, nmerges, s := SortPass(cmp, list, insize, s);
      if nmerges <= 1 {
        looping := false;
      }
      insize := insize * 2;
    }
  }
}
