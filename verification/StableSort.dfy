/** The bottom-up mergesort of the hash table's application list, on the sequence of its elements. */
module StableSort {
  type Comparison<!T> = (T, T) -> int

  /** The comparison is total and transitive on the elements of a set. */
  ghost predicate TotalPreorder<T>(cmp: Comparison<T>, all: set<T>) {
    && (forall x, y :: x in all && y in all ==> cmp(x, y) <= 0 || cmp(y, x) <= 0)
    && (forall x, y, z :: x in all && y in all && z in all && cmp(x, y) <= 0 && cmp(y, z) <= 0 ==> cmp(x, z) <= 0)
  }

  ghost predicate Within<T>(s: seq<T>, all: set<T>) {
    forall i :: 0 <= i < |s| ==> s[i] in all
  }

  ghost predicate Sorted<T>(cmp: Comparison<T>, s: seq<T>) {
    forall i, j :: 0 <= i < j < |s| ==> cmp(s[i], s[j]) <= 0
  }

  /** The first k elements, or as many as there are. */
  function Head<T>(s: seq<T>, k: nat): (r: seq<T>)
    ensures |r| == if k <= |s| then k else |s|
  {
    if k <= |s| then s[..k] else s
  }

  function Tail<T>(s: seq<T>, k: nat): (r: seq<T>)
    ensures Head(s, k) + r == s
  {
    if k <= |s| then s[k..] else []
  }

  /** One merge: ties go to the left run. */
  function Merge<T>(cmp: Comparison<T>, p: seq<T>, q: seq<T>): (r: seq<T>)
    ensures |r| == |p| + |q|
  {
    if p == [] then q
    else if q == [] then p
    else if cmp(p[0], q[0]) <= 0 then [p[0]] + Merge(cmp, p[1..], q)
    else [q[0]] + Merge(cmp, p, q[1..])
  }

  /** One pass: neighbouring runs of k elements are merged. */
  function Pass<T>(cmp: Comparison<T>, s: seq<T>, k: nat): (r: seq<T>)
    requires k > 0
    ensures |r| == |s|
    decreases |s|
  {
    if s == [] then []
    else
      var rest := Tail(s, k);
      Merge(cmp, Head(s, k), Head(rest, k)) + Pass(cmp, Tail(rest, k), k)
  }

  /** Passes with doubling runs, up to the one that merges at most one pair. */
  function SortFrom<T>(cmp: Comparison<T>, s: seq<T>, k: nat): (r: seq<T>)
    requires k > 0
    decreases |s| - k
  {
    if |s| <= 2 * k then Pass(cmp, s, k) else SortFrom(cmp, Pass(cmp, s, k), 2 * k)
  }

  /** The elements of a sequence that compare equal to x, in order. */
  function Ties<T>(cmp: Comparison<T>, s: seq<T>, x: T): seq<T> {
    if s == [] then [] else Tie(cmp, s[0], x) + Ties(cmp, s[1..], x)
  }

  function Tie<T>(cmp: Comparison<T>, y: T, x: T): seq<T> {
    if cmp(y, x) <= 0 && cmp(x, y) <= 0 then [y] else []
  }

  lemma {:induction false} TiesConcat<T>(cmp: Comparison<T>, s: seq<T>, t: seq<T>, x: T)
    ensures Ties(cmp, s + t, x) == Ties(cmp, s, x) + Ties(cmp, t, x)
  {
    if s == [] {
      assert s + t == t;
    } else {
      assert (s + t)[1..] == s[1..] + t;
      TiesConcat(cmp, s[1..], t, x);
    }
  }

  lemma {:induction false} NoTies<T>(cmp: Comparison<T>, s: seq<T>, x: T)
    requires forall i :: 0 <= i < |s| ==> cmp(s[i], x) > 0
    ensures Ties(cmp, s, x) == []
  {
    if s != [] {
      assert cmp(s[0], x) > 0;
      NoTies(cmp, s[1..], x);
    }
  }

  lemma {:induction false} MergePermutes<T>(cmp: Comparison<T>, p: seq<T>, q: seq<T>)
    ensures multiset(Merge(cmp, p, q)) == multiset(p) + multiset(q)
  {
    if p == [] || q == [] {
    } else if cmp(p[0], q[0]) <= 0 {
      MergePermutes(cmp, p[1..], q);
      assert p == [p[0]] + p[1..];
    } else {
      MergePermutes(cmp, p, q[1..]);
      assert q == [q[0]] + q[1..];
    }
  }

  lemma SortedCons<T>(cmp: Comparison<T>, x: T, s: seq<T>)
    requires Sorted(cmp, s) && forall y :: y in multiset(s) ==> cmp(x, y) <= 0
    ensures Sorted(cmp, [x] + s)
  {
    forall i, j | 0 <= i < j < |s| + 1
      ensures cmp(([x] + s)[i], ([x] + s)[j]) <= 0
    {
      assert s[j - 1] in multiset(s);
    }
  }

  /** What is not above the heads of two sorted sequences is not above anything in their merge. */
  lemma BelowMerge<T>(cmp: Comparison<T>, all: set<T>, x: T, p: seq<T>, q: seq<T>)
    requires TotalPreorder(cmp, all) && Within(p, all) && Within(q, all) && x in all
    requires Sorted(cmp, p) && Sorted(cmp, q)
    requires p != [] ==> cmp(x, p[0]) <= 0
    requires q != [] ==> cmp(x, q[0]) <= 0
    ensures forall y :: y in multiset(Merge(cmp, p, q)) ==> cmp(x, y) <= 0
  {
    MergePermutes(cmp, p, q);
    forall y | y in multiset(Merge(cmp, p, q))
      ensures cmp(x, y) <= 0
    {
      if y in p {
        var i :| 0 <= i < |p| && p[i] == y;
        assert i > 0 ==> cmp(p[0], p[i]) <= 0;
      } else {
        assert y in q;
        var i :| 0 <= i < |q| && q[i] == y;
        assert i > 0 ==> cmp(q[0], q[i]) <= 0;
      }
    }
  }

  lemma {:induction false} MergeSorts<T>(cmp: Comparison<T>, all: set<T>, p: seq<T>, q: seq<T>)
    requires TotalPreorder(cmp, all) && Within(p, all) && Within(q, all)
    requires Sorted(cmp, p) && Sorted(cmp, q)
    ensures Sorted(cmp, Merge(cmp, p, q))
  {
    if p == [] || q == [] {
    } else if cmp(p[0], q[0]) <= 0 {
      MergeSorts(cmp, all, p[1..], q);
      BelowMerge(cmp, all, p[0], p[1..], q);
      SortedCons(cmp, p[0], Merge(cmp, p[1..], q));
    } else {
      MergeSorts(cmp, all, p, q[1..]);
      BelowMerge(cmp, all, q[0], p, q[1..]);
      SortedCons(cmp, q[0], Merge(cmp, p, q[1..]));
    }
  }

  lemma NothingTiesBefore<T>(cmp: Comparison<T>, all: set<T>, p: seq<T>, y: T, x: T)
    requires TotalPreorder(cmp, all) && Within(p, all) && x in all && y in all && Sorted(cmp, p)
    requires p != [] && cmp(p[0], y) > 0 && cmp(x, y) <= 0
    ensures Ties(cmp, p, x) == []
  {
    forall i | 0 <= i < |p|
      ensures cmp(p[i], x) > 0
    {
      assert i > 0 ==> cmp(p[0], p[i]) <= 0;
    }
    NoTies(cmp, p, x);
  }

  lemma TiesCons<T>(cmp: Comparison<T>, y: T, s: seq<T>, x: T)
    ensures Ties(cmp, [y] + s, x) == Tie(cmp, y, x) + Ties(cmp, s, x)
  {
    assert ([y] + s)[1..] == s;
  }

  lemma TiesStepLeft<T>(cmp: Comparison<T>, y: T, p: seq<T>, q: seq<T>, merged: seq<T>, x: T)
    requires Ties(cmp, merged, x) == Ties(cmp, p, x) + Ties(cmp, q, x)
    ensures Ties(cmp, [y] + merged, x) == Ties(cmp, [y] + p, x) + Ties(cmp, q, x)
  {
    hide Ties, Tie;
    TiesCons(cmp, y, merged, x);
    TiesCons(cmp, y, p, x);
  }

  lemma TiesStepRight<T>(cmp: Comparison<T>, y: T, p: seq<T>, q: seq<T>, merged: seq<T>, x: T)
    requires Ties(cmp, merged, x) == Ties(cmp, p, x) + Ties(cmp, q, x)
    requires Tie(cmp, y, x) != [] ==> Ties(cmp, p, x) == []
    ensures Ties(cmp, [y] + merged, x) == Ties(cmp, p, x) + Ties(cmp, [y] + q, x)
  {
    hide Ties, Tie;
    TiesCons(cmp, y, merged, x);
    TiesCons(cmp, y, q, x);
  }

  lemma {:induction false} MergeKeepsTies<T>(cmp: Comparison<T>, all: set<T>, p: seq<T>, q: seq<T>, x: T)
    requires TotalPreorder(cmp, all) && Within(p, all) && Within(q, all) && x in all && Sorted(cmp, p)
    ensures Ties(cmp, Merge(cmp, p, q), x) == Ties(cmp, p, x) + Ties(cmp, q, x)
  {
    if p != [] && q != [] {
      assert [p[0]] + p[1..] == p && [q[0]] + q[1..] == q;
      if cmp(p[0], q[0]) <= 0 {
        MergeKeepsTies(cmp, all, p[1..], q, x);
        TiesStepLeft(cmp, p[0], p[1..], q, Merge(cmp, p[1..], q), x);
      } else {
        MergeKeepsTies(cmp, all, p, q[1..], x);
        if Tie(cmp, q[0], x) != [] {
          NothingTiesBefore(cmp, all, p, q[0], x);
        }
        TiesStepRight(cmp, q[0], p, q[1..], Merge(cmp, p, q[1..]), x);
      }
    }
  }

  /** Every run of k elements is sorted. */
  ghost predicate Runs<T>(cmp: Comparison<T>, s: seq<T>, k: nat)
    requires k > 0
    decreases |s|
  {
    s == [] || (Sorted(cmp, Head(s, k)) && Runs(cmp, Tail(s, k), k))
  }

  lemma {:induction false} SingletonRuns<T>(cmp: Comparison<T>, s: seq<T>)
    ensures Runs(cmp, s, 1)
    decreases |s|
  {
    if s != [] {
      SingletonRuns(cmp, Tail(s, 1));
    }
  }

  lemma HeadTailElements<T>(s: seq<T>, k: nat)
    ensures multiset(s) == multiset(Head(s, k)) + multiset(Tail(s, k))
  {
    assert s == Head(s, k) + Tail(s, k);
  }

  lemma {:induction false} PassPermutes<T>(cmp: Comparison<T>, s: seq<T>, k: nat)
    requires k > 0
    ensures multiset(Pass(cmp, s, k)) == multiset(s)
    decreases |s|
  {
    if s != [] {
      var rest := Tail(s, k);
      HeadTailElements(s, k);
      HeadTailElements(rest, k);
      MergePermutes(cmp, Head(s, k), Head(rest, k));
      PassPermutes(cmp, Tail(rest, k), k);
    }
  }

  lemma RunsStep<T>(cmp: Comparison<T>, first: seq<T>, rest: seq<T>, k: nat)
    requires k > 0 && Sorted(cmp, first) && Runs(cmp, rest, k)
    requires |first| == k || (|first| < k && rest == [])
    ensures Runs(cmp, first + rest, k)
  {
    assert Head(first + rest, k) == first && Tail(first + rest, k) == rest;
  }

  lemma WithinParts<T>(s: seq<T>, k: nat, all: set<T>)
    requires Within(s, all)
    ensures Within(Head(s, k), all) && Within(Tail(s, k), all)
  {
  }

  lemma {:induction false} PassDoublesRuns<T>(cmp: Comparison<T>, all: set<T>, s: seq<T>, k: nat)
    requires k > 0 && TotalPreorder(cmp, all) && Within(s, all) && Runs(cmp, s, k)
    ensures Runs(cmp, Pass(cmp, s, k), 2 * k)
    decreases |s|
  {
    hide TotalPreorder, Within;
    if s != [] {
      var rest := Tail(s, k);
      WithinParts(s, k, all);
      WithinParts(rest, k, all);
      assert Runs(cmp, Tail(rest, k), k);
      MergeSorts(cmp, all, Head(s, k), Head(rest, k));
      PassDoublesRuns(cmp, all, Tail(rest, k), k);
      RunsStep(cmp, Merge(cmp, Head(s, k), Head(rest, k)), Pass(cmp, Tail(rest, k), k), 2 * k);
    }
  }

  lemma TiesOfParts<T>(cmp: Comparison<T>, p: seq<T>, q: seq<T>, after: seq<T>, merged: seq<T>, passed: seq<T>, x: T)
    requires Ties(cmp, merged, x) == Ties(cmp, p, x) + Ties(cmp, q, x)
    requires Ties(cmp, passed, x) == Ties(cmp, after, x)
    ensures Ties(cmp, merged + passed, x) == Ties(cmp, p + (q + after), x)
  {
    hide Ties;
    TiesConcat(cmp, merged, passed, x);
    TiesConcat(cmp, q, after, x);
    TiesConcat(cmp, p, q + after, x);
  }

  lemma {:induction false} PassKeepsTies<T>(cmp: Comparison<T>, all: set<T>, s: seq<T>, k: nat, x: T)
    requires k > 0 && TotalPreorder(cmp, all) && Within(s, all) && x in all && Runs(cmp, s, k)
    ensures Ties(cmp, Pass(cmp, s, k), x) == Ties(cmp, s, x)
    decreases |s|
  {
    hide TotalPreorder, Within, Sorted;
    if s != [] {
      var p, rest := Head(s, k), Tail(s, k);
      var q, after := Head(rest, k), Tail(rest, k);
      WithinParts(s, k, all);
      WithinParts(rest, k, all);
      MergeKeepsTies(cmp, all, p, q, x);
      PassKeepsTies(cmp, all, after, k, x);
      TiesOfParts(cmp, p, q, after, Merge(cmp, p, q), Pass(cmp, after, k), x);
    }
  }

  lemma {:induction false} SortFromPermutes<T>(cmp: Comparison<T>, s: seq<T>, k: nat)
    requires k > 0
    ensures multiset(SortFrom(cmp, s, k)) == multiset(s)
    decreases |s| - k
  {
    PassPermutes(cmp, s, k);
    if |s| > 2 * k {
      SortFromPermutes(cmp, Pass(cmp, s, k), 2 * k);
    }
  }

  lemma {:induction false} SortFromSorts<T>(cmp: Comparison<T>, all: set<T>, s: seq<T>, k: nat)
    requires k > 0 && TotalPreorder(cmp, all) && Within(s, all) && Runs(cmp, s, k)
    ensures Sorted(cmp, SortFrom(cmp, s, k))
    decreases |s| - k
  {
    PassDoublesRuns(cmp, all, s, k);
    PassPermutes(cmp, s, k);
    var t := Pass(cmp, s, k);
    SameElements(s, t, all);
    if |s| > 2 * k {
      SortFromSorts(cmp, all, t, 2 * k);
    } else if s != [] {
      assert Head(t, 2 * k) == t;
    }
  }

  lemma {:induction false} SortFromKeepsTies<T>(cmp: Comparison<T>, all: set<T>, s: seq<T>, k: nat, x: T)
    requires k > 0 && TotalPreorder(cmp, all) && Within(s, all) && x in all && Runs(cmp, s, k)
    ensures Ties(cmp, SortFrom(cmp, s, k), x) == Ties(cmp, s, x)
    decreases |s| - k
  {
    PassDoublesRuns(cmp, all, s, k);
    PassKeepsTies(cmp, all, s, k, x);
    PassPermutes(cmp, s, k);
    SameElements(s, Pass(cmp, s, k), all);
    if |s| > 2 * k {
      SortFromKeepsTies(cmp, all, Pass(cmp, s, k), 2 * k, x);
    }
  }

  lemma SameElements<T>(s: seq<T>, t: seq<T>, all: set<T>)
    requires multiset(s) == multiset(t) && Within(s, all)
    ensures Within(t, all)
  {
    forall i | 0 <= i < |t|
      ensures t[i] in all
    {
      assert t[i] in multiset(s);
    }
  }

  /** The passes together: a permutation for any comparison, and a stable sort for any total preorder. */
  lemma SortIsStable<T>(cmp: Comparison<T>, s: seq<T>)
    ensures multiset(SortFrom(cmp, s, 1)) == multiset(s)
    ensures var all := set x | x in s;
            TotalPreorder(cmp, all) ==>
              && Sorted(cmp, SortFrom(cmp, s, 1))
              && forall x :: x in s ==> Ties(cmp, SortFrom(cmp, s, 1), x) == Ties(cmp, s, x)
  {
    SortFromPermutes(cmp, s, 1);
    var all := set x | x in s;
    if TotalPreorder(cmp, all) {
      SingletonRuns(cmp, s);
      SortFromSorts(cmp, all, s, 1);
      forall x | x in s
        ensures Ties(cmp, SortFrom(cmp, s, 1), x) == Ties(cmp, s, x)
      {
        SortFromKeepsTies(cmp, all, s, 1, x);
      }
    }
  }
}
