/**
  The message buffer of the log: a circular buffer that holds the newest bytes ever logged.
 */
module MlogRing {
  function Min(a: int, b: int): int {
    if a <= b then a else b
  }

  /** The last n elements, or all when there are fewer. */
  function Last<T>(s: seq<T>, n: nat): seq<T> {
    if n <= |s| then s[|s| - n..] else s
  }

  /** What a copy of len bytes ending offset bytes before the newest returns. */
  function Pulled<T>(window: seq<T>, offset: int, len: nat): seq<T> {
    Last(window[..|window| - (if offset <= 0 then 0 else if offset <= |window| then offset else |window|)], len)
  }

  class MessageBuffer {
    const data: array<int>
    var cnt: nat
    var wp: nat

    /** Every byte ever logged. */
    ghost var history: seq<int>

    ghost function Window(): seq<int>
      reads this
    {
      Last(history, data.Length)
    }

    ghost predicate Valid()
      reads this, data
    {
      Holds(data[..], cnt, wp, history)
    }

    constructor (len: nat)
      requires len > 0
      ensures Valid() && fresh(data) && data.Length == len && history == []
    {
      data := new int[len](_ => 0);
      cnt, wp, history := 0, 0, [];
    }

    /** The two parts of the buffer, from the write pointer on and up to it, as places and lengths. */
    method GetMbPtrs() returns (one: nat, onelen: nat, two: nat, twolen: nat)
      requires Valid()
      ensures one == wp && onelen == data.Length - wp && two == 0 && twolen == wp
    {
      one, onelen, two, twolen := wp, data.Length - wp, 0, wp;
    }

    method CopyIn(at: nat, bytes: seq<int>)
      requires at + |bytes| <= data.Length
      modifies data
      ensures data[..] == old(data[..at]) + bytes + old(data[at + |bytes|..])
    {
      for i := 0 to |bytes|
        invariant forall j :: 0 <= j < data.Length ==> data[j] == if at <= j < at + i then bytes[j - at] else old(data[j])
      {
        data[at + i] := bytes[i];
      }
    }

    /** One formatted message of any length goes into the buffer. */
    method Log(b: seq<int>)
      requires Valid()
      modifies this, data
      ensures Valid() && history == old(history) + b
    {
      hide Holds, Placed;
      HoldsBounds(data[..], cnt, wp, history);
      ghost var before := data[..];
      var tlen, len := |b|, data.Length;
      var resid, bp := tlen, b;
      if resid > len {
        bp := b[resid - len..];
        resid := len;
      }
      assert bp == Last(b, len);
      WriteAround(bp);
      ghost var w, n := wp, cnt;
      if tlen < len {
        wp := wp + tlen;
        if wp >= len {
          wp := wp - len;
        }
      }
      if cnt < len {
        cnt := cnt + tlen;
        if cnt > len {
          cnt := len;
        }
      }
      WindowMoves(history, b, before, data[..], n, w, cnt, wp);
      history := history + b;
    }

    /** Bytes are written from the write pointer on and, past the end of the buffer, from its start. */
    method WriteAround(bp: seq<int>)
      requires wp < data.Length && |bp| <= data.Length
      modifies data
      ensures Placed(old(data[..]), data[..], bp, wp)
    {
      hide Placed;
      var m1, m1len, m2 := wp, data.Length - wp, 0;
      var ncpy := |bp|;
      if ncpy > m1len {
        ncpy := m1len;
      }
      ghost var before := data[..];
      CopyIn(m1, bp[..ncpy]);
      ghost var mid := data[..];
      if |bp| - ncpy > 0 {
        CopyIn(m2, bp[ncpy..]);
      }
      TwoCopiesPlace(before, mid, data[..], bp, wp, ncpy);
    }

    /** The window as two pieces, the older one first; the second may be empty. */
    method DmesgMbuf() returns (b1: int, b1len: int, b2: int, b2len: int)
      requires Valid()
      ensures b1 >= 0 && b1len >= 0 && b2 >= 0 && b2len >= 0
      ensures b1 + b1len <= data.Length && b2 + b2len <= data.Length
      ensures data[b1..b1 + b1len] + data[b2..b2 + b2len] == Window()
    {
      b1, b1len, b2, b2len := GetMbPtrs();
      var skip := data.Length - cnt;
      if skip >= b1len {
        skip := skip - b1len;
        b1 := b2;
        b2 := 0;
        b1len := b2len;
        b2len := 0;
      }
      if skip != 0 {
        b1 := b1 + skip;
        b1len := b1len - skip;
      }
    }

    /** The copy-out: so many bytes, or all there are, ending so many bytes before the newest. */
    method MbCopy(offset0: int, len: int) returns (want: int, buf: seq<int>)
      requires Valid()
      ensures len < 1 ==> want == -1 && buf == []
      ensures len >= 1 ==> want == |buf| && buf == Pulled(Window(), offset0, len)
    {
      if len < 1 {
        return -1, [];
      }
      var b1, b1l, b2, b2l := DmesgMbuf();
      want, buf := CopyPieces(data[b1..b1 + b1l], data[b2..b2 + b2l], offset0, len);
    }
  }

  /** The part of two pieces that a copy wants. */
  method CopyPieces(p: seq<int>, q: seq<int>, offset0: int, len: nat) returns (want: nat, buf: seq<int>)
    requires len >= 1
    ensures want == |buf| && buf == Pulled(p + q, offset0, len)
  {
    hide Pulled;
    var e1, e2 := PullBack(|p|, |q|, offset0);
    var got := e1 + e2;
    want := if len > got then got else len;
    var s1, l1, s2, l2 := SkipOver(e1, e2, if want < got then got - want else 0);
    PiecesMakeWindow(p, q, e1, e2, s1, l1, s2, l2, got - want);
    PulledIs(p + q, offset0, len, got, want);
    buf := p[s1..s1 + l1] + q[s2..s2 + l2];
  }

  lemma PulledIs<T>(window: seq<T>, offset: int, len: nat, got: nat, want: nat)
    requires got == |window| - (if offset <= 0 then 0 else Min(offset, |window|)) && want == Min(len, got)
    ensures window[..got][got - want..] == Pulled(window, offset, len) && |Pulled(window, offset, len)| == want
  {
  }

  /** Leaving off the newest bytes: first from the newer piece, then from the older one. */
  method PullBack(b1l0: nat, b2l0: nat, offset0: int) returns (b1l: nat, b2l: nat)
    ensures b1l + b2l == b1l0 + b2l0 - (if offset0 <= 0 then 0 else Min(offset0, b1l0 + b2l0))
    ensures b1l <= b1l0 && b2l <= b2l0 && (b2l > 0 ==> b1l == b1l0)
  {
    b1l, b2l := b1l0, b2l0;
    var offset := offset0;
    if offset > 0 && b2l > 0 {
      if offset > b2l {
        offset := offset - b2l;
        b2l := 0;
      } else {
        b2l := b2l - offset;
        offset := 0;
      }
    }
    if offset > 0 && b1l > 0 {
      if offset > b1l {
        b1l := 0;
      } else {
        b1l := b1l - offset;
      }
    }
  }

  /** Leaving off the oldest bytes: first from the older piece, then from the newer one. */
  method SkipOver(e1: nat, e2: nat, skip0: nat) returns (s1: int, b1l: int, s2: int, b2l: int)
    requires skip0 <= e1 + e2
    ensures s1 >= 0 && b1l >= 0 && s2 >= 0 && b2l >= 0
    ensures b1l + b2l == e1 + e2 - skip0 && s1 + b1l <= e1 && s2 + b2l == e2
    ensures b1l > 0 ==> s1 == skip0 && s1 + b1l == e1 && s2 == 0
    ensures b1l == 0 ==> s2 == if skip0 > e1 then skip0 - e1 else 0
  {
    s1, b1l, s2, b2l := 0, e1, 0, e2;
    var skip := skip0;
    if skip > 0 {
      if skip > b1l {
        skip := skip - b1l;
        b1l := 0;
      } else {
        b1l := b1l - skip;
        s1 := s1 + skip;
        skip := 0;
      }
      if skip > b2l {
        b2l := 0;
      } else {
        b2l := b2l - skip;
        s2 := s2 + skip;
      }
    }
  }

  /** What is left of the two pieces is what is left of the whole. */
  lemma PiecesMakeWindow<T>(p: seq<T>, q: seq<T>, e1: nat, e2: nat, s1: nat, l1: nat, s2: nat, l2: nat, skip: nat)
    requires e1 <= |p| && e2 <= |q| && (e2 > 0 ==> e1 == |p|) && skip <= e1 + e2
    requires l1 + l2 == e1 + e2 - skip && s1 + l1 <= e1 && s2 + l2 == e2
    requires l1 > 0 ==> s1 == skip && s1 + l1 == e1 && s2 == 0
    requires l1 == 0 ==> s2 == if skip > e1 then skip - e1 else 0
    ensures p[s1..s1 + l1] + q[s2..s2 + l2] == (p + q)[..e1 + e2][skip..]
  {
    var a, b := p[s1..s1 + l1] + q[s2..s2 + l2], (p + q)[..e1 + e2][skip..];
    assert |a| == |b|;
    forall i | 0 <= i < |a|
      ensures a[i] == b[i]
    {
      assert b[i] == (p + q)[skip + i];
    }
  }

  /** The buffer after writing at most its length from a place on, around its end. */
  ghost predicate Placed(before: seq<int>, after: seq<int>, bytes: seq<int>, w: nat) {
    && |before| == |after| && w < |before| && |bytes| <= |before|
    && forall i {:trigger after[i]} :: 0 <= i < |after| ==>
         after[i] == if w <= i < w + |bytes| then bytes[i - w]
                     else if i < w + |bytes| - |before| then bytes[i + |before| - w]
                     else before[i]
  }

  /** The buffer's bytes with its counters hold the newest of the history. */
  ghost predicate Holds(data: seq<int>, cnt: nat, wp: nat, history: seq<int>) {
    && |data| > 0 && wp < |data|
    && cnt == Min(|history|, |data|)
    && (cnt < |data| ==> wp == cnt && data[..wp] == history)
    && (cnt == |data| ==> data[wp..] + data[..wp] == Last(history, |data|))
  }

  lemma HoldsBounds(data: seq<int>, cnt: nat, wp: nat, history: seq<int>)
    requires Holds(data, cnt, wp, history)
    ensures wp < |data| && cnt <= |data| && (cnt < |data| ==> wp == cnt)
  {
  }

  lemma WindowMoves(history: seq<int>, b: seq<int>, before: seq<int>, after: seq<int>, n: nat, w: nat, n': nat, w': nat)
    requires Holds(before, n, w, history)
    requires Placed(before, after, Last(b, |before|), w)
    requires w' == if |b| >= |before| then w else if w + |b| >= |before| then w + |b| - |before| else w + |b|
    requires n' == if n < |before| then Min(n + |b|, |before|) else n
    ensures Holds(after, n', w', history + b)
  {
    BytesMove(history, b, before, after, w, w');
  }

  lemma BytesMove(history: seq<int>, b: seq<int>, before: seq<int>, after: seq<int>, w: nat, w': nat)
    requires Placed(before, after, Last(b, |before|), w)
    requires w' == if |b| >= |before| then w else if w + |b| >= |before| then w + |b| - |before| else w + |b|
    requires |history| < |before| ==> w == |history| && before[..w] == history
    requires |history| >= |before| ==> before[w..] + before[..w] == Last(history, |before|)
    ensures |history + b| < |before| ==> w' == |history + b| && after[..w'] == history + b
    ensures |history + b| >= |before| ==> after[w'..] + after[..w'] == Last(history + b, |before|)
  {
  }

  lemma TwoCopiesPlace(before: seq<int>, mid: seq<int>, after: seq<int>, bytes: seq<int>, w: nat, n: nat)
    requires w < |before| && |bytes| <= |before| && n == Min(|bytes|, |before| - w)
    requires mid == before[..w] + bytes[..n] + before[w + n..]
    requires after == bytes[n..] + mid[|bytes| - n..]
    ensures Placed(before, after, bytes, w)
  {
  }
}
