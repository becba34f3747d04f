/**
  From a key to its slice: integer keys by division, string keys through a number in [0, 1)
  that their characters spell in base 64.
 */
module KeySlices {
  import opened Division
  import opened Partitioner

  /** Integer keys are 32 or 64 bits wide; string keys carry their characters, with or without a final NUL. */
  datatype Key = IntKey(value: nat) | StringKey(chars: string)

  // ---------------------------------------------------------------- the alphabet

  /** The position of a character code, -1 for one outside the alphabet. */
  function PosOf(id: int): (pos: int)
    ensures pos <= 61
  {
    if '0' as int <= id <= '9' as int then id - '0' as int
    else if 'A' as int <= id <= 'Z' as int then 10 + id - 'A' as int
    else if 'a' as int <= id <= 'z' as int then 36 + id - 'a' as int
    else -1
  }

  function Pos(c: char): int {
    PosOf(c as int)
  }

  ghost predicate Listed(alphabet: map<int, int>, below: int) {
    && (forall id :: id in alphabet <==> PosOf(id) >= 0 && id < below)
    && (forall id :: id in alphabet ==> alphabet[id] == PosOf(id))
  }

  /** The table of positions, filled one range of characters after the other. */
  method BuildAlphabet() returns (alphabet: map<int, int>)
    ensures Listed(alphabet, 256)
    ensures forall id :: id in alphabet <==> 48 <= id <= 57 || 65 <= id <= 90 || 97 <= id <= 122
    ensures forall id :: id in alphabet ==>
              alphabet[id] == if id <= 57 then id - 48 else if id <= 90 then id - 65 + 10 else id - 97 + 36
  {
    alphabet := map[];
    var indx := 0;
    for i := '0' as int to '9' as int + 1
      invariant indx == i - '0' as int && Listed(alphabet, i)
    {
      alphabet := alphabet[i := indx];
      indx := indx + 1;
    }
    for i := 'A' as int to 'Z' as int + 1
      invariant indx == 10 + i - 'A' as int && Listed(alphabet, i)
    {
      alphabet := alphabet[i := indx];
      indx := indx + 1;
    }
    for i := 'a' as int to 'z' as int + 1
      invariant indx == 36 + i - 'a' as int && Listed(alphabet, i)
    {
      alphabet := alphabet[i := indx];
      indx := indx + 1;
    }
  }

  // ---------------------------------------------------------------- validity

  /** The characters that count: all but a NUL in the last place. */
  function Text(key: string): string {
    if key != "" && key[|key| - 1] == '\0' then key[..|key| - 1] else key
  }

  predicate InAlphabet(s: string) {
    forall i :: 0 <= i < |s| ==> Pos(s[i]) >= 0
  }

  predicate ValidKey(key: Key, recs: nat)
    requires recs > 0
  {
    match key
    case IntKey(value) => Quotient(value, recs) < MDHIM_MAX_SLICES
    case StringKey(chars) => |chars| <= MAX_KEY_LEN && InAlphabet(Text(chars))
  }

  /** An integer key needs a slice below the limit; a string key has at most 262144 characters, digits and letters,
      and a NUL only at its end. */
  lemma ValidKeys(key: Key, recs: nat)
    requires recs > 0
    ensures match key
            case IntKey(value) => ValidKey(key, recs) <==> value < 2147483647 * recs
            case StringKey(chars) =>
              ValidKey(key, recs) <==>
              |chars| <= 262144 && forall i :: 0 <= i < |chars| ==>
                '0' <= chars[i] <= '9' || 'A' <= chars[i] <= 'Z' || 'a' <= chars[i] <= 'z' || (i == |chars| - 1 && chars[i] == '\0')
  {
    match key
    case IntKey(value) =>
      QuotientBelow(value, MDHIM_MAX_SLICES, recs);
    case StringKey(chars) =>
      TextInAlphabet(chars);
  }

  lemma TextInAlphabet(chars: string)
    ensures InAlphabet(Text(chars)) <==>
            forall i :: 0 <= i < |chars| ==>
              '0' <= chars[i] <= '9' || 'A' <= chars[i] <= 'Z' || 'a' <= chars[i] <= 'z' || (i == |chars| - 1 && chars[i] == '\0')
  {
    forall i | 0 <= i < |Text(chars)|
      ensures Text(chars)[i] == chars[i]
    {
    }
    if InAlphabet(Text(chars)) {
      forall i | 0 <= i < |chars|
        ensures '0' <= chars[i] <= '9' || 'A' <= chars[i] <= 'Z' || 'a' <= chars[i] <= 'z' || (i == |chars| - 1 && chars[i] == '\0')
      {
        assert i < |Text(chars)| ==> Pos(Text(chars)[i]) >= 0;
      }
    }
  }

  method VerifyKey(key: Key, recs: nat, alphabet: map<int, int>) returns (ret: int)
    requires recs > 0 && Listed(alphabet, 256)
    ensures ret == if ValidKey(key, recs) then 0 else MDHIM_ERROR
    ensures match key
            case IntKey(value) => ret == if value < 2147483647 * recs then 0 else -1
            case StringKey(chars) =>
              ret == if |chars| <= 262144 && forall i :: 0 <= i < |chars| ==>
                          '0' <= chars[i] <= '9' || 'A' <= chars[i] <= 'Z' || 'a' <= chars[i] <= 'z' || (i == |chars| - 1 && chars[i] == '\0')
                     then 0 else -1
  {
    ValidKeys(key, recs);
    var ikey := 0;
    match key
    case StringKey(chars) =>
      if |chars| > MAX_KEY_LEN {
        return MDHIM_ERROR;
      }
      var i := 0;
      while i < |chars|
        invariant 0 <= i <= |chars| && InAlphabet(chars[..i])
      {
        if i == |chars| - 1 && chars[i] == '\0' {
          break;
        }
        if chars[i] as int !in alphabet {
          assert Text(chars)[i] == chars[i];
          return MDHIM_ERROR;
        }
        i := i + 1;
      }
      assert Text(chars) == chars[..i];
      return 0;
    case IntKey(value) =>
      if Quotient(value, recs) >= MDHIM_MAX_SLICES {
        return MDHIM_ERROR;
      }
      return 0;
  }

  // ---------------------------------------------------------------- the number of a string

  /** The number a string spells: its first character in the highest of the base-64 places after the point. */
  function StrNum(s: string): real {
    if s == "" then 0.0 else (Pos(s[0]) as real + StrNum(s[1..])) / 64.0
  }

  /** A text read as an integer in base 64, its last character in the lowest place. */
  ghost function Base64(s: string): int {
    if s == "" then 0 else 64 * Base64(s[..|s| - 1]) + Pos(s[|s| - 1])
  }

  ghost function Power64(n: nat): int {
    if n == 0 then 1 else 64 * Power64(n - 1)
  }

  /** A character's position, moved n places up. */
  ghost function Raised(pos: int, n: nat): int {
    pos * Power64(n)
  }

  lemma RaisedOnce(pos: int, n: nat)
    ensures Raised(pos, 0) == pos && Raised(pos, n + 1) == 64 * Raised(pos, n)
  {
    var w := Power64(n);
    assert pos * (64 * w) == 64 * (pos * w);
  }

  lemma {:induction false} FirstDigit(s: string)
    requires s != ""
    ensures Base64(s) == Raised(Pos(s[0]), |s| - 1) + Base64(s[1..])
  {
    hide Raised, Pos;
    RaisedOnce(Pos(s[0]), |s| - 1);
    if |s| == 1 {
      assert Base64(s[..0]) == 0 && Base64(s[1..]) == 0;
    } else {
      var front, rest := s[..|s| - 1], s[1..];
      FirstDigit(front);
      RaisedOnce(Pos(s[0]), |s| - 2);
      assert front[1..] == rest[..|rest| - 1] && rest[|rest| - 1] == s[|s| - 1];
    }
  }

  /** A number with the point moved n places back. */
  ghost function Scaled(x: real, n: nat): real {
    x * Power64(n) as real
  }

  lemma ScaledOnce(x: real, pos: int, r: real, n: nat)
    requires 64.0 * x == pos as real + r
    ensures Scaled(x, n + 1) == Raised(pos, n) as real + Scaled(r, n)
  {
    var w := Power64(n);
    assert (64 * w) as real == 64.0 * w as real;
    Shifted((64 * w) as real, w as real, x, pos as real, r);
    assert (pos * w) as real == pos as real * w as real;
    assert w as real * r == r * w as real;
    assert x * (64 * w) as real == (64 * w) as real * x;
  }

  /** The number of a text is its base-64 integer with the point put before the first place. */
  lemma {:induction false} StrNumIsFraction(s: string)
    ensures Scaled(StrNum(s), |s|) == Base64(s) as real
  {
    hide Scaled, StrNum, Raised, Base64;
    if s != "" {
      StrNumIsFraction(s[1..]);
      FirstDigit(s);
      FirstPlace(s);
      ScaledOnce(StrNum(s), Pos(s[0]), StrNum(s[1..]), |s| - 1);
    } else {
      NothingScaled();
    }
  }

  lemma NothingScaled()
    ensures Scaled(StrNum(""), 0) == Base64("") as real
  {
  }

  /** A text of n characters spells its base-64 integer divided by 64 to the n. */
  lemma StrNumIsBase64(s: string)
    ensures StrNum(s) * Power64(|s|) as real == Base64(s) as real
  {
    hide StrNum, Base64, Power64;
    StrNumIsFraction(s);
  }

  /** Two to the power of minus six times i. */
  function Weight(i: nat): (w: real)
    ensures w > 0.0
  {
    if i == 0 then 1.0 else Weight(i - 1) / 64.0
  }

  /** What a character in place i adds to the number. */
  function PlaceValue(pos: int, i: nat): real {
    pos as real * Weight(i + 1)
  }

  /** What the places from i on add. */
  ghost function Remaining(text: string, i: nat): real
    requires i <= |text|
  {
    Weight(i) * StrNum(text[i..])
  }

  /** A partial sum that lacks only the places from i on. */
  ghost predicate Spelled(sum: real, text: string, i: nat) {
    i <= |text| && sum + Remaining(text, i) == StrNum(text)
  }

  lemma NothingSpelled(text: string)
    ensures Spelled(0.0, text, 0)
  {
    assert text[0..] == text;
    assert Weight(0) * StrNum(text) == StrNum(text);
  }

  lemma OneMoreSpelled(sum: real, text: string, i: nat)
    requires Spelled(sum, text, i) && i < |text|
    ensures Spelled(sum + PlaceValue(Pos(text[i]), i), text, i + 1)
  {
    hide Remaining, PlaceValue;
    PlaceSpelled(text, i);
  }

  lemma PlaceSpelled(text: string, i: nat)
    requires i < |text|
    ensures Remaining(text, i) == PlaceValue(Pos(text[i]), i) + Remaining(text, i + 1)
  {
    hide StrNum;
    var s := text[i..];
    assert s[0] == text[i] && s[1..] == text[i + 1..];
    OnePlace(s, Weight(i), Weight(i + 1));
  }

  lemma AllSpelled(sum: real, text: string)
    requires Spelled(sum, text, |text|)
    ensures sum == StrNum(text)
  {
    assert text[|text|..] == "";
    NoPlaces(Weight(|text|));
  }

  method GetStrNum(key: string, alphabet: map<int, int>) returns (strNum: real)
    requires InAlphabet(Text(key)) && Listed(alphabet, 256)
    ensures strNum == StrNum(Text(key))
  {
    hide StrNum, Spelled, PlaceValue;
    strNum := 0.0;
    ghost var text := Text(key);
    var i := 0;
    NothingSpelled(text);
    while i < |key|
      invariant 0 <= i <= |text| && Spelled(strNum, text, i)
    {
      if i == |key| - 1 && key[i] == '\0' {
        break;
      }
      assert key[i] == text[i];
      OneMoreSpelled(strNum, text, i);
      strNum := strNum + PlaceValue(alphabet[key[i] as int], i);
      i := i + 1;
    }
    AllSpelled(strNum, text);
  }

  lemma NoPlaces(w: real)
    ensures w * StrNum("") == 0.0
  {
  }

  /** Taking the first place of a number off. */
  lemma OnePlace(s: string, w: real, next: real)
    requires s != "" && next == w / 64.0
    ensures w * StrNum(s) == Pos(s[0]) as real * next + next * StrNum(s[1..])
  {
    hide StrNum;
    FirstPlace(s);
    Shifted(w, next, StrNum(s), Pos(s[0]) as real, StrNum(s[1..]));
  }

  lemma FirstPlace(s: string)
    requires s != ""
    ensures 64.0 * StrNum(s) == Pos(s[0]) as real + StrNum(s[1..])
  {
  }

  /** A place moves from the front of a number into the weight before it. */
  lemma Shifted(w: real, next: real, x: real, p: real, r: real)
    requires w == 64.0 * next && 64.0 * x == p + r
    ensures w * x == p * next + next * r
  {
    assert w * x == next * (64.0 * x);
  }

  lemma {:induction false} StrNumRange(s: string)
    requires InAlphabet(s)
    ensures 0.0 <= StrNum(s) < 1.0
  {
    if s != "" {
      StrNumRange(s[1..]);
    }
  }

  /** The lexicographic order of character codes, a prefix being the lesser. */
  predicate Lex(a: string, b: string) {
    if a == "" then true
    else if b == "" then false
    else a[0] < b[0] || (a[0] == b[0] && Lex(a[1..], b[1..]))
  }

  /** One text is before another when it is a prefix of it, or has the smaller character where they first differ. */
  lemma {:induction false} LexMeans(a: string, b: string)
    ensures Lex(a, b) <==>
            a <= b || exists i :: 0 <= i < |a| && i < |b| && a[..i] == b[..i] && a[i] < b[i]
  {
    if a != "" && b != "" && a[0] == b[0] {
      var x, y := a[1..], b[1..];
      LexMeans(x, y);
      assert a == [a[0]] + x && b == [b[0]] + y;
      if i :| 0 <= i < |x| && i < |y| && x[..i] == y[..i] && x[i] < y[i] {
        assert a[..i + 1] == [a[0]] + x[..i] && b[..i + 1] == [b[0]] + y[..i];
        assert a[i + 1] < b[i + 1];
      }
      if i :| 0 <= i < |a| && i < |b| && a[..i] == b[..i] && a[i] < b[i] {
        assert a[..i][1..] == x[..i - 1] && b[..i][1..] == y[..i - 1] && x[i - 1] < y[i - 1];
      }
    } else if a != "" && b != "" {
      assert a[..0] == b[..0];
      if i :| 0 <= i < |a| && i < |b| && a[..i] == b[..i] && a[i] < b[i] {
        assert i > 0 ==> a[..i][0] == a[0] && b[..i][0] == b[0];
      }
    }
  }

  lemma {:induction false} LexTotal(a: string, b: string)
    ensures Lex(a, b) || Lex(b, a)
    ensures Lex(a, b) && Lex(b, a) ==> a == b
  {
    if a != "" && b != "" && a[0] == b[0] {
      LexTotal(a[1..], b[1..]);
      assert a == [a[0]] + a[1..] && b == [b[0]] + b[1..];
    }
  }

  lemma {:induction false} LexTransitive(a: string, b: string, c: string)
    requires Lex(a, b) && Lex(b, c)
    ensures Lex(a, c)
  {
    if a != "" && a[0] == b[0] == c[0] {
      LexTransitive(a[1..], b[1..], c[1..]);
    }
  }

  lemma {:induction false} StrNumMonotone(a: string, b: string)
    requires InAlphabet(a) && InAlphabet(b) && Lex(a, b)
    ensures StrNum(a) <= StrNum(b)
  {
    if a == "" {
      StrNumRange(b);
    } else if a[0] == b[0] {
      StrNumMonotone(a[1..], b[1..]);
    } else {
      StrNumRange(a[1..]);
      StrNumRange(b[1..]);
      assert Pos(a[0]) + 1 <= Pos(b[0]);
    }
  }

  predicate Zeros(s: string) {
    forall i :: 0 <= i < |s| ==> s[i] == '0'
  }

  lemma {:induction false} ZeroNum(s: string)
    requires InAlphabet(s)
    ensures StrNum(s) == 0.0 <==> Zeros(s)
  {
    if s != "" {
      ZeroNum(s[1..]);
      StrNumRange(s[1..]);
      assert Zeros(s) <==> s[0] == '0' && Zeros(s[1..]);
    }
  }

  /** Two texts in order spell the same number exactly when the greater one only has zeros more at its end. */
  lemma {:induction false} TiesAreZeros(a: string, b: string)
    requires InAlphabet(a) && InAlphabet(b) && Lex(a, b)
    ensures StrNum(a) == StrNum(b) <==> a <= b && Zeros(b[|a|..])
  {
    if a == "" {
      assert b[0..] == b;
      ZeroNum(b);
    } else if a[0] == b[0] {
      TiesAreZeros(a[1..], b[1..]);
      assert a == [a[0]] + a[1..] && b == [b[0]] + b[1..];
      assert a <= b ==> b[|a|..] == b[1..][|a| - 1..];
    } else {
      StrNumRange(a[1..]);
      StrNumRange(b[1..]);
      assert Pos(a[0]) + 1 <= Pos(b[0]);
    }
  }

  // ---------------------------------------------------------------- comparing string keys

  /** A string key as its owner passes it: characters of the alphabet and a final NUL, which is counted. */
  predicate Terminated(key: string) {
    key != "" && key[|key| - 1] == '\0' && InAlphabet(Text(key))
  }

  /** The store's comparison of two string keys. */
  method CmpStringCompare(a: string, b: string) returns (ret: int)
    requires Terminated(a) && Terminated(b)
    ensures ret == if Text(a) == Text(b) then 0 else if Lex(Text(a), Text(b)) then -1 else 1
  {
    var idx := 0;
    while a[idx] == b[idx] && a[idx] != '\0' && b[idx] != '\0' && idx < |a| && idx < |b|
      invariant 0 <= idx < |a| && idx < |b|
      invariant a[..idx] == b[..idx]
      invariant Lex(Text(a), Text(b)) <==> Lex(Text(a)[idx..], Text(b)[idx..])
      invariant idx <= |Text(a)| && idx <= |Text(b)|
      decreases |a| - idx
    {
      assert Text(a)[idx..][1..] == Text(a)[idx + 1..] && Text(b)[idx..][1..] == Text(b)[idx + 1..];
      idx := idx + 1;
    }
    EndsAtNul(a, idx);
    EndsAtNul(b, idx);
    if (a[idx] == '\0' && b[idx] == '\0') || (|a| == |b| && idx == |a|) {
      assert Text(a) == a[..idx] && Text(b) == b[..idx];
      return 0;
    } else if (|a| == idx || a[idx] == '\0') && |a| < |b| {
      assert |Text(a)| < |Text(b)|;
      return -1;
    } else if (|b| == idx || b[idx] == '\0') && |b| < |a| {
      assert |Text(b)| < |Text(a)|;
      return 1;
    } else if a[idx] > b[idx] {
      assert Text(a)[idx] != Text(b)[idx];
      return 1;
    }
    assert Text(a)[idx] != Text(b)[idx];
    return -1;
  }

  lemma EndsAtNul(s: string, i: nat)
    requires Terminated(s) && i < |s|
    ensures s[i] == '\0' <==> i == |s| - 1
  {
    assert i < |Text(s)| ==> Text(s)[i] == s[i] && Pos(Text(s)[i]) >= 0;
  }

  // ---------------------------------------------------------------- slices

  /** The number of keys all slices together can take, in 64 bits. */
  function TotalKeys(recs: nat): (total: nat)
    ensures total <= MDHIM_MAX_SLICES * recs
  {
    MDHIM_MAX_SLICES * recs % UINT64
  }

  /** The place of a valid key in the range that the slices cut up. */
  function KeyNum(key: Key, recs: nat): int {
    match key
    case IntKey(value) => value
    case StringKey(chars) => (StrNum(Text(chars)) * TotalKeys(recs) as real).Floor
  }

  lemma KeyNumRange(key: Key, recs: nat)
    requires recs > 0 && ValidKey(key, recs)
    ensures 0 <= KeyNum(key, recs) < MDHIM_MAX_SLICES * recs
  {
    hide StrNum, TotalKeys, Quotient;
    match key
    case IntKey(value) =>
      QuotientBelow(value, MDHIM_MAX_SLICES, recs);
    case StringKey(chars) =>
      StrNumRange(Text(chars));
      ScaledFloor(StrNum(Text(chars)), TotalKeys(recs));
      assert MDHIM_MAX_SLICES * recs > 0;
  }

  /** A number below one scales to a number below the scale. */
  lemma ScaledFloor(x: real, n: nat)
    requires 0.0 <= x < 1.0
    ensures 0 <= (x * n as real).Floor
    ensures n > 0 ==> (x * n as real).Floor < n
    ensures n == 0 ==> (x * n as real).Floor == 0
  {
    var m := n as real;
    Product(x, m);
    var y := x * m;
    assert n > 0 ==> y < m;
    assert n == 0 ==> y == 0.0;
    assert y.Floor as real <= y;
  }

  lemma Product(x: real, m: real)
    requires 0.0 <= x < 1.0 && m >= 0.0
    ensures 0.0 <= x * m && (m > 0.0 ==> x * m < m) && (m == 0.0 ==> x * m == 0.0)
  {
  }

  lemma ScaleMonotone(x: real, y: real, n: nat)
    requires x <= y
    ensures (x * n as real).Floor <= (y * n as real).Floor
  {
    ProductMonotone(x, y, n as real);
    var a, b := x * n as real, y * n as real;
    assert a <= b;
  }

  lemma ProductMonotone(x: real, y: real, m: real)
    requires x <= y && m >= 0.0
    ensures x * m <= y * m
  {
    assert (y - x) * m >= 0.0;
  }

  function GetSliceNum(key: Key, recs: nat): int
    requires recs > 0
  {
    if !ValidKey(key, recs) then MDHIM_ERROR
    else
      KeyNumRange(key, recs);
      Quotient(KeyNum(key, recs), recs)
  }

  /** A valid key has one of the slices; any other has none. */
  lemma SliceInRange(key: Key, recs: nat)
    requires recs > 0
    ensures ValidKey(key, recs) ==> 0 <= GetSliceNum(key, recs) < MDHIM_MAX_SLICES
    ensures GetSliceNum(key, recs) == MDHIM_ERROR <==> !ValidKey(key, recs)
  {
    if ValidKey(key, recs) {
      KeyNumRange(key, recs);
      QuotientBelow(KeyNum(key, recs), MDHIM_MAX_SLICES, recs);
    }
  }

  /** An integer key is in slice s exactly when it is among the recs keys from s times recs on. */
  lemma SliceOfInt(value: nat, recs: nat, s: nat)
    requires recs > 0 && value < 2147483647 * recs
    ensures GetSliceNum(IntKey(value), recs) == s <==> s * recs <= value < (s + 1) * recs
  {
    ValidKeys(IntKey(value), recs);
    SliceAt(IntKey(value), recs, s);
  }

  /** A string key is in slice s exactly when its number, scaled to the number of all keys in 64 bits and cut, is. */
  lemma SliceOfString(chars: string, recs: nat, s: nat)
    requires recs > 0 && ValidKey(StringKey(chars), recs)
    ensures GetSliceNum(StringKey(chars), recs) == s <==>
            s * recs <= (StrNum(Text(chars)) * (2147483647 * recs % 0x1_0000_0000_0000_0000) as real).Floor < (s + 1) * recs
  {
    hide StrNum, ValidKey, GetSliceNum;
    SliceAt(StringKey(chars), recs, s);
  }

  lemma SliceAt(key: Key, recs: nat, s: nat)
    requires recs > 0 && ValidKey(key, recs)
    ensures GetSliceNum(key, recs) == s <==> s * recs <= KeyNum(key, recs) < (s + 1) * recs
  {
    hide KeyNum, ValidKey;
    KeyNumRange(key, recs);
    var num := KeyNum(key, recs);
    QuotientBelow(num, s + 1, recs);
    QuotientBelow(num, s, recs);
  }

  /** As long as the number of all keys fits 64 bits, slice s holds the texts whose numbers, scaled to the number
      of slices, are from s up to s + 1. */
  lemma SliceOfText(chars: string, recs: nat, s: nat)
    requires recs > 0 && ValidKey(StringKey(chars), recs) && 2147483647 * recs < 0x1_0000_0000_0000_0000
    ensures GetSliceNum(StringKey(chars), recs) == s <==>
            s as real <= StrNum(Text(chars)) * 2147483647.0 < (s + 1) as real
  {
    hide StrNum, ValidKey, GetSliceNum;
    SliceOfString(chars, recs, s);
    var total := 2147483647 * recs;
    assert total % 0x1_0000_0000_0000_0000 == total;
    var x := StrNum(Text(chars));
    ScaledBack(x, recs, s);
    ScaledBack(x, recs, s + 1);
  }

  /** A multiple of recs is at most the scaled number exactly when its factor is at most the number of slices' worth. */
  lemma ScaledBack(x: real, recs: nat, s: nat)
    requires recs > 0
    ensures s * recs <= (x * (2147483647 * recs) as real).Floor <==> s as real <= x * 2147483647.0
  {
    var y := x * 2147483647.0;
    var r := recs as real;
    assert (2147483647 * recs) as real == 2147483647.0 * r;
    assert x * (2147483647.0 * r) == y * r;
    assert (s * recs) as real == s as real * r;
    FactorOut(s as real, y, r);
    FloorAtLeast(y * r, s * recs);
  }

  lemma FactorOut(a: real, b: real, r: real)
    requires r > 0.0
    ensures a * r <= b * r <==> a <= b
  {
    assert (b - a) * r == b * r - a * r;
  }

  lemma FloorAtLeast(x: real, n: int)
    ensures n <= x.Floor <==> n as real <= x
  {
  }

  /** The order of keys of one kind: numbers, or texts. */
  predicate KeyLe(a: Key, b: Key) {
    (a.IntKey? && b.IntKey? && a.value <= b.value) || (a.StringKey? && b.StringKey? && Lex(Text(a.chars), Text(b.chars)))
  }

  /** The store has b behind a. */
  predicate KeyLt(a: Key, b: Key) {
    KeyLe(a, b) && !KeyLe(b, a)
  }

  /** Slicing keeps the order of keys, whether or not the number of all keys fits 64 bits. */
  lemma SlicingKeepsOrder(a: Key, b: Key, recs: nat)
    requires recs > 0 && ValidKey(a, recs) && ValidKey(b, recs) && KeyLe(a, b)
    ensures KeyNum(a, recs) <= KeyNum(b, recs)
    ensures GetSliceNum(a, recs) <= GetSliceNum(b, recs)
  {
    hide StrNum, TotalKeys, Quotient, Lex;
    KeyNumRange(a, recs);
    KeyNumRange(b, recs);
    if a.StringKey? {
      StrNumMonotone(Text(a.chars), Text(b.chars));
      ScaleMonotone(StrNum(Text(a.chars)), StrNum(Text(b.chars)), TotalKeys(recs));
    }
    QuotientMonotone(KeyNum(a, recs), KeyNum(b, recs), recs);
  }
}
