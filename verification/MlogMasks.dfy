/**
  The log's facility masks as text: the printer that writes the mask of every facility by name, and
  the parser that reads such text and sets the masks.
 */
module MlogMasks {
  import opened Options

  const MLOG_PRISHIFT := 0x100000
  const MLOG_DPRISHIFT := 0x10000
  const MLOG_ERR := 0x400000
  const MLOG_DBG := 0xf0000

  // ---------------------------------------------------------------- priorities as text

  /** The two tables of symbolic names. */
  function Norm(i: nat): (s: string)
    ensures |s| == 4
  {
    if i == 0 then "DBUG"
    else if i == 1 then "INFO"
    else if i == 2 then "NOTE"
    else if i == 3 then "WARN"
    else if i == 4 then "ERR "
    else if i == 5 then "CRIT"
    else if i == 6 then "ALRT"
    else "EMRG"
  }

  function Dbg(i: nat): (s: string)
    ensures |s| == 4
  {
    if i == 0 then "D---"
    else if i == 1 then "D3--"
    else if i == 2 then "D2--"
    else if i == 3 then "D23-"
    else if i == 4 then "D1--"
    else if i == 5 then "D13-"
    else if i == 6 then "D12-"
    else if i == 7 then "D123"
    else if i == 8 then "D0--"
    else if i == 9 then "D03-"
    else if i == 10 then "D02-"
    else if i == 11 then "D023"
    else if i == 12 then "D01-"
    else if i == 13 then "D013"
    else if i == 14 then "D012"
    else "DBUG"
  }

  function Level(mask: nat): (l: nat)
    ensures l < 8
  {
    mask / MLOG_PRISHIFT % 8
  }

  function Debug(mask: nat): (d: nat)
    ensures d < 16
  {
    mask / MLOG_DPRISHIFT % 16
  }

  /** The name a mask is printed under: its level, or its debug bits when the level is zero. */
  function PriStr(mask: nat): string {
    if Level(mask) != 0 then Norm(Level(mask)) else Dbg(Debug(mask))
  }

  function Lower(c: char): char {
    if 'A' <= c <= 'Z' then c + 32 as char else c
  }

  /** Equality of strings regardless of case. */
  predicate SameText(a: string, b: string) {
    |a| == |b| && forall i :: 0 <= i < |a| ==> Lower(a[i]) == Lower(b[i])
  }

  function FirstNorm(s: string, i: nat): (n: nat)
    ensures n <= 8 || n == i
    decreases 8 - i
  {
    if i > 7 then i else if SameText(s, Norm(i)) then i else FirstNorm(s, i + 1)
  }

  function FirstDbg(s: string, i: nat): (n: nat)
    ensures n <= 16 || n == i
    decreases 16 - i
  {
    if i > 15 then i else if SameText(s, Dbg(i)) then i else FirstDbg(s, i + 1)
  }

  function Pad(s: string): string
    decreases 4 - |s|
  {
    if |s| < 4 then Pad(s + "-") else s
  }

  /** What a text means as a priority, -1 when it means none. */
  function Priority(pstr: string): (pri: int)
    ensures pri >= -1
  {
    if |pstr| > 5 then -1
    else if SameText(pstr, "ERR") then MLOG_ERR
    else if SameText(pstr, "DEBUG") then MLOG_DBG
    else
      var s := if pstr != "" && pstr[0] == 'D' then Pad(pstr) else pstr;
      if FirstNorm(s, 1) <= 7 then FirstNorm(s, 1) * MLOG_PRISHIFT
      else if FirstDbg(s, 0) <= 15 then FirstDbg(s, 0) * MLOG_DPRISHIFT
      else -1
  }

  method Str2Pri(pstr: string) returns (pri: int)
    ensures pri == Priority(pstr)
  {
    hide SameText, Norm, Dbg;
    if |pstr| > 5 {
      return -1;
    }
    var ptmp := pstr;
    if SameText(ptmp, "ERR") {
      return MLOG_ERR;
    }
    if SameText(ptmp, "DEBUG") {
      return MLOG_DBG;
    }
    if ptmp != "" && ptmp[0] == 'D' {
      while |ptmp| < 4
        invariant Pad(ptmp) == Pad(pstr)
        decreases 4 - |ptmp|
      {
        ptmp := ptmp + "-";
      }
    }
    for lcv := 1 to 8
      invariant FirstNorm(ptmp, lcv) == FirstNorm(ptmp, 1)
    {
      if SameText(ptmp, Norm(lcv)) {
        return lcv * MLOG_PRISHIFT;
      }
    }
    for lcv := 0 to 16
      invariant FirstDbg(ptmp, lcv) == FirstDbg(ptmp, 0)
    {
      if SameText(ptmp, Dbg(lcv)) {
        return lcv * MLOG_DPRISHIFT;
      }
    }
    return -1;
  }

  // ---------------------------------------------------------------- the priority round trip

  /** The part of a name before its padding. */
  function Trim(s: string): string {
    if s == "" || s[0] == ' ' || s[0] == '-' then "" else [s[0]] + Trim(s[1..])
  }

  lemma {:induction false} TrimIs(s: string, k: nat)
    requires k <= |s| && (forall i :: 0 <= i < k ==> s[i] != ' ' && s[i] != '-') && (k < |s| ==> s[k] == ' ' || s[k] == '-')
    ensures Trim(s) == s[..k]
  {
    if k > 0 {
      TrimIs(s[1..], k - 1);
      assert s[..k] == [s[0]] + s[1..][..k - 1];
    }
  }

  lemma {:induction false} PadIs(s: string, k: nat)
    requires k <= |s| == 4 && forall i :: k <= i < 4 ==> s[i] == '-'
    ensures Pad(s[..k]) == s
    decreases 4 - k
  {
    if k < 4 {
      PadIs(s, k + 1);
      assert s[..k] + "-" == s[..k + 1];
    } else {
      assert s[..k] == s;
    }
  }

  /** A number for the lower-case form of a name of four characters. */
  function Code(s: string): int
    requires |s| == 4
  {
    ((Lower(s[0]) as int * 256 + Lower(s[1]) as int) * 256 + Lower(s[2]) as int) * 256 + Lower(s[3]) as int
  }

  lemma SameTextSameCode(a: string, b: string)
    requires |a| == |b| == 4 && SameText(a, b)
    ensures Code(a) == Code(b)
  {
  }

  /** The codes of the names in the two tables, worked out: comparing them tells the names apart. */
  function NormCode(i: nat): int {
    if i == 0 then 1684174183
    else if i == 1 then 1768842863
    else if i == 2 then 1852798053
    else if i == 3 then 2002874990
    else if i == 4 then 1701999136
    else if i == 5 then 1668442484
    else if i == 6 then 1634497140
    else 1701671527
  }

  function DbgCode(i: nat): int {
    if i == 0 then 1680682285
    else if i == 1 then 1681075501
    else if i == 2 then 1681009965
    else if i == 3 then 1681011501
    else if i == 4 then 1680944429
    else if i == 5 then 1680945965
    else if i == 6 then 1680945709
    else if i == 7 then 1680945715
    else if i == 8 then 1680878893
    else if i == 9 then 1680880429
    else if i == 10 then 1680880173
    else if i == 11 then 1680880179
    else if i == 12 then 1680879917
    else if i == 13 then 1680879923
    else if i == 14 then 1680879922
    else 1684174183
  }

  function DbgLength(i: nat): (k: nat)
    ensures 1 <= k <= 4
  {
    if i == 0 then 1
    else if i == 1 then 2
    else if i == 2 then 2
    else if i == 3 then 3
    else if i == 4 then 2
    else if i == 5 then 3
    else if i == 6 then 3
    else if i == 7 then 4
    else if i == 8 then 2
    else if i == 9 then 3
    else if i == 10 then 3
    else if i == 11 then 4
    else if i == 12 then 3
    else if i == 13 then 4
    else if i == 14 then 4
    else 4
  }

  lemma NormCodes(i: nat)
    requires i < 8
    ensures Code(Norm(i)) == NormCode(i)
  {
  }

  lemma DbgCodes(i: nat)
    requires i < 16
    ensures Code(Dbg(i)) == DbgCode(i)
  {
  }

  lemma DbgShape(i: nat)
    requires i < 16
    ensures var s, k := Dbg(i), DbgLength(i);
            && s[0] == 'D' && (forall j :: 0 <= j < k ==> s[j] != ' ' && s[j] != '-') && (forall j :: k <= j < 4 ==> s[j] == '-')
  {
  }

  lemma {:induction false} FindsDbg(d: nat, i: nat)
    requires i <= d < 16
    ensures FirstDbg(Dbg(d), i) == d
    decreases d - i
  {
    if i < d {
      DbgCodes(d);
      DbgCodes(i);
      if SameText(Dbg(d), Dbg(i)) {
        SameTextSameCode(Dbg(d), Dbg(i));
        assert false;
      }
      FindsDbg(d, i + 1);
    }
  }

  lemma {:induction false} NoNormIsDbg(d: nat, i: nat)
    requires d < 16 && 1 <= i <= 8
    ensures FirstNorm(Dbg(d), i) == 8
    decreases 8 - i
  {
    if i < 8 {
      NormCodes(i);
      DbgCodes(d);
      if SameText(Dbg(d), Norm(i)) {
        SameTextSameCode(Dbg(d), Norm(i));
        assert false;
      }
      NoNormIsDbg(d, i + 1);
    }
  }

  lemma {:induction false} FindsNorm(n: nat, i: nat)
    requires 1 <= i <= n < 8
    ensures FirstNorm(Norm(n), i) == n
    decreases n - i
  {
    if i < n {
      NormCodes(n);
      NormCodes(i);
      if SameText(Norm(n), Norm(i)) {
        SameTextSameCode(Norm(n), Norm(i));
        assert false;
      }
      FindsNorm(n, i + 1);
    }
  }

  /** What is left of a mask that goes through text: its level, or its debug bits when it has no level. */
  function Kept(mask: nat): nat {
    if Level(mask) != 0 then Level(mask) * MLOG_PRISHIFT else Debug(mask) * MLOG_DPRISHIFT
  }

  lemma NormShape(n: nat)
    requires 1 <= n < 8 && n != 4
    ensures Norm(n)[0] != 'D' && forall j :: 0 <= j < 4 ==> Norm(n)[j] != ' ' && Norm(n)[j] != '-'
  {
  }

  lemma PlainPriority(t: string)
    requires |t| == 4 && t[0] != 'D' && FirstNorm(t, 1) <= 7
    ensures Priority(t) == FirstNorm(t, 1) * MLOG_PRISHIFT
  {
    hide FirstNorm, FirstDbg;
  }

  lemma LevelName(n: nat)
    requires 1 <= n < 8
    ensures var t := Trim(Norm(n)); Priority(t) == n * MLOG_PRISHIFT && 1 <= |t| <= 4 && t <= Norm(n)
  {
    hide Norm, Priority, FirstNorm, FirstDbg;
    if n == 4 {
      ErrName();
    } else {
      NormShape(n);
      TrimIs(Norm(n), 4);
      assert Norm(n)[..4] == Norm(n);
      FindsNorm(n, 1);
      PlainPriority(Norm(n));
    }
  }

  lemma ErrName()
    ensures var t := Trim(Norm(4)); Priority(t) == MLOG_ERR && |t| == 3 && t <= Norm(4)
  {
    TrimIs(Norm(4), 3);
    assert Norm(4)[..3] == "ERR";
  }

  lemma PaddedPriority(t: string)
    requires 1 <= |t| <= 4 && t[0] == 'D'
    ensures var s := Pad(t);
            Priority(t) == if FirstNorm(s, 1) <= 7 then FirstNorm(s, 1) * MLOG_PRISHIFT
                           else if FirstDbg(s, 0) <= 15 then FirstDbg(s, 0) * MLOG_DPRISHIFT
                           else -1
  {
    hide Pad, FirstNorm, FirstDbg;
    assert Lower(t[0]) != Lower("ERR"[0]);
  }

  lemma DebugName(d: nat)
    requires d < 16
    ensures var t := Trim(Dbg(d)); Priority(t) == d * MLOG_DPRISHIFT && 1 <= |t| <= 4 && t <= Dbg(d)
  {
    hide Dbg, DbgLength, Priority, Pad, FirstNorm, FirstDbg;
    var k := DbgLength(d);
    DbgShape(d);
    TrimIs(Dbg(d), k);
    PadIs(Dbg(d), k);
    NoNormIsDbg(d, 1);
    FindsDbg(d, 0);
    PaddedPriority(Dbg(d)[..k]);
  }

  /** The printed name of a mask, without padding, means the part of the mask that is kept. */
  lemma PriorityRoundTrip(mask: nat)
    ensures var t := Trim(PriStr(mask)); Priority(t) == Kept(mask) && 1 <= |t| <= 4 && t <= PriStr(mask)
    ensures Kept(mask) == if mask / 0x100000 % 8 != 0 then mask / 0x100000 % 8 * 0x100000 else mask / 0x10000 % 16 * 0x10000
  {
    if Level(mask) != 0 {
      LevelName(Level(mask));
    } else {
      DebugName(Debug(mask));
    }
  }

  /** A mask survives exactly when it is a level alone or debug bits alone. */
  lemma KeptExactly(mask: nat)
    ensures Kept(mask) == mask <==> (exists l: nat :: l < 8 && mask == l * MLOG_PRISHIFT) || (exists d: nat :: d < 16 && mask == d * MLOG_DPRISHIFT)
  {
    assert Kept(mask) == Level(mask) * MLOG_PRISHIFT || Kept(mask) == Debug(mask) * MLOG_DPRISHIFT;
  }

  // ---------------------------------------------------------------- the printer

  /** A facility has a short and a long name, either of which may be missing. */
  datatype Facility = Facility(aname: Option<string>, lname: Option<string>, mask: nat)

  function Digits(n: nat): string {
    (if n < 10 then "" else Digits(n / 10)) + [(n % 10) as char + '0']
  }

  /** The name a facility is printed under. */
  function Name(f: Facility, facno: nat): string {
    if f.lname.Some? then f.lname.value else if f.aname.Some? then f.aname.value else Digits(facno)
  }

  function Entry(f: Facility, facno: nat): string {
    Name(f, facno) + "=" + Trim(PriStr(f.mask))
  }

  /** The text of the facilities from one on. */
  function EntriesFrom(facs: seq<Facility>, facno: nat): string
    decreases |facs| - facno
  {
    if facno >= |facs| then ""
    else (if facno > 0 then "," else "") + Entry(facs[facno], facno) + EntriesFrom(facs, facno + 1)
  }

  function MasksText(facs: seq<Facility>): string {
    EntriesFrom(facs, 0) + "\n"
  }

  /** The part of a text that a caller who discards so many bytes and has room for so many gets. */
  function Part(text: string, discard: int, len: int): string {
    var rest := if discard <= 0 then text else if discard <= |text| then text[discard..] else "";
    if len <= 0 then "" else if len <= |rest| then rest[..len] else rest
  }

  /** The printer's output: what has been copied out, what is still to be skipped, the room left, and the bytes so far. */
  class Output {
    const hasBuffer: bool
    var out: string
    var skip: int
    var resid: int
    var total: nat

    ghost const discard: int
    ghost const len: int
    ghost var text: string

    ghost predicate Valid()
      reads this
    {
      && total == |text| && resid == len - |out|
      && skip == (if discard <= 0 then discard else if discard <= |text| then 0 else discard - |text|)
      && out == if hasBuffer then Part(text, discard, len) else ""
    }

    constructor (hasBuffer: bool, discard: int, len: int)
      ensures Valid() && text == "" && this.hasBuffer == hasBuffer && this.discard == discard && this.len == len
    {
      this.hasBuffer, this.discard, this.len := hasBuffer, discard, len;
      out, skip, resid, total, text := "", discard, len, 0, "";
    }

    /** Every byte is counted; those to be discarded are skipped, and the rest copied while there is room. */
    method PutByte(c: char)
      requires Valid()
      modifies this
      ensures Valid() && text == old(text) + [c]
    {
      total := total + 1;
      text := text + [c];
      if skip > 0 {
        skip := skip - 1;
        return;
      }
      if resid > 0 && hasBuffer {
        out := out + [c];
        resid := resid - 1;
      }
    }

    method Put(str: string)
      requires Valid()
      modifies this
      ensures Valid() && text == old(text) + str
    {
      hide Valid;
      for sp := 0 to |str|
        invariant Valid() && text == old(text) + str[..sp]
      {
        PutByte(str[sp]);
      }
    }

    /** The name of a mask up to its padding. */
    method PutMask(mask: nat)
      requires Valid()
      modifies this
      ensures Valid() && text == old(text) + Trim(PriStr(mask))
    {
      hide Valid, PriStr;
      var p := PriStr(mask);
      var i := 0;
      while i < |p| && p[i] != ' ' && p[i] != '-'
        invariant 0 <= i <= |p| && Valid()
        invariant text + Trim(p[i..]) == old(text) + Trim(p)
      {
        PutByte(p[i]);
        assert p[i..][1..] == p[i + 1..];
        i := i + 1;
      }
    }

    method PutEntry(f: Facility, facno: nat)
      requires Valid()
      modifies this
      ensures Valid() && text == old(text) + ((if facno > 0 then "," else "") + Entry(f, facno))
    {
      hide Valid, Name, PriStr, Trim;
      if facno > 0 {
        Put(",");
      }
      Put(Name(f, facno));
      Put("=");
      PutMask(f.mask);
    }

    method PutMasks(facs: seq<Facility>, unterm: bool)
      requires Valid()
      modifies this
      ensures Valid() && text == old(text) + (MasksText(facs) + (if unterm then "" else "\0"))
    {
      hide Valid, Entry;
      for facno := 0 to |facs|
        invariant Valid() && text + EntriesFrom(facs, facno) == old(text) + EntriesFrom(facs, 0)
      {
        ghost var before, here := text, (if facno > 0 then "," else "") + Entry(facs[facno], facno);
        PutEntry(facs[facno], facno);
        assert before + (here + EntriesFrom(facs, facno + 1)) == before + here + EntriesFrom(facs, facno + 1);
      }
      ghost var start, entries := old(text), EntriesFrom(facs, 0);
      assert text + "" == text;
      Put("\n");
      assert start + entries + "\n" == start + (entries + "\n" + "");
      if !unterm {
        Put("\0");
        assert start + entries + "\n" + "\0" == start + (entries + "\n" + "\0");
      }
    }
  }

  /** The printer: an entry per facility with commas between them, a newline, and a NUL unless it is not wanted. */
  method GetMasks(facs: seq<Facility>, hasBuffer: bool, discard: int, len: int, unterm: bool) returns (rv: int, buf: string)
    ensures var text := MasksText(facs) + (if unterm then "" else "\0");
            && buf == (if hasBuffer then Part(text, discard, len) else "")
            && rv == if hasBuffer then |buf| else |text|
  {
    hide MasksText;
    var o := new Output(hasBuffer, discard, len);
    o.PutMasks(facs, unterm);
    assert o.Valid();
    buf := o.out;
    rv := if !hasBuffer then o.total else len - o.resid;
  }

  // ---------------------------------------------------------------- the parser

  function IndexOf(s: string, c: char): (i: nat)
    ensures i <= |s| && (i < |s| ==> s[i] == c) && forall j :: 0 <= j < i ==> s[j] != c
  {
    if s == "" || s[0] == c then 0 else 1 + IndexOf(s[1..], c)
  }

  /** A text without blanks and newlines at its end. */
  function TrimEnd(s: string): (r: string)
    ensures r <= s && (forall i :: |r| <= i < |s| ==> s[i] == '\n' || s[i] == ' ' || s[i] == '\t')
    ensures r != "" ==> r[|r| - 1] != '\n' && r[|r| - 1] != ' ' && r[|r| - 1] != '\t'
  {
    if s != "" && s[|s| - 1] in {'\n', ' ', '\t'} then TrimEnd(s[..|s| - 1]) else s
  }

  function SkipBlanks(s: string): string {
    if s != "" && s[0] in {' ', '\t'} then SkipBlanks(s[1..]) else s
  }

  /** The blanks at the start are skipped, and nothing else. */
  lemma {:induction false} SkippedBlanks(s: string)
    ensures var n := |s| - |SkipBlanks(s)|;
            && 0 <= n && SkipBlanks(s) == s[n..] && (forall i :: 0 <= i < n ==> s[i] == ' ' || s[i] == '\t')
            && (n < |s| ==> s[n] != ' ' && s[n] != '\t')
  {
    if s != "" && s[0] in {' ', '\t'} {
      SkippedBlanks(s[1..]);
      assert forall i :: 0 <= i < |s| - 1 ==> s[1..][i] == s[i + 1];
    }
  }

  predicate Named(f: Facility, name: string) {
    (f.aname.Some? && SameText(f.aname.value, name)) || (f.lname.Some? && SameText(f.lname.value, name))
  }

  function FindFacility(facs: seq<Facility>, name: string, i: nat): (n: nat)
    ensures n <= |facs| || n == i
    ensures (n < |facs| ==> Named(facs[n], name)) && forall j :: i <= j < n && j < |facs| ==> !Named(facs[j], name)
    decreases |facs| - i
  {
    if i >= |facs| then i else if Named(facs[i], name) then i else FindFacility(facs, name, i + 1)
  }

  function SetAll(facs: seq<Facility>, mask: nat): seq<Facility> {
    seq(|facs|, i requires 0 <= i < |facs| => facs[i].(mask := mask))
  }

  /** One entry of the text: for one facility, or for all when it names none. */
  function ApplyEntry(facs: seq<Facility>, entry: string, last: bool): (r: seq<Facility>)
    ensures |r| == |facs|
  {
    var elen := IndexOf(entry, '=');
    var pri0 := if elen < |entry| then entry[elen + 1..] else entry;
    var pri1 := if last then TrimEnd(pri0) else pri0;
    var prino := if |pri1| > 5 then -1 else Priority(pri1[..IndexOf(pri1, '\0')]);
    if prino < 0 then facs
    else if elen < |entry| then
      var facno := FindFacility(facs, entry[..elen], 0);
      if facno < |facs| then facs[facno := facs[facno].(mask := prino)] else facs
    else SetAll(facs, prino)
  }

  function ApplyText(facs: seq<Facility>, text: string): (r: seq<Facility>)
    ensures |r| == |facs|
    decreases |text|
  {
    var clen := IndexOf(text, ',');
    var facs' := if clen == 0 then facs else ApplyEntry(facs, text[..clen], clen == |text|);
    if clen < |text| then ApplyText(facs', text[clen + 1..]) else facs'
  }

  /** The parser, over the facilities' array. */
  method SetMasks(facs: array<Facility>, mstr: string)
    modifies facs
    ensures facs[..] == if SkipBlanks(mstr) == "" then old(facs[..]) else ApplyText(old(facs[..]), SkipBlanks(mstr))
  {
    hide ApplyEntry;
    var m := mstr;
    while |m| > 0 && (m[0] == ' ' || m[0] == '\t')
      invariant SkipBlanks(m) == SkipBlanks(mstr)
      decreases |m|
    {
      m := m[1..];
    }
    if |m| <= 0 {
      return;
    }
    ghost var goal := ApplyText(facs[..], m);
    var more := true;
    while more
      invariant goal == if more then ApplyText(facs[..], m) else facs[..]
      decreases more, |m|
    {
      var clen := EntryLength(m);
      var current := m[..clen];
      if clen < |m| {
        m := m[clen + 1..];
      } else {
        more := false;
      }
      if clen > 0 {
        SetEntry(facs, current, !more);
      }
    }
  }

  method EntryLength(m: string) returns (clen: nat)
    ensures clen == IndexOf(m, ',')
  {
    clen := 0;
    while clen < |m| && m[clen] != ','
      invariant 0 <= clen <= |m| && forall j :: 0 <= j < clen ==> m[j] != ','
    {
      clen := clen + 1;
    }
    IndexIs(m, ',', clen);
  }

  lemma IndexIs(s: string, c: char, i: nat)
    requires i <= |s| && (i < |s| ==> s[i] == c) && forall j :: 0 <= j < i ==> s[j] != c
    ensures IndexOf(s, c) == i
  {
  }

  /** The priority of an entry; the last entry may have white space behind it. */
  method EntryPriority(pri0: string, last: bool) returns (prino: int)
    ensures var pri1 := if last then TrimEnd(pri0) else pri0;
            prino == if |pri1| > 5 then -1 else Priority(pri1[..IndexOf(pri1, '\0')])
  {
    hide Priority;
    var pri := pri0;
    if last {
      while |pri| > 0 && (pri[|pri| - 1] == '\n' || pri[|pri| - 1] == ' ' || pri[|pri| - 1] == '\t')
        invariant TrimEnd(pri) == TrimEnd(pri0)
        decreases |pri|
      {
        pri := pri[..|pri| - 1];
      }
    }
    prino := -1;
    if |pri| <= 5 {
      prino := Str2Pri(pri[..IndexOf(pri, '\0')]);
    }
  }

  /** An entry that names no facility, and is not too long to mean something. */
  predicate Word(entry: string) {
    |entry| <= 5 && forall i :: 0 <= i < |entry| ==> entry[i] != '=' && entry[i] != '\0'
  }

  method SetEntry(facs: array<Facility>, current: string, last: bool)
    modifies facs
    ensures facs[..] == ApplyEntry(old(facs[..]), current, last)
    ensures Word(current) && !last ==>
              forall i :: 0 <= i < facs.Length ==>
                facs[i].mask == if Priority(current) >= 0 then Priority(current) else old(facs[i]).mask
  {
    hide Priority, TrimEnd, Named;
    var elen := 0;
    while elen < |current| && current[elen] != '='
      invariant 0 <= elen <= |current| && forall j :: 0 <= j < elen ==> current[j] != '='
    {
      elen := elen + 1;
    }
    IndexIs(current, '=', elen);
    if Word(current) && !last {
      EntryForAll(facs[..], current, last);
    }
    hide IndexOf;
    var prino := EntryPriority(if elen < |current| then current[elen + 1..] else current, last);
    if prino == -1 {
      return;
    }
    if elen < |current| {
      SetOne(facs, current[..elen], prino);
    } else {
      SetEvery(facs, prino);
    }
  }

  method SetOne(facs: array<Facility>, name: string, prino: nat)
    modifies facs
    ensures var n, fs := FindFacility(old(facs[..]), name, 0), old(facs[..]);
            facs[..] == if n < |fs| then fs[n := fs[n].(mask := prino)] else fs
  {
    var facno := 0;
    while facno < facs.Length && !Named(facs[facno], name)
      invariant 0 <= facno <= facs.Length && FindFacility(facs[..], name, facno) == FindFacility(facs[..], name, 0)
    {
      facno := facno + 1;
    }
    if facno < facs.Length {
      facs[facno] := facs[facno].(mask := prino);
    }
  }

  method SetEvery(facs: array<Facility>, prino: nat)
    modifies facs
    ensures facs[..] == SetAll(old(facs[..]), prino)
    ensures forall i :: 0 <= i < facs.Length ==>
              facs[i].mask == prino && facs[i].aname == old(facs[i]).aname && facs[i].lname == old(facs[i]).lname
  {
    for facno := 0 to facs.Length
      invariant forall i :: 0 <= i < facs.Length ==> facs[i] == if i < facno then old(facs[i]).(mask := prino) else old(facs[i])
    {
      facs[facno] := facs[facno].(mask := prino);
    }
  }

  // ---------------------------------------------------------------- what the texts say

  /** Two texts are the same when they differ at most in the case of letters. */
  lemma SameTextMeans(a: string, b: string)
    ensures SameText(a, b) <==>
            |a| == |b| && forall i :: 0 <= i < |a| ==>
              || a[i] == b[i]
              || ('A' <= a[i] <= 'Z' && b[i] == a[i] + 32 as char)
              || ('A' <= b[i] <= 'Z' && a[i] == b[i] + 32 as char)
  {
  }

  /** A debug name lists the bits of its number, stream 0 being the highest. */
  lemma DebugNames(d: nat)
    requires d < 15
    ensures Trim(Dbg(d)) == "D" + (if d / 8 % 2 == 1 then "0" else "") + (if d / 4 % 2 == 1 then "1" else "")
                            + (if d / 2 % 2 == 1 then "2" else "") + (if d % 2 == 1 then "3" else "")
  {
    DbgShape(d);
    TrimIs(Dbg(d), DbgLength(d));
  }

  /** The words for the levels, and for all debug bits. */
  lemma Words()
    ensures Priority("INFO") == 0x100000 && Priority("NOTE") == 0x200000 && Priority("WARN") == 0x300000
    ensures Priority("ERR") == 0x400000 && Priority("CRIT") == 0x500000 && Priority("ALRT") == 0x600000
    ensures Priority("EMRG") == 0x700000 && Priority("DBUG") == 0xf0000 && Priority("DEBUG") == 0xf0000
  {
    hide Priority, Norm;
    LevelWords();
    ErrWord();
    assert forall n :: 1 <= n < 8 ==> |Norm(n)| == 4;
    LevelName(1);
    LevelName(2);
    LevelName(3);
    LevelName(5);
    LevelName(6);
    LevelName(7);
    DebugName(15);
  }

  lemma LevelWords()
    ensures Trim(Norm(1)) == "INFO" && Trim(Norm(2)) == "NOTE" && Trim(Norm(3)) == "WARN"
    ensures Trim(Norm(5)) == "CRIT" && Trim(Norm(6)) == "ALRT" && Trim(Norm(7)) == "EMRG" && Trim(Dbg(15)) == "DBUG"
  {
    hide Trim;
    WholeWord("INFO");
    WholeWord("NOTE");
    WholeWord("WARN");
    WholeWord("CRIT");
    WholeWord("ALRT");
    WholeWord("EMRG");
    WholeWord("DBUG");
  }

  lemma WholeWord(s: string)
    requires |s| == 4 && forall i :: 0 <= i < 4 ==> s[i] != ' ' && s[i] != '-'
    ensures Trim(s) == s
  {
    TrimIs(s, 4);
    assert s[..4] == s;
  }

  lemma ErrWord()
    ensures Priority("ERR") == 0x400000 && Priority("DEBUG") == 0xf0000
  {
    assert |"DEBUG"| != |"ERR"|;
  }

  /** Case does not matter to what a word means, but for a first D, which only as a capital is padded. */
  lemma CaseIgnored(a: string, b: string)
    requires SameText(a, b) && (a != "" ==> (a[0] == 'D' <==> b[0] == 'D'))
    ensures Priority(a) == Priority(b)
  {
    hide FirstNorm, FirstDbg;
    if a != "" && a[0] == 'D' {
      PadsAlike(a, b);
      SearchesAgree(Pad(a), Pad(b), 1);
      SearchesAgree(Pad(a), Pad(b), 0);
    } else {
      SearchesAgree(a, b, 1);
      SearchesAgree(a, b, 0);
    }
  }

  lemma {:induction false} PadsAlike(a: string, b: string)
    requires SameText(a, b)
    ensures SameText(Pad(a), Pad(b))
    decreases 4 - |a|
  {
    if |a| < 4 {
      PadsAlike(a + "-", b + "-");
    }
  }

  lemma {:induction false} SearchesAgree(a: string, b: string, i: nat)
    requires SameText(a, b)
    ensures FirstNorm(a, i) == FirstNorm(b, i) && FirstDbg(a, i) == FirstDbg(b, i)
    decreases 16 - i
  {
    hide Norm, Dbg;
    if i <= 15 {
      SearchesAgree(a, b, i + 1);
    }
  }

  /** The number that a text of decimal digits spells. */
  ghost function Spelt(s: string): int {
    if s == "" then 0 else 10 * Spelt(s[..|s| - 1]) + s[|s| - 1] as int - 48
  }

  /** A facility without a name is printed as its decimal number, without a leading zero. */
  lemma {:induction false} DigitsSpell(n: nat)
    ensures Spelt(Digits(n)) == n && (n > 0 ==> Digits(n)[0] != '0')
    ensures Digits(n) != "" && forall i :: 0 <= i < |Digits(n)| ==> 48 <= Digits(n)[i] as int <= 57
  {
    if n >= 10 {
      DigitsSpell(n / 10);
      var s := Digits(n);
      assert s[..|s| - 1] == Digits(n / 10);
    } else {
      assert Digits(n)[..0] == "";
    }
  }

  /** What a caller gets, byte by byte. */
  lemma PartAt(text: string, discard: int, len: int)
    ensures var from, part := if discard < 0 then 0 else discard, Part(text, discard, len);
            && |part| == (if len <= 0 || |text| <= from then 0 else if len <= |text| - from then len else |text| - from)
            && forall i :: 0 <= i < |part| ==> part[i] == text[from + i]
  {
  }

  /** An entry that names no facility gives every facility the mask that it means, or is ignored. */
  lemma EntryForAll(facs: seq<Facility>, word: string, last: bool)
    requires Word(word) && (last && word != "" ==> word[|word| - 1] !in {'\n', ' ', '\t'})
    ensures var after := ApplyEntry(facs, word, last);
            forall i :: 0 <= i < |facs| ==>
              after[i].mask == if Priority(word) >= 0 then Priority(word) else facs[i].mask
  {
    hide Priority;
    IndexIs(word, '=', |word|);
    IndexIs(word, '\0', |word|);
    assert (last ==> TrimEnd(word) == word) && word[..|word|] == word;
  }

  /** A word by itself sets all facilities. */
  lemma WarnForAll(facs: seq<Facility>)
    ensures forall i :: 0 <= i < |facs| ==> ApplyText(facs, SkipBlanks("WARN"))[i].mask == 0x300000
  {
    hide Priority, ApplyEntry;
    Words();
    EntryForAll(facs, "WARN", true);
    IndexIs("WARN", ',', 4);
    assert "WARN"[..4] == "WARN";
  }

  /** A table of three, printed: commas between the entries, and a newline behind them. */
  lemma PrintedTable(a: Facility, b: Facility, c: Facility)
    ensures MasksText([a, b, c]) == Entry(a, 0) + "," + Entry(b, 1) + "," + Entry(c, 2) + "\n"
  {
    hide Entry;
    var facs := [a, b, c];
    assert EntriesFrom(facs, 3) == "";
    assert EntriesFrom(facs, 2) == "," + Entry(c, 2);
    assert EntriesFrom(facs, 1) == "," + Entry(b, 1) + ("," + Entry(c, 2));
    assert EntriesFrom(facs, 0) == Entry(a, 0) + ("," + Entry(b, 1) + ("," + Entry(c, 2)));
  }

  /** The long name is printed if there is one, then the short one, then the number. */
  lemma PrintedEntries()
    ensures Entry(Facility(Some("CLI"), Some("client"), 0x300000), 0) == "client=WARN"
    ensures Entry(Facility(Some("SRV"), None, 0x90000), 1) == "SRV=D03"
    ensures Entry(Facility(None, None, 0), 12) == "12=D"
  {
    hide Norm, Dbg, Trim;
    LevelWords();
    DebugNames(9);
    DebugNames(0);
    assert Level(0x300000) == 3 && Level(0x90000) == 0 && Debug(0x90000) == 9 && Level(0) == 0 && Debug(0) == 0;
    assert Digits(1) == "1" && Digits(12) == "12";
  }

  // ---------------------------------------------------------------- the round trip of a table

  ghost predicate SameNames(a: seq<Facility>, b: seq<Facility>) {
    |a| == |b| && forall i :: 0 <= i < |a| ==> a[i].aname == b[i].aname && a[i].lname == b[i].lname
  }

  ghost predicate Separable(name: string) {
    forall i :: 0 <= i < |name| ==> name[i] != ',' && name[i] != '='
  }

  predicate HasName(f: Facility) {
    f.aname.Some? || f.lname.Some?
  }

  /** The names that are printed hold no separator, and the first does not start with a blank. */
  ghost predicate Legible(facs: seq<Facility>) {
    && (forall i :: 0 <= i < |facs| && HasName(facs[i]) ==> Separable(Name(facs[i], i)))
    && (facs != [] && HasName(facs[0]) && Name(facs[0], 0) != "" ==> Name(facs[0], 0)[0] !in {' ', '\t'})
  }

  /** Every facility has a name, and no printed name means an earlier facility. */
  ghost predicate Distinguishable(facs: seq<Facility>) {
    && (forall i :: 0 <= i < |facs| ==> HasName(facs[i]))
    && (forall i, j :: 0 <= i < j < |facs| ==> !Named(facs[i], Name(facs[j], j)))
  }

  lemma {:induction false} DigitsAreDigits(n: nat)
    ensures Digits(n) != "" && forall i :: 0 <= i < |Digits(n)| ==> '0' <= Digits(n)[i] <= '9'
  {
    if n >= 10 {
      DigitsAreDigits(n / 10);
    }
  }

  lemma PrintedNamesAreSeparable(facs: seq<Facility>, i: nat)
    requires Legible(facs) && i < |facs|
    ensures Separable(Name(facs[i], i))
    ensures i == 0 && Name(facs[0], 0) != "" ==> Name(facs[0], 0)[0] !in {' ', '\t'}
  {
    DigitsAreDigits(i);
  }

  /** The facilities with what is kept of their masks. */
  ghost function Restored(facs: seq<Facility>): seq<Facility> {
    seq(|facs|, i requires 0 <= i < |facs| => facs[i].(mask := Kept(facs[i].mask)))
  }

  lemma NormIsPlain(n: nat, j: nat)
    requires n < 8 && j < 4
    ensures Norm(n)[j] !in {',', '=', '\n', '\t', '\0'}
  {
  }

  lemma DbgIsPlain(d: nat, j: nat)
    requires d < 16 && j < 4
    ensures Dbg(d)[j] !in {',', '=', '\n', '\t', '\0'}
  {
  }

  ghost predicate Plain(t: string) {
    forall j :: 0 <= j < |t| ==> t[j] !in {',', '=', '\n', '\t', '\0', ' '}
  }

  lemma {:induction false} TrimHasNoBlank(s: string)
    ensures forall j :: 0 <= j < |Trim(s)| ==> Trim(s)[j] != ' '
  {
    if s != "" && s[0] != ' ' && s[0] != '-' {
      TrimHasNoBlank(s[1..]);
    }
  }

  lemma PrintedIsPlain(mask: nat)
    ensures Plain(Trim(PriStr(mask)))
  {
    hide Norm, Dbg, Trim;
    var t := Trim(PriStr(mask));
    PriorityRoundTrip(mask);
    TrimHasNoBlank(PriStr(mask));
    forall j | 0 <= j < |t|
      ensures t[j] !in {',', '=', '\n', '\t', '\0', ' '}
    {
      assert t[j] == PriStr(mask)[j];
      if Level(mask) != 0 {
        NormIsPlain(Level(mask), j);
      } else {
        DbgIsPlain(Debug(mask), j);
      }
    }
  }

  lemma TrimEndOfPlain(t: string)
    requires Plain(t)
    ensures TrimEnd(t) == t && TrimEnd(t + "\n") == t
  {
    assert (t + "\n")[..|t|] == t;
  }

  /** A search finds the first facility that the name means. */
  lemma {:induction false} FindsFirst(facs: seq<Facility>, name: string, i: nat)
    requires i <= |facs|
    ensures var n := FindFacility(facs, name, i);
            && i <= n <= |facs| && (n < |facs| ==> Named(facs[n], name)) && forall k :: i <= k < n ==> !Named(facs[k], name)
    decreases |facs| - i
  {
    if i < |facs| && !Named(facs[i], name) {
      FindsFirst(facs, name, i + 1);
    }
  }

  lemma SameFind(a: seq<Facility>, b: seq<Facility>, name: string)
    requires SameNames(a, b)
    ensures FindFacility(a, name, 0) == FindFacility(b, name, 0) && |a| == |b|
  {
    var m, n := FindFacility(a, name, 0), FindFacility(b, name, 0);
    FindsFirst(a, name, 0);
    FindsFirst(b, name, 0);
    assert forall k :: 0 <= k < |a| ==> (Named(a[k], name) <==> Named(b[k], name));
  }

  /** Where a printed name leads the parser. */
  ghost function Target(facs: seq<Facility>, i: nat): nat
    requires i < |facs|
  {
    FindFacility(facs, Name(facs[i], i), 0)
  }

  lemma FindsItself(facs: seq<Facility>, i: nat)
    requires Distinguishable(facs) && i < |facs|
    ensures Target(facs, i) == i
  {
    FindsFirst(facs, Name(facs[i], i), 0);
    assert Named(facs[i], Name(facs[i], i));
  }

  /** What a printed entry does, when it is understood. */
  ghost function AfterEntry(facs: seq<Facility>, cur: seq<Facility>, i: nat, understood: bool): (r: seq<Facility>)
    requires i < |facs| == |cur|
    ensures |r| == |cur|
  {
    var n := Target(facs, i);
    if understood && n < |cur| then cur[n := cur[n].(mask := Kept(facs[i].mask))] else cur
  }

  /** What ends the text: the newline, and a NUL if the printer was to write one and its length is counted in. */
  predicate IsTail(tail: string) {
    tail == "\n" || tail == "\n\0"
  }

  /** A text with a newline in it is no priority. */
  lemma NewlineMeansNothing(t: string)
    requires |t| <= 4
    ensures Priority(t + "\n") == -1
  {
    var s := t + "\n";
    var padded := if s[0] == 'D' then Pad(s) else s;
    PadKeeps(s);
    assert s[|t|] == '\n' && padded[|t|] == '\n';
    NoWordHas(s, |t|);
    NoNormHas(padded, |t|, 1);
    NoDbgHas(padded, |t|, 0);
    hide FirstNorm, FirstDbg, Pad, SameText;
  }

  lemma NoWordHas(s: string, k: nat)
    requires k < |s| && s[k] == '\n'
    ensures !SameText(s, "ERR") && !SameText(s, "DEBUG")
  {
    if |s| == 3 {
      assert Lower(s[k]) != Lower("ERR"[k]);
    } else if |s| == 5 {
      assert Lower(s[k]) != Lower("DEBUG"[k]);
    }
  }

  lemma {:induction false} PadKeeps(s: string)
    ensures s <= Pad(s)
    decreases 4 - |s|
  {
    if |s| < 4 {
      PadKeeps(s + "-");
      assert s <= s + "-";
    }
  }

  lemma {:induction false} NoNormHas(s: string, k: nat, i: nat)
    requires k < |s| && s[k] == '\n' && i <= 8
    ensures FirstNorm(s, i) == 8
    decreases 8 - i
  {
    if i < 8 {
      if |s| == 4 {
        NormIsPlain(i, k);
        assert Lower(s[k]) != Lower(Norm(i)[k]);
      }
      NoNormHas(s, k, i + 1);
    }
  }

  lemma {:induction false} NoDbgHas(s: string, k: nat, i: nat)
    requires k < |s| && s[k] == '\n' && i <= 16
    ensures FirstDbg(s, i) == 16
    decreases 16 - i
  {
    if i < 16 {
      if |s| == 4 {
        DbgIsPlain(i, k);
        assert Lower(s[k]) != Lower(Dbg(i)[k]);
      }
      NoDbgHas(s, k, i + 1);
    }
  }

  /** The priority of a printed entry, with what ends the text behind it when it is the last. */
  lemma EntryPriorityIs(mask: nat, last: bool, tail: string)
    requires IsTail(tail)
    ensures var t := Trim(PriStr(mask));
            var pri := if last then TrimEnd(t + tail) else t;
            if last && tail == "\n\0" then |pri| > 5 || Priority(pri[..IndexOf(pri, '\0')]) == -1
            else |pri| <= 5 && Priority(pri[..IndexOf(pri, '\0')]) == Kept(mask)
  {
    hide Priority, Trim, PriStr, TrimEnd, Kept;
    var t := Trim(PriStr(mask));
    PriorityRoundTrip(mask);
    PrintedIsPlain(mask);
    if last && tail == "\n\0" {
      var pri := t + tail;
      NulStays(t);
      IndexIs(pri, '\0', |t| + 1);
      assert pri[..|t| + 1] == t + "\n";
      NewlineMeansNothing(t);
    } else {
      TrimEndOfPlain(t);
      IndexIs(t, '\0', |t|);
      assert t[..|t|] == t;
    }
  }

  lemma NulStays(t: string)
    ensures TrimEnd(t + "\n\0") == t + "\n\0"
  {
  }

  /** One printed entry, with what ends the text when it is the last, sets the facility its name means to what is kept of
      the mask it was printed from; but with a NUL behind it, it is not understood. */
  lemma EntryRoundTrip(facs: seq<Facility>, cur: seq<Facility>, i: nat, last: bool, tail: string)
    requires Legible(facs) && SameNames(facs, cur) && i < |facs| && IsTail(tail)
    ensures var e := Entry(facs[i], i) + (if last then tail else "");
            ApplyEntry(cur, e, last) == AfterEntry(facs, cur, i, !(last && tail == "\n\0")) && forall j :: 0 <= j < |e| ==> e[j] != ','
  {
    hide Priority, Trim, PriStr, TrimEnd, Kept, Legible, FindFacility, SameNames, Name, ApplyEntry;
    var name, t := Name(facs[i], i), Trim(PriStr(facs[i].mask));
    var end := if last then tail else "";
    PrintedIsPlain(facs[i].mask);
    PrintedNamesAreSeparable(facs, i);
    EntryPriorityIs(facs[i].mask, last, tail);
    SameFind(facs, cur, name);
    assert name + "=" + t + end == name + "=" + (t + end);
    assert t + "" == t;
    NamedEntry(cur, name, t + end, last);
  }

  /** What an entry with a name does. */
  lemma NamedEntry(cur: seq<Facility>, name: string, pri0: string, last: bool)
    requires Separable(name)
    ensures var pri := if last then TrimEnd(pri0) else pri0;
            var prino := if |pri| > 5 then -1 else Priority(pri[..IndexOf(pri, '\0')]);
            var n := FindFacility(cur, name, 0);
            ApplyEntry(cur, name + "=" + pri0, last)
            == if prino >= 0 && n < |cur| then cur[n := cur[n].(mask := prino)] else cur
  {
    hide Priority, TrimEnd, FindFacility;
    var e := name + "=" + pri0;
    assert e[|name|] == '=' && e[..|name|] == name && e[|name| + 1..] == pri0;
    IndexIs(e, '=', |name|);
  }

  /** The text from one facility on, without a comma in front. */
  ghost function RestFrom(facs: seq<Facility>, i: nat, tail: string): string
    requires i < |facs|
  {
    Entry(facs[i], i) + EntriesFrom(facs, i + 1) + tail
  }

  lemma RestSplits(facs: seq<Facility>, i: nat, tail: string)
    requires i < |facs|
    ensures RestFrom(facs, i, tail) == Entry(facs[i], i) + (if i + 1 == |facs| then tail else "," + RestFrom(facs, i + 1, tail))
  {
    hide Entry, EntriesFrom;
    var e := Entry(facs[i], i);
    EntriesStep(facs, i + 1);
    if i + 1 < |facs| {
      var f, later := Entry(facs[i + 1], i + 1), EntriesFrom(facs, i + 2);
      assert e + ("," + f + later) + tail == e + ("," + (f + later + tail));
    } else {
      assert e + "" == e;
    }
  }

  lemma EntriesStep(facs: seq<Facility>, i: nat)
    requires 0 < i <= |facs|
    ensures EntriesFrom(facs, i) == if i == |facs| then "" else "," + Entry(facs[i], i) + EntriesFrom(facs, i + 1)
  {
  }

  /** The parser takes one entry off the text. */
  lemma RestStep(facs: seq<Facility>, cur: seq<Facility>, i: nat, tail: string)
    requires Legible(facs) && SameNames(facs, cur) && i < |facs| && IsTail(tail)
    ensures var last := i + 1 == |facs|;
            var cur' := AfterEntry(facs, cur, i, !(last && tail == "\n\0"));
            && SameNames(facs, cur')
            && ApplyText(cur, RestFrom(facs, i, tail)) == if last then cur' else ApplyText(cur', RestFrom(facs, i + 1, tail))
  {
    hide ApplyEntry, Entry, Legible, Kept, IndexOf, EntriesFrom;
    RestSplits(facs, i, tail);
    var text, e, last := RestFrom(facs, i, tail), Entry(facs[i], i), i + 1 == |facs|;
    EntryRoundTrip(facs, cur, i, last, tail);
    EntryNotEmpty(facs[i], i);
    if last {
      IndexIs(text, ',', |text|);
      assert text[..|text|] == text;
    } else {
      assert e + "" == e;
      IndexIs(text, ',', |e|);
      assert text[..|e|] == e && text[|e| + 1..] == RestFrom(facs, i + 1, tail);
    }
  }

  lemma {:induction false} RestRoundTrip(facs: seq<Facility>, cur: seq<Facility>, i: nat, tail: string)
    requires Legible(facs) && Distinguishable(facs) && SameNames(facs, cur) && i < |facs| && IsTail(tail)
    requires forall j :: 0 <= j < i ==> cur[j] == Restored(facs)[j]
    ensures var n := |facs| - 1;
            ApplyText(cur, RestFrom(facs, i, tail)) == Restored(facs)[n := if tail == "\n" then Restored(facs)[n] else cur[n]]
    decreases |facs| - i
  {
    hide Legible, Distinguishable, Kept, ApplyText, RestFrom, Target;
    RestStep(facs, cur, i, tail);
    FindsItself(facs, i);
    if i + 1 < |facs| {
      RestRoundTrip(facs, AfterEntry(facs, cur, i, true), i + 1, tail);
    }
  }

  /** A facility that no printed name leads to is left as it was. */
  lemma {:induction false} Untouched(facs: seq<Facility>, cur: seq<Facility>, i: nat, tail: string, j: nat)
    requires Legible(facs) && SameNames(facs, cur) && i < |facs| && IsTail(tail) && j < |facs|
    requires forall k :: 0 <= k < |facs| ==> Target(facs, k) != j
    ensures ApplyText(cur, RestFrom(facs, i, tail))[j] == cur[j]
    decreases |facs| - i
  {
    hide Legible, Kept, ApplyText, RestFrom, Target;
    var last := i + 1 == |facs|;
    RestStep(facs, cur, i, tail);
    if !last {
      Untouched(facs, AfterEntry(facs, cur, i, true), i + 1, tail, j);
    }
  }

  ghost predicate Clashes(facs: seq<Facility>, j: nat)
    requires j < |facs|
  {
    exists i :: 0 <= i < j && Named(facs[i], Name(facs[j], j))
  }

  lemma TargetIs(facs: seq<Facility>, k: nat, j: nat)
    requires k < |facs| && j < |facs|
    ensures !HasName(facs[j]) ==> Target(facs, k) != j
    ensures HasName(facs[k]) ==> Target(facs, k) <= k && (Target(facs, k) < k <==> Clashes(facs, k))
  {
    FindsFirst(facs, Name(facs[k], k), 0);
    assert HasName(facs[k]) ==> Named(facs[k], Name(facs[k], k));
  }

  /** When the printed names do not tell the facilities apart, there is one that none of them leads to. */
  lemma NeverReached(facs: seq<Facility>) returns (j: nat)
    requires !Distinguishable(facs)
    ensures j < |facs| && forall k :: 0 <= k < |facs| ==> Target(facs, k) != j
  {
    if u :| 0 <= u < |facs| && !HasName(facs[u]) {
      j := u;
    } else {
      j := LastClash(facs);
    }
    hide Target, HasName, Distinguishable, Clashes, Named, Name;
    forall k | 0 <= k < |facs|
      ensures Target(facs, k) != j
    {
      TargetIs(facs, k, j);
    }
  }

  lemma LastClash(facs: seq<Facility>) returns (j: nat)
    requires !Distinguishable(facs) && forall k :: 0 <= k < |facs| ==> HasName(facs[k])
    ensures j < |facs| && Clashes(facs, j) && forall k :: j < k < |facs| ==> !Clashes(facs, k)
  {
    hide HasName, Named, Name;
    var i, l :| 0 <= i < l < |facs| && Named(facs[i], Name(facs[l], l));
    assert Clashes(facs, l);
    j := |facs| - 1;
    while !Clashes(facs, j)
      invariant l <= j < |facs|
      invariant forall k :: j < k < |facs| ==> !Clashes(facs, k)
      decreases j
    {
      j := j - 1;
    }
  }

  lemma EntryNotEmpty(f: Facility, facno: nat)
    ensures Entry(f, facno) != ""
  {
  }

  lemma TextIsRest(facs: seq<Facility>, unterm: bool)
    requires Legible(facs) && facs != []
    ensures var tail := if unterm then "\n" else "\n\0"; MasksText(facs) + (if unterm then "" else "\0") == RestFrom(facs, 0, tail)
    ensures SkipBlanks(MasksText(facs) + (if unterm then "" else "\0")) == MasksText(facs) + (if unterm then "" else "\0")
  {
    var tail := if unterm then "\n" else "\n\0";
    var e, rest := Entry(facs[0], 0), EntriesFrom(facs, 1);
    assert "" + e == e;
    assert e + rest + "\n" + (if unterm then "" else "\0") == e + rest + tail;
    PrintedNamesAreSeparable(facs, 0);
    var name := Name(facs[0], 0);
    assert RestFrom(facs, 0, tail)[0] == if name != "" then name[0] else '=';
  }

  /** Setting the masks from the printed text restores, from any masks before, what is kept of every mask; and that
      is the whole table exactly when every mask is a level alone or debug bits alone. */
  lemma MasksRoundTrip(facs: seq<Facility>, prior: seq<Facility>)
    requires Legible(facs) && Distinguishable(facs) && SameNames(facs, prior)
    ensures SkipBlanks(MasksText(facs)) == MasksText(facs)
    ensures ApplyText(prior, MasksText(facs)) == Restored(facs)
    ensures Restored(facs) == facs <==> forall i :: 0 <= i < |facs| ==> Kept(facs[i].mask) == facs[i].mask
  {
    assert MasksText(facs) + "" == MasksText(facs);
    if facs != [] {
      TextIsRest(facs, true);
      RestRoundTrip(facs, prior, 0, "\n");
    } else {
      assert prior == [] && Restored(facs) == [];
      assert MasksText(facs) == "\n";
    }
    if Restored(facs) == facs {
      forall i | 0 <= i < |facs|
        ensures Kept(facs[i].mask) == facs[i].mask
      {
        assert Restored(facs)[i] == facs[i];
      }
    }
  }

  /** A mask the log can hold: none but the priority bits are set. */
  predicate Loggable(mask: nat) {
    mask % MLOG_DPRISHIFT == 0 && mask < 8 * MLOG_PRISHIFT
  }

  ghost predicate AllLoggable(facs: seq<Facility>) {
    forall i :: 0 <= i < |facs| ==> Loggable(facs[i].mask)
  }

  lemma PriorityIsLoggable(pstr: string)
    ensures Priority(pstr) >= 0 ==> Loggable(Priority(pstr))
  {
    hide SameText, Pad;
    FirstNormBound(if pstr != "" && pstr[0] == 'D' then Pad(pstr) else pstr);
    hide FirstNorm, FirstDbg;
  }

  lemma FirstNormBound(s: string)
    ensures 1 <= FirstNorm(s, 1) <= 8 && FirstDbg(s, 0) <= 16
  {
  }

  lemma EntryStaysLoggable(facs: seq<Facility>, entry: string, last: bool)
    requires AllLoggable(facs)
    ensures AllLoggable(ApplyEntry(facs, entry, last))
  {
    hide Priority, IndexOf, TrimEnd, Named;
    var elen := IndexOf(entry, '=');
    var pri0 := if elen < |entry| then entry[elen + 1..] else entry;
    var pri1 := if last then TrimEnd(pri0) else pri0;
    PriorityIsLoggable(pri1[..IndexOf(pri1, '\0')]);
  }

  /** Whatever the text, the masks set from it stay ones the log can hold. */
  lemma {:induction false} TextStaysLoggable(facs: seq<Facility>, text: string)
    requires AllLoggable(facs)
    ensures AllLoggable(ApplyText(facs, text))
    decreases |text|
  {
    hide ApplyEntry, AllLoggable;
    var clen := IndexOf(text, ',');
    EntryStaysLoggable(facs, text[..clen], clen == |text|);
    if clen < |text| {
      TextStaysLoggable(if clen == 0 then facs else ApplyEntry(facs, text[..clen], false), text[clen + 1..]);
    }
  }

  /** It does so from all masks before that the log can hold exactly when every facility has a name and no printed name
      means an earlier one. */
  lemma RoundTripNeedsNames(facs: seq<Facility>)
    requires Legible(facs)
    ensures Distinguishable(facs) <==>
            forall prior :: SameNames(facs, prior) && AllLoggable(prior) ==> ApplyText(prior, MasksText(facs)) == Restored(facs)
  {
    if Distinguishable(facs) {
      forall prior | SameNames(facs, prior)
        ensures ApplyText(prior, MasksText(facs)) == Restored(facs)
      {
        MasksRoundTrip(facs, prior);
      }
    } else {
      var j := NeverReached(facs);
      var other := if Kept(facs[j].mask) == 0 then MLOG_PRISHIFT else 0;
      var prior := seq(|facs|, i requires 0 <= i < |facs| => facs[i].(mask := if i == j then other else 0));
      assert SameNames(facs, prior) && AllLoggable(prior);
      TextIsRest(facs, true);
      assert MasksText(facs) + "" == MasksText(facs);
      Untouched(facs, prior, 0, "\n", j);
      assert ApplyText(prior, MasksText(facs))[j] != Restored(facs)[j];
    }
  }

  /** The terminating NUL, which the printer counts in its result, makes the parser drop the last entry when that length
      is given to it: every other mask is restored, the last stays as it was. */
  lemma CountedNulLosesLast(facs: seq<Facility>, prior: seq<Facility>)
    requires Legible(facs) && Distinguishable(facs) && SameNames(facs, prior) && facs != []
    ensures var text, n := MasksText(facs) + "\0", |facs| - 1;
            SkipBlanks(text) == text && ApplyText(prior, text) == Restored(facs)[n := prior[n]]
  {
    TextIsRest(facs, false);
    RestRoundTrip(facs, prior, 0, "\n\0");
  }
}
