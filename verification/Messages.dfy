/**
  The messages between clients and range servers: packing into one buffer of a size worked out
  beforehand, and unpacking.
 */
module Messages {
  import opened Options

  const MDHIM_ERROR := -1
  const MDHIM_MAX_MSG_SIZE := 2147483647
  const INT_SIZE := 4

  type Bytes = seq<int>

  datatype Kind = Put | BulkPut | Get | BulkGet | Delete | BulkDelete | GetReply | BulkGetReply

  /** The record of one key, with its value where the message carries values. */
  datatype Record = Record(key: Bytes, value: Bytes)

  /** The plain fields of a message's structure are its rank and, by kind, an operation, an error code or a record count. */
  datatype Message = Message(kind: Kind, fields: seq<int>, size: int, records: seq<Record>)

  predicate Bulk(kind: Kind) {
    kind.BulkPut? || kind.BulkGet? || kind.BulkDelete? || kind.BulkGetReply?
  }

  predicate HasValues(kind: Kind) {
    kind.Put? || kind.BulkPut? || kind.GetReply? || kind.BulkGetReply?
  }

  /** How many plain fields the structure of a kind has. */
  function FieldCount(kind: Kind): nat {
    match kind
    case Get => 3
    case BulkGet => 2
    case GetReply => 2
    case BulkGetReply => 2
    case _ => 1
  }

  predicate Int32(n: int) {
    -0x8000_0000 <= n < 0x8000_0000
  }

  /** A message that fits its structure: the lengths are C ints, and so are the sums of them that are formed before they
      are widened; a single message has one record, and only some kinds have values. */
  ghost predicate WellFormed(m: Message) {
    && |m.fields| == FieldCount(m.kind) && (forall i :: 0 <= i < |m.fields| ==> Int32(m.fields[i]))
    && (m.kind.Put? || m.kind.Get? || m.kind.Delete? || m.kind.GetReply? ==> |m.records| == 1) && Int32(2 * |m.records|)
    && forall i :: 0 <= i < |m.records| ==> WellFormedRecord(m.kind, m.records[i])
  }

  ghost predicate WellFormedRecord(kind: Kind, r: Record) {
    Int32(|r.key|) && Int32(|r.value|) && Int32(|r.key| + |r.value|)
    && (kind.Get? || kind.BulkGet? || kind.Delete? || kind.BulkDelete? ==> r.value == [])
  }

  // ---------------------------------------------------------------- bytes

  /** A 32-bit integer in two's complement, lowest byte first. */
  function EncodeInt(n: int): (b: Bytes)
    requires Int32(n)
    ensures |b| == INT_SIZE
  {
    var u := if n < 0 then n + 0x1_0000_0000 else n;
    [u % 256, u / 256 % 256, u / 256 / 256 % 256, u / 256 / 256 / 256]
  }

  function DecodeInt(b: Bytes): int
    requires |b| == INT_SIZE
  {
    var u := b[0] + 256 * (b[1] + 256 * (b[2] + 256 * b[3]));
    if u >= 0x8000_0000 then u - 0x1_0000_0000 else u
  }

  lemma IntRoundTrip(n: int)
    requires Int32(n)
    ensures DecodeInt(EncodeInt(n)) == n
  {
  }

  function EncodeInts(ns: seq<int>): (b: Bytes)
    requires forall i :: 0 <= i < |ns| ==> Int32(ns[i])
    ensures |b| == INT_SIZE * |ns|
  {
    if ns == [] then [] else EncodeInts(ns[..|ns| - 1]) + EncodeInt(ns[|ns| - 1])
  }

  /** The number that tells the kinds apart. */
  function Mtype(kind: Kind): (t: int)
    ensures 1 <= t <= 10
  {
    match kind
    case Put => 1
    case BulkPut => 2
    case Get => 3
    case BulkGet => 4
    case Delete => 5
    case BulkDelete => 6
    case GetReply => 9
    case BulkGetReply => 10
  }

  /** The integers of the structure: kind, rank and size, the other plain fields, and the lengths of a single record or the
      count of a bulk. */
  function Header(m: Message): (ns: seq<int>)
    requires !Bulk(m.kind) ==> |m.records| == 1
    requires m.fields != []
    ensures |ns| == |m.fields| + HeaderInts(m.kind)
    ensures ns[0] == Mtype(m.kind) && ns[1] == m.fields[0] && ns[2] == m.size
  {
    [Mtype(m.kind), m.fields[0], m.size] + m.fields[1..] +
    (if Bulk(m.kind) then [|m.records|]
     else if HasValues(m.kind) then [|m.records[0].key|, |m.records[0].value|]
     else [|m.records[0].key|])
  }

  function HeaderInts(kind: Kind): nat {
    if !Bulk(kind) && HasValues(kind) then 4 else 3
  }

  function LengthInts(kind: Kind): nat {
    if !Bulk(kind) then 0 else if HasValues(kind) then 2 else 1
  }

  /** The bytes of so many lengths per record, at most two. */
  function LengthBytes(ints: nat, records: nat): nat {
    if ints == 0 then 0 else if ints == 1 then INT_SIZE * records else 2 * INT_SIZE * records
  }

  function RecordSize(kind: Kind, r: Record): nat {
    |r.key| + (if HasValues(kind) then |r.value| else 0)
  }

  /** What one record adds to the buffer: in a bulk, every length goes right before its bytes. */
  function EncodeRecord(kind: Kind, r: Record): (b: Bytes)
    requires WellFormedRecord(kind, r)
    ensures |b| == RecordSize(kind, r) + LengthBytes(LengthInts(kind), 1)
  {
    EncodePart(kind, r.key) + (if HasValues(kind) then EncodePart(kind, r.value) else [])
  }

  function EncodePart(kind: Kind, part: Bytes): (b: Bytes)
    requires Int32(|part|)
    ensures |b| == |part| + (if Bulk(kind) then INT_SIZE else 0)
  {
    (if Bulk(kind) then EncodeInt(|part|) else []) + part
  }

  function EncodeRecords(kind: Kind, rs: seq<Record>): (b: Bytes)
    requires forall i :: 0 <= i < |rs| ==> WellFormedRecord(kind, rs[i])
  {
    if rs == [] then [] else EncodeRecords(kind, rs[..|rs| - 1]) + EncodeRecord(kind, rs[|rs| - 1])
  }

  lemma {:induction false} EncodedSize(kind: Kind, rs: seq<Record>)
    requires forall i :: 0 <= i < |rs| ==> WellFormedRecord(kind, rs[i])
    ensures |EncodeRecords(kind, rs)| == SumSizes(kind, rs) + LengthBytes(LengthInts(kind), |rs|)
  {
    hide EncodeRecord, RecordSize;
    if rs != [] {
      EncodedSize(kind, rs[..|rs| - 1]);
    }
  }

  function SumSizes(kind: Kind, rs: seq<Record>): nat {
    if rs == [] then 0 else SumSizes(kind, rs[..|rs| - 1]) + RecordSize(kind, rs[|rs| - 1])
  }

  /** The bytes of a message. */
  function Encode(m: Message): Bytes
    requires WellFormed(m) && Int32(m.size)
  {
    EncodeInts(Header(m)) + EncodeRecords(m.kind, m.records)
  }

  /** How many lengths per record the size calculation allows for: one too many for a bulk get. */
  function AnnouncedInts(kind: Kind): nat {
    if kind.BulkGet? then 2 else LengthInts(kind)
  }

  /** The size a message is announced with. */
  function Announced(m: Message): nat
    requires m.fields != [] && (!Bulk(m.kind) ==> |m.records| == 1)
  {
    INT_SIZE * |Header(m)| + LengthBytes(AnnouncedInts(m.kind), |m.records|) + SumSizes(m.kind, m.records)
  }

  /** Packing ends exactly at the announced size, or four bytes per record below it for a bulk get. */
  lemma PackedSize(m: Message)
    requires WellFormed(m) && Int32(m.size)
    ensures |Encode(m)| == Announced(m) - (if m.kind.BulkGet? then INT_SIZE * |m.records| else 0)
  {
    EncodedSize(m.kind, m.records);
  }

  lemma {:induction false} IntAt(ns: seq<int>, i: nat)
    requires i < |ns| && forall j :: 0 <= j < |ns| ==> Int32(ns[j])
    ensures EncodeInts(ns)[INT_SIZE * i..INT_SIZE * i + INT_SIZE] == EncodeInt(ns[i])
  {
    if i < |ns| - 1 {
      IntAt(ns[..|ns| - 1], i);
      var init, last := EncodeInts(ns[..|ns| - 1]), EncodeInt(ns[|ns| - 1]);
      assert (init + last)[INT_SIZE * i..INT_SIZE * i + INT_SIZE] == init[INT_SIZE * i..INT_SIZE * i + INT_SIZE];
    }
  }

  lemma HeaderFits(m: Message)
    requires WellFormed(m) && Int32(m.size)
    ensures forall i :: 0 <= i < |Header(m)| ==> Int32(Header(m)[i])
  {
  }

  /** The first four bytes of a message are its kind's number, and so tell the kind. */
  lemma KindsAreTold(m: Message)
    requires WellFormed(m) && Int32(m.size)
    ensures |Encode(m)| >= 12 && Encode(m)[..4] == match m.kind
            case Put => [1, 0, 0, 0]
            case BulkPut => [2, 0, 0, 0]
            case Get => [3, 0, 0, 0]
            case BulkGet => [4, 0, 0, 0]
            case Delete => [5, 0, 0, 0]
            case BulkDelete => [6, 0, 0, 0]
            case GetReply => [9, 0, 0, 0]
            case BulkGetReply => [10, 0, 0, 0]
  {
    hide EncodeInts, EncodeRecords, WellFormed, Header;
    SmallInt(Mtype(m.kind));
    HasHeader(m);
    HeaderFits(m);
    IntAt(Header(m), 0);
    assert Encode(m)[..4] == EncodeInts(Header(m))[..4] == EncodeInts(Header(m))[0..4];
  }

  lemma HasHeader(m: Message)
    requires WellFormed(m)
    ensures m.fields != [] && (!Bulk(m.kind) ==> |m.records| == 1) && |Header(m)| >= 4
  {
  }

  lemma SmallInt(n: int)
    requires 0 <= n < 256
    ensures EncodeInt(n) == [n, 0, 0, 0]
  {
  }

  /** The bytes of a message: the structure, and behind it the key and value of a single record as they are, or every
      key and value of a bulk with its length before it. */
  lemma Layout(m: Message)
    requires WellFormed(m) && Int32(m.size)
    ensures var plain := [Mtype(m.kind), m.fields[0], m.size] + m.fields[1..];
            var ints := plain + match m.kind
                                case Put => [|m.records[0].key|, |m.records[0].value|]
                                case GetReply => [|m.records[0].key|, |m.records[0].value|]
                                case Get => [|m.records[0].key|]
                                case Delete => [|m.records[0].key|]
                                case _ => [|m.records|];
            && (forall i :: 0 <= i < |ints| ==> Int32(ints[i]))
            && EncodeInts(ints) <= Encode(m)
            && Encode(m)[|EncodeInts(ints)|..] == match m.kind
               case Put => m.records[0].key + m.records[0].value
               case GetReply => m.records[0].key + m.records[0].value
               case Get => m.records[0].key
               case Delete => m.records[0].key
               case _ => EncodeRecords(m.kind, m.records)
    ensures forall i :: 0 <= i < |m.records| ==>
              match m.kind
              case BulkPut => EncodeRecord(m.kind, m.records[i]) == EncodeInt(|m.records[i].key|) + m.records[i].key
                                                                    + EncodeInt(|m.records[i].value|) + m.records[i].value
              case BulkGetReply => EncodeRecord(m.kind, m.records[i]) == EncodeInt(|m.records[i].key|) + m.records[i].key
                                                                         + EncodeInt(|m.records[i].value|) + m.records[i].value
              case BulkGet => EncodeRecord(m.kind, m.records[i]) == EncodeInt(|m.records[i].key|) + m.records[i].key
              case BulkDelete => EncodeRecord(m.kind, m.records[i]) == EncodeInt(|m.records[i].key|) + m.records[i].key
              case _ => true
  {
    hide EncodeInts, EncodeInt;
    HeaderFits(m);
    var head := EncodeInts(Header(m));
    assert Encode(m)[|head|..] == EncodeRecords(m.kind, m.records);
    if !Bulk(m.kind) {
      OneRecord(m.kind, m.records);
    }
  }

  lemma OneRecord(kind: Kind, rs: seq<Record>)
    requires !Bulk(kind) && |rs| == 1 && WellFormedRecord(kind, rs[0])
    ensures EncodeRecords(kind, rs) == if HasValues(kind) then rs[0].key + rs[0].value else rs[0].key
  {
    assert rs[..0] == [] && EncodeRecords(kind, []) == [];
  }

  // ---------------------------------------------------------------- packing

  /** Bytes are appended at the index, which moves behind them. */
  method MpiPack(data: Bytes, outbuf: array<int>, idx: nat) returns (idx': nat)
    requires idx + |data| <= outbuf.Length
    modifies outbuf
    ensures idx' == idx + |data| && outbuf[..idx'] == old(outbuf[..idx]) + data
  {
    for i := 0 to |data|
      invariant outbuf[..idx + i] == old(outbuf[..idx]) + data[..i]
    {
      outbuf[idx + i] := data[i];
    }
    idx' := idx + |data|;
    assert data[..|data|] == data;
  }

  method PackPart(kind: Kind, part: Bytes, outbuf: array<int>, idx: nat) returns (idx': nat)
    requires Int32(|part|) && idx + |EncodePart(kind, part)| <= outbuf.Length
    modifies outbuf
    ensures idx' == idx + |EncodePart(kind, part)| && outbuf[..idx'] == old(outbuf[..idx]) + EncodePart(kind, part)
  {
    idx' := idx;
    if Bulk(kind) {
      idx' := MpiPack(EncodeInt(|part|), outbuf, idx');
    }
    idx' := MpiPack(part, outbuf, idx');
  }

  method PackRecord(kind: Kind, r: Record, outbuf: array<int>, idx: nat) returns (idx': nat)
    requires WellFormedRecord(kind, r) && idx + |EncodeRecord(kind, r)| <= outbuf.Length
    modifies outbuf
    ensures idx' == idx + |EncodeRecord(kind, r)| && outbuf[..idx'] == old(outbuf[..idx]) + EncodeRecord(kind, r)
  {
    hide EncodePart, Int32;
    idx' := PackPart(kind, r.key, outbuf, idx);
    if HasValues(kind) {
      idx' := PackPart(kind, r.value, outbuf, idx');
    }
  }

  lemma EncodeRecordsStep(kind: Kind, rs: seq<Record>, i: nat)
    requires i < |rs| && forall j :: 0 <= j < |rs| ==> WellFormedRecord(kind, rs[j])
    ensures EncodeRecords(kind, rs[..i + 1]) == EncodeRecords(kind, rs[..i]) + EncodeRecord(kind, rs[i])
    ensures |EncodeRecords(kind, rs[..i + 1])| <= |EncodeRecords(kind, rs)|
  {
    assert rs[..i + 1][..i] == rs[..i];
    EncodeRecordsPrefix(kind, rs, i + 1);
  }

  lemma {:induction false} EncodeRecordsPrefix(kind: Kind, rs: seq<Record>, i: nat)
    requires i <= |rs| && forall j :: 0 <= j < |rs| ==> WellFormedRecord(kind, rs[j])
    ensures EncodeRecords(kind, rs[..i]) <= EncodeRecords(kind, rs)
  {
    if i < |rs| {
      EncodeRecordsPrefix(kind, rs[..|rs| - 1], i);
      assert rs[..|rs| - 1][..i] == rs[..i];
    } else {
      assert rs[..i] == rs;
    }
  }

  /** The loop that adds up the size of a message. */
  method MessageSize(m: Message) returns (size: nat)
    requires m.fields != [] && (!Bulk(m.kind) ==> |m.records| == 1)
    ensures size == Announced(m)
  {
    size := INT_SIZE * |Header(m)| + LengthBytes(AnnouncedInts(m.kind), |m.records|);
    ghost var fixed := size;
    for i := 0 to |m.records|
      invariant size == fixed + SumSizes(m.kind, m.records[..i])
    {
      assert m.records[..i + 1][..i] == m.records[..i];
      size := size + RecordSize(m.kind, m.records[i]);
    }
    assert m.records[..|m.records|] == m.records;
  }

  lemma NoRecords(kind: Kind)
    ensures EncodeRecords(kind, []) == []
  {
  }

  /** The structure first, then the records one by one. */
  method PackAll(m: Message, sendbuf: array<int>) returns (idx: nat)
    requires WellFormed(m) && Int32(m.size) && |Encode(m)| <= sendbuf.Length
    modifies sendbuf
    ensures idx == |Encode(m)| && sendbuf[..idx] == Encode(m)
  {
    hide EncodeRecord, EncodeInts, Header, EncodeRecords, WellFormedRecord, Int32;
    HeaderFits(m);
    ghost var head := EncodeInts(Header(m));
    idx := MpiPack(EncodeInts(Header(m)), sendbuf, 0);
    assert m.records[..0] == [];
    NoRecords(m.kind);
    for i := 0 to |m.records|
      invariant idx == |head| + |EncodeRecords(m.kind, m.records[..i])|
      invariant idx <= sendbuf.Length && sendbuf[..idx] == head + EncodeRecords(m.kind, m.records[..i])
    {
      EncodeRecordsStep(m.kind, m.records, i);
      idx := PackRecord(m.kind, m.records[i], sendbuf, idx);
    }
    assert m.records[..|m.records|] == m.records;
  }

  /** Packing: the size is worked out first, recorded in the message, and the buffer filled with the message's bytes. */
  method PackMessage(m0: Message) returns (ret: int, m: Message, sendbuf: array<int>, idx: nat)
    requires WellFormed(m0)
    ensures ret == if Announced(m0) > 2147483647 then -1 else 0
    ensures ret == 0 ==> m == m0.(size := Announced(m0)) && WellFormed(m) && Int32(m.size)
    ensures ret == 0 ==> sendbuf.Length == m.size && idx == |Encode(m)| <= sendbuf.Length && sendbuf[..idx] == Encode(m)
    ensures ret == 0 ==> sendbuf.Length >= 4 && sendbuf[..4] == match m0.kind
            case Put => [1, 0, 0, 0]
            case BulkPut => [2, 0, 0, 0]
            case Get => [3, 0, 0, 0]
            case BulkGet => [4, 0, 0, 0]
            case Delete => [5, 0, 0, 0]
            case BulkDelete => [6, 0, 0, 0]
            case GetReply => [9, 0, 0, 0]
            case BulkGetReply => [10, 0, 0, 0]
  {
    m, idx := m0, 0;
    sendbuf := new int[0];
    var size := MessageSize(m0);
    if size > MDHIM_MAX_MSG_SIZE {
      return MDHIM_ERROR, m, sendbuf, 0;
    }
    m := m0.(size := size);
    PackedSize(m);
    sendbuf := new int[size](_ => 0);
    idx := PackAll(m, sendbuf);
    KindsAreTold(m);
    assert sendbuf[..4] == sendbuf[..idx][..4];
    ret := 0;
  }

  // ---------------------------------------------------------------- unpacking

  /** Reading as many bytes as asked for; the index moves behind them. */
  method MpiUnpack(message: Bytes, idx: nat, n: nat) returns (data: Bytes, idx': nat)
    requires idx + n <= |message|
    ensures data == message[idx..idx + n] && idx' == idx + n
  {
    data, idx' := message[idx..idx + n], idx + n;
  }

  method UnpackInt(message: Bytes, idx: nat, ghost n: int) returns (n': int, idx': nat)
    requires Int32(n) && idx + INT_SIZE <= |message| && message[idx..idx + INT_SIZE] == EncodeInt(n)
    ensures n' == n && idx' == idx + INT_SIZE
  {
    var data;
    data, idx' := MpiUnpack(message, idx, INT_SIZE);
    n' := DecodeInt(data);
    IntRoundTrip(n);
  }

  method UnpackInts(message: Bytes, count: nat, ghost ns: seq<int>) returns (ns': seq<int>, idx: nat)
    requires |ns| == count && (forall j :: 0 <= j < |ns| ==> Int32(ns[j])) && EncodeInts(ns) <= message
    ensures ns' == ns && idx == |EncodeInts(ns)|
  {
    hide EncodeInts, EncodeInt;
    ns', idx := [], 0;
    for i := 0 to count
      invariant ns' == ns[..i] && idx == INT_SIZE * i
    {
      IntAt(ns, i);
      assert message[idx..idx + INT_SIZE] == EncodeInts(ns)[INT_SIZE * i..INT_SIZE * i + INT_SIZE];
      var n;
      n, idx := UnpackInt(message, idx, ns[i]);
      ns' := ns' + [n];
    }
    assert ns[..count] == ns;
  }

  /** One key or value: its length comes from the buffer in a bulk and from the structure otherwise. */
  method UnpackPart(kind: Kind, message: Bytes, idx: nat, len: int, ghost part: Bytes) returns (part': Bytes, idx': nat)
    requires Int32(|part|) && idx + |EncodePart(kind, part)| <= |message|
    requires message[idx..idx + |EncodePart(kind, part)|] == EncodePart(kind, part)
    requires !Bulk(kind) ==> len == |part|
    ensures part' == part && idx' == idx + |EncodePart(kind, part)|
  {
    var n := len;
    idx' := idx;
    ghost var whole := message[idx..idx + |EncodePart(kind, part)|];
    if Bulk(kind) {
      assert whole[..INT_SIZE] == EncodeInt(|part|);
      assert message[idx..idx + INT_SIZE] == whole[..INT_SIZE];
      n, idx' := UnpackInt(message, idx, |part|);
      assert message[idx'..idx' + |part|] == whole[INT_SIZE..];
    }
    part', idx' := MpiUnpack(message, idx', n);
  }

  method UnpackRecord(kind: Kind, message: Bytes, idx: nat, keyLen: int, valueLen: int, ghost r: Record) returns (r': Record, idx': nat)
    requires WellFormedRecord(kind, r) && idx + |EncodeRecord(kind, r)| <= |message|
    requires message[idx..idx + |EncodeRecord(kind, r)|] == EncodeRecord(kind, r)
    requires !Bulk(kind) ==> keyLen == |r.key| && (HasValues(kind) ==> valueLen == |r.value|)
    ensures r' == r && idx' == idx + |EncodeRecord(kind, r)|
  {
    hide EncodePart, Int32;
    ghost var whole, k := message[idx..idx + |EncodeRecord(kind, r)|], |EncodePart(kind, r.key)|;
    assert whole[..k] == EncodePart(kind, r.key) == message[idx..idx + k];
    var key, value := [], [];
    key, idx' := UnpackPart(kind, message, idx, keyLen, r.key);
    if HasValues(kind) {
      assert whole[k..] == EncodePart(kind, r.value) == message[idx'..idx' + |EncodePart(kind, r.value)|];
      value, idx' := UnpackPart(kind, message, idx', valueLen, r.value);
    }
    r' := Record(key, value);
  }

  lemma RecordsFrom(kind: Kind, rs: seq<Record>, i: nat)
    requires i < |rs| && forall j :: 0 <= j < |rs| ==> WellFormedRecord(kind, rs[j])
    ensures var at, n := |EncodeRecords(kind, rs[..i])|, |EncodeRecord(kind, rs[i])|;
            && at + n <= |EncodeRecords(kind, rs)|
            && EncodeRecords(kind, rs)[at..at + n] == EncodeRecord(kind, rs[i])
            && |EncodeRecords(kind, rs[..i + 1])| == at + n
  {
    hide EncodeRecords, EncodeRecord, WellFormedRecord;
    EncodeRecordsStep(kind, rs, i);
    EncodeRecordsPrefix(kind, rs, i + 1);
    MiddleOf(EncodeRecords(kind, rs[..i]), EncodeRecord(kind, rs[i]), EncodeRecords(kind, rs));
  }

  lemma MiddleOf<T>(a: seq<T>, b: seq<T>, whole: seq<T>)
    requires a + b <= whole
    ensures |a| + |b| <= |whole| && whole[|a|..|a| + |b|] == b
  {
    assert whole[..|a| + |b|] == a + b;
  }

  lemma SliceOfSlice<T>(s: seq<T>, at: nat, len: nat, off: nat, n: nat)
    requires at + len <= |s| && off + n <= len
    ensures s[at..at + len][off..off + n] == s[at + off..at + off + n]
  {
    var a, b := s[at..at + len][off..off + n], s[at + off..at + off + n];
    forall j | 0 <= j < n
      ensures a[j] == b[j]
    {
      assert a[j] == s[at..at + len][off + j] == s[at + off + j];
    }
    assert |a| == |b| == n;
  }

  /** The records of a message, read from behind its structure. */
  method UnpackAll(kind: Kind, message: Bytes, at: nat, count: nat, keyLen: int, valueLen: int, ghost rs: seq<Record>)
    returns (rs': seq<Record>)
    requires |rs| == count && forall j :: 0 <= j < |rs| ==> WellFormedRecord(kind, rs[j])
    requires at + |EncodeRecords(kind, rs)| <= |message|
    requires message[at..at + |EncodeRecords(kind, rs)|] == EncodeRecords(kind, rs)
    requires !Bulk(kind) ==> count == 1 && keyLen == |rs[0].key| && (HasValues(kind) ==> valueLen == |rs[0].value|)
    ensures rs' == rs
  {
    hide EncodeRecords, EncodeRecord, WellFormedRecord;
    rs' := [];
    var idx := at;
    assert rs[..0] == [];
    NoRecords(kind);
    for i := 0 to count
      invariant rs' == rs[..i] && idx == at + |EncodeRecords(kind, rs[..i])|
    {
      RecordsFrom(kind, rs, i);
      ghost var n := |EncodeRecord(kind, rs[i])|;
      SliceOfSlice(message, at, |EncodeRecords(kind, rs)|, idx - at, n);
      var r;
      r, idx := UnpackRecord(kind, message, idx, keyLen, valueLen, rs[i]);
      rs' := rs' + [r];
    }
    assert rs[..count] == rs;
  }

  /** The unpacker of one kind. */
  method UnpackAs(kind: Kind, message: Bytes, ghost m: Message) returns (m': Message)
    requires WellFormed(m) && Int32(m.size) && m.kind == kind && Encode(m) <= message
    ensures m' == m
  {
    hide EncodeInts, EncodeRecords, WellFormedRecord, Int32;
    HeaderFits(m);
    assert EncodeInts(Header(m)) <= message;
    var ns, idx := UnpackInts(message, FieldCount(kind) + HeaderInts(kind), Header(m));
    var n := FieldCount(kind);
    assert message[idx..idx + |EncodeRecords(kind, m.records)|] == EncodeRecords(kind, m.records);
    var keyLen, valueLen := 0, 0;
    var count := 1;
    if Bulk(kind) {
      count := ns[n + 2];
    } else {
      keyLen := ns[n + 2];
      if HasValues(kind) {
        valueLen := ns[n + 3];
      }
    }
    var records := UnpackAll(kind, message, idx, count, keyLen, valueLen, m.records);
    m' := Message(kind, [ns[1]] + ns[3..n + 2], ns[2], records);
    assert [ns[1]] + ns[3..n + 2] == m.fields;
  }

  /** The structure that all messages begin with. */
  method UnpackBase(message: Bytes, ghost m: Message) returns (mtype: int, rank: int, size: int)
    requires WellFormed(m) && Int32(m.size) && Encode(m) <= message
    ensures mtype == Mtype(m.kind) && rank == m.fields[0] && size == m.size
  {
    hide EncodeInts, EncodeInt, EncodeRecords, WellFormed, Header;
    HasHeader(m);
    HeaderFits(m);
    ghost var ns := Header(m);
    ghost var head := EncodeInts(ns);
    assert head <= message;
    IntAt(ns, 0);
    IntAt(ns, 1);
    IntAt(ns, 2);
    assert message[0..4] == head[0..4] && message[4..8] == head[4..8] && message[8..12] == head[8..12];
    var idx;
    mtype, idx := UnpackInt(message, 0, ns[0]);
    rank, idx := UnpackInt(message, idx, ns[1]);
    size, idx := UnpackInt(message, idx, ns[2]);
  }

  /** A range server reads the number of the kind and unpacks accordingly: a request comes out as it was packed, whatever
      follows it in the buffer; a message without a size is an error, and a reply is nothing to a server. */
  method ReceiveRangesrvWork(message: Bytes, ghost m: Message) returns (ret: int, received: Option<Message>)
    requires WellFormed(m) && Int32(m.size) && Encode(m) <= message
    ensures ret == if m.size == 0 then -1 else 0
    ensures received == if m.size == 0 || m.kind.GetReply? || m.kind.BulkGetReply? then None else Some(m)
  {
    hide WellFormed, Encode;
    var mtype, rank, size := UnpackBase(message, m);
    if size == 0 || mtype < 1 || mtype > 11 {
      return MDHIM_ERROR, None;
    }
    var work;
    match mtype {
      case 1 =>
        work := UnpackAs(Put, message, m);
      case 2 =>
        work := UnpackAs(BulkPut, message, m);
      case 3 =>
        work := UnpackAs(Get, message, m);
      case 4 =>
        work := UnpackAs(BulkGet, message, m);
      case 5 =>
        work := UnpackAs(Delete, message, m);
      case 6 =>
        work := UnpackAs(BulkDelete, message, m);
      case _ =>
        return 0, None;
    }
    return 0, Some(work);
  }

  /** A client does the same with the replies. */
  method ReceiveClientResponse(message: Bytes, ghost m: Message) returns (received: Option<Message>)
    requires WellFormed(m) && Int32(m.size) && Encode(m) <= message
    ensures received == if m.kind.GetReply? || m.kind.BulkGetReply? then Some(m) else None
  {
    hide WellFormed, Encode;
    var mtype, rank, size := UnpackBase(message, m);
    var reply;
    match mtype {
      case 9 =>
        reply := UnpackAs(GetReply, message, m);
      case 10 =>
        reply := UnpackAs(BulkGetReply, message, m);
      case _ =>
        return None;
    }
    return Some(reply);
  }

  /** A message within the size limit survives the trip: a request to a server, and a reply to a client. */
  method RoundTrip(m0: Message) returns (ok: bool, atServer: Option<Message>, atClient: Option<Message>)
    requires WellFormed(m0)
    ensures ok <==> Announced(m0) <= 2147483647
    ensures ok ==> var m := m0.(size := Announced(m0));
                   if m0.kind.GetReply? || m0.kind.BulkGetReply? then atServer == None && atClient == Some(m)
                   else atServer == Some(m) && atClient == None
    ensures !ok ==> atServer == None && atClient == None
  {
    hide WellFormedRecord;
    var ret, sent, sendbuf, idx := PackMessage(m0);
    ok, atServer, atClient := ret == 0, None, None;
    if ok {
      ret, atServer := ReceiveRangesrvWork(sendbuf[..], sent);
      atClient := ReceiveClientResponse(sendbuf[..], sent);
    }
  }
}
