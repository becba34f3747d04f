/**
  Which ranks are range servers, which server a slice belongs to, and which slice a key belongs to.
 */
module Partitioner {
  import opened Options
  import opened Division

  const MDHIM_ERROR := -1
  const MDHIM_MAX_SLICES := 2147483647
  const MAX_KEY_LEN := 262144
  const UINT64 := 0x1_0000_0000_0000_0000

  // ---------------------------------------------------------------- range servers

  /** The multiples of the factor among the ranks below i. */
  function Multiples(i: nat, factor: nat): nat
    requires factor > 0
  {
    if i == 0 then 0 else Multiples(i - 1, factor) + (if Remainder(i - 1, factor) == 0 then 1 else 0)
  }

  function NumRangeServers(size: nat, factor: nat): nat
    requires size > 0 && factor > 0
  {
    if size - 1 < factor then 1 else Multiples(size, factor)
  }

  /** One server in a small communicator, otherwise one for every multiple of the factor up to the last rank. */
  lemma ServersCounted(size: nat, factor: nat)
    requires size > 0 && factor > 0
    ensures NumRangeServers(size, factor) == if size - 1 < factor then 1 else (size - 1) / factor + 1
  {
    MultiplesCount(size - 1, factor);
    QuotientIsDiv(size - 1, factor);
  }

  method GetNumRangeServers(size: nat, factor: nat) returns (numServers: nat)
    requires size > 0 && factor > 0
    ensures numServers == NumRangeServers(size, factor)
    ensures numServers == if size - 1 < factor then 1 else (size - 1) / factor + 1
  {
    ServersCounted(size, factor);
    if size - 1 < factor {
      return 1;
    }
    numServers := 0;
    for i := 0 to size
      invariant numServers == Multiples(i, factor)
    {
      if Remainder(i, factor) == 0 {
        numServers := numServers + 1;
      }
    }
  }

  /** The number of the range server that a rank is, from one; zero for a rank that is none. */
  function IsRangeServer(size: nat, factor: nat, numRangesrvs: nat, rank: nat): nat
    requires size > 0 && factor > 0
  {
    var last := size - 1;
    var num :=
      if last < factor && rank == last then 1
      else if last >= factor && Remainder(rank, factor) == 0 then Quotient(rank, factor) + 1
      else 0;
    if num > numRangesrvs then 0 else num
  }

  /** The rank that is range server k. */
  function RankOf(size: nat, factor: nat, k: nat): nat
    requires size > 0 && k > 0
  {
    if size - 1 < factor then size - 1 else (k - 1) * factor
  }

  lemma {:induction false} MultiplesCount(i: nat, factor: nat)
    requires factor > 0
    ensures Multiples(i + 1, factor) == Quotient(i, factor) + 1
  {
    if i > 0 {
      MultiplesCount(i - 1, factor);
      QuotientStep(i - 1, factor);
    } else {
      assert Multiples(0, factor) == 0;
    }
  }

  lemma {:induction false} QuotientStep(a: nat, n: nat)
    requires n > 0
    ensures Quotient(a + 1, n) == Quotient(a, n) + (if Remainder(a + 1, n) == 0 then 1 else 0)
  {
    if a >= n {
      QuotientStep(a - n, n);
    }
  }

  /** The ranks that are range servers and the numbers from one to the number of servers are in bijection. */
  lemma ServersAreNumbered(size: nat, factor: nat, k: nat, rank: nat)
    requires size > 0 && factor > 0 && rank < size
    ensures var n := NumRangeServers(size, factor);
            && IsRangeServer(size, factor, n, rank) <= n
            && (1 <= k <= n ==> (IsRangeServer(size, factor, n, rank) == k <==> rank == RankOf(size, factor, k)))
            && (1 <= k <= n ==> RankOf(size, factor, k) < size)
  {
    var n := NumRangeServers(size, factor);
    if size - 1 >= factor {
      MultiplesCount(size - 1, factor);
      QuotientMonotone(rank, size - 1, factor);
      QuotientRemainder(rank, factor);
      if 1 <= k <= n {
        MultipleHasNoRemainder(k - 1, factor);
        QuotientBelow(size - 1, k - 1, factor);
      }
    }
  }

  lemma RanksIncrease(size: nat, factor: nat, k: nat, l: nat)
    requires size > 0 && factor > 0 && 1 <= k < l <= NumRangeServers(size, factor)
    ensures RankOf(size, factor, k) < RankOf(size, factor, l)
  {
    assert (l - k) * factor > 0;
  }

  // ---------------------------------------------------------------- from a slice to its server

  datatype RangesrvInfo = RangesrvInfo(rank: nat, rangesrvNum: nat)

  /** The list that every rank builds from the numbers gathered from all ranks. */
  function Rangesrvs(nums: seq<nat>): seq<RangesrvInfo> {
    if nums == [] then []
    else
      var last := |nums| - 1;
      Rangesrvs(nums[..last]) + (if nums[last] != 0 then [RangesrvInfo(last, nums[last])] else [])
  }

  lemma {:induction false} RangesrvsOrdered(nums: seq<nat>)
    ensures forall i, j :: 0 <= i < j < |Rangesrvs(nums)| ==> Rangesrvs(nums)[i].rank < Rangesrvs(nums)[j].rank
    ensures forall i :: 0 <= i < |Rangesrvs(nums)| ==> Rangesrvs(nums)[i].rank < |nums|
  {
    if nums != [] {
      RangesrvsOrdered(nums[..|nums| - 1]);
    }
  }

  method GetRangesrvs(nums: seq<nat>) returns (list: seq<RangesrvInfo>, master: int)
    ensures list == Rangesrvs(nums)
    ensures forall info :: info in list <==> info.rank < |nums| && info.rangesrvNum == nums[info.rank] != 0
    ensures forall i, j :: 0 <= i < j < |list| ==> list[i].rank < list[j].rank
    ensures master == if list == [] then -1 else list[|list| - 1].rank
  {
    list, master := [], -1;
    for i := 0 to |nums|
      invariant list == Rangesrvs(nums[..i])
      invariant master == if list == [] then -1 else list[|list| - 1].rank
      invariant master < i
    {
      assert nums[..i + 1][..i] == nums[..i];
      if nums[i] == 0 {
        continue;
      }
      list := list + [RangesrvInfo(i, nums[i])];
      if i > master {
        master := i;
      }
    }
    assert nums[..|nums|] == nums;
    RangesrvsOrdered(nums);
    forall info
      ensures info in list <==> info.rank < |nums| && info.rangesrvNum == nums[info.rank] != 0
    {
      RangesrvsHolds(nums, info);
    }
  }

  /** The number of the server that holds a slice. */
  function ServerOf(slice: nat, numRangesrvs: nat): (k: nat)
    requires numRangesrvs > 0
    ensures 1 <= k <= numRangesrvs
  {
    Remainder(slice, numRangesrvs) + 1
  }

  /** The walk along the list of servers. */
  method GetRangeServerBySlice(list: seq<RangesrvInfo>, numRangesrvs: nat, slice: nat) returns (info: Option<RangesrvInfo>)
    requires numRangesrvs > 0
    ensures info.Some? ==> info.value in list && info.value.rangesrvNum == ServerOf(slice, numRangesrvs)
    ensures info.None? ==> forall rp :: rp in list ==> rp.rangesrvNum != ServerOf(slice, numRangesrvs)
  {
    var rangesrvNum;
    if numRangesrvs == 1 {
      RemainderIsMod(slice, 1);
      rangesrvNum := 1;
    } else {
      rangesrvNum := Remainder(slice, numRangesrvs) + 1;
    }
    info := None;
    for i := 0 to |list|
      invariant forall j :: 0 <= j < i ==> list[j].rangesrvNum != rangesrvNum
    {
      if list[i].rangesrvNum == rangesrvNum {
        return Some(list[i]);
      }
    }
  }

  /** What every rank of a communicator reports. */
  function Reported(size: nat, factor: nat): seq<nat>
    requires size > 0 && factor > 0
  {
    seq(size, rank requires 0 <= rank < size => IsRangeServer(size, factor, NumRangeServers(size, factor), rank))
  }

  lemma {:induction false} RangesrvsHolds(nums: seq<nat>, info: RangesrvInfo)
    ensures info in Rangesrvs(nums) <==> info.rank < |nums| && nums[info.rank] == info.rangesrvNum != 0
  {
    if nums != [] {
      RangesrvsHolds(nums[..|nums| - 1], info);
    }
  }

  /** Every slice has exactly one server in the list, and it is the rank with that server number. */
  lemma RoutingIsTotal(size: nat, factor: nat, slice: nat, info: RangesrvInfo)
    requires size > 0 && factor > 0
    ensures var n := NumRangeServers(size, factor);
            && n > 0
            && (info in Rangesrvs(Reported(size, factor)) && info.rangesrvNum == ServerOf(slice, n)
                <==> info == RangesrvInfo(RankOf(size, factor, ServerOf(slice, n)), ServerOf(slice, n)))
  {
    MultiplesCount(size - 1, factor);
    var k := ServerOf(slice, NumRangeServers(size, factor));
    RangesrvsHolds(Reported(size, factor), info);
    ServersAreNumbered(size, factor, k, 0);
    if info.rank < size {
      ServersAreNumbered(size, factor, k, info.rank);
    }
  }

  /** The same in numbers: slice k goes to the rank that is the factor times k modulo the number of servers, or
      to the last rank of a small communicator. */
  lemma SliceGoesTo(size: nat, factor: nat, slice: nat, info: RangesrvInfo)
    requires size > 0 && factor > 0
    ensures var n := if size - 1 < factor then 1 else (size - 1) / factor + 1;
            info in Rangesrvs(Reported(size, factor)) && info.rangesrvNum == slice % n + 1
            <==> info == RangesrvInfo(if size - 1 < factor then size - 1 else slice % n * factor, slice % n + 1)
  {
    hide NumRangeServers, Rangesrvs, Reported;
    ServersCounted(size, factor);
    RoutingIsTotal(size, factor, slice, info);
    RemainderIsMod(slice, NumRangeServers(size, factor));
  }

  /** Any run of as many consecutive slices as there are servers is spread over all of them. */
  lemma ConsecutiveSlicesSpread(slice: nat, d: nat, numRangesrvs: nat)
    requires 0 < d < numRangesrvs
    ensures ServerOf(slice, numRangesrvs) != ServerOf(slice + d, numRangesrvs)
  {
    RemaindersDiffer(slice, d, numRangesrvs);
  }
}
