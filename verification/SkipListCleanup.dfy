/** The cleanup of an ordered-set buffer: when the stored elements span more than a limit, the oldest
    are removed one by one until they no longer do. */
module SkipListCleanup {
  import opened Elements
  import opened PostProcessing

  const MAX_TS_DIFF: nat := 625_000_000

  /** The items less than the limit older than `newest`, in order. */
  function Recent(list: seq<Item>, newest: nat): seq<Item> {
    if list == [] then []
    else if newest < list[0].timestamp + MAX_TS_DIFF then [list[0]] + Recent(list[1..], newest)
    else Recent(list[1..], newest)
  }

  predicate SpansTooMuch(list: seq<Item>) {
    list != [] && list[|list| - 1].timestamp > list[0].timestamp + MAX_TS_DIFF
  }

  /** What a cleanup leaves. */
  function CleanedUp(list: seq<Item>): seq<Item> {
    if SpansTooMuch(list) then Recent(list, list[|list| - 1].timestamp) else list
  }

  lemma {:induction false} RecentOfRecent(list: seq<Item>, newest: nat)
    requires Ordered(list) && (list != [] ==> newest < list[0].timestamp + MAX_TS_DIFF)
    ensures Recent(list, newest) == list
  {
    if list != [] {
      assert |list| > 1 ==> Before(list[0], list[1]);
      RecentOfRecent(list[1..], newest);
    }
  }

  /** Removing the oldest element, when it is not recent, leaves the recent ones. */
  lemma RecentAfterRemoval(list: seq<Item>, newest: nat)
    requires list != [] && newest >= list[0].timestamp + MAX_TS_DIFF
    ensures Recent(list[1..], newest) == Recent(list, newest)
  {
  }

  lemma {:induction false} RecentIsFilter(list: seq<Item>, newest: nat, x: Item)
    ensures x in Recent(list, newest) <==> x in list && newest < x.timestamp + MAX_TS_DIFF
  {
    if list != [] {
      RecentIsFilter(list[1..], newest, x);
      assert list == [list[0]] + list[1..];
    }
  }

  lemma {:induction false} RecentIsSuffix(list: seq<Item>, newest: nat) returns (k: nat)
    requires Ordered(list)
    ensures k <= |list| && Recent(list, newest) == list[k..]
    ensures forall i | 0 <= i < k :: list[i].timestamp + MAX_TS_DIFF <= newest
  {
    if list == [] {
      k := 0;
    } else if newest < list[0].timestamp + MAX_TS_DIFF {
      k := 0;
      RecentOfRecent(list, newest);
    } else {
      k := RecentIsSuffix(list[1..], newest);
      k := k + 1;
    }
  }

  /** The first `k` elements of the list are cut off: none unless the newest is more than the limit later
      than the oldest, and otherwise those that are at least the limit older than the newest. */
  ghost predicate CutsOff(list: seq<Item>, rest: seq<Item>, k: int) {
    && 0 <= k <= |list| && rest == list[k..]
    && (k > 0 <==> list != [] && list[|list| - 1].timestamp > list[0].timestamp + MAX_TS_DIFF)
    && (k > 0 ==>
          forall i | 0 <= i < |list| :: i < k <==> list[i].timestamp + MAX_TS_DIFF <= list[|list| - 1].timestamp)
  }

  lemma CleanedUpCutsOff(list: seq<Item>)
    requires Ordered(list)
    ensures CutsOff(list, CleanedUp(list), |list| - |CleanedUp(list)|)
  {
    if SpansTooMuch(list) {
      var newest := list[|list| - 1].timestamp;
      var k := RecentIsSuffix(list, newest);
      forall i | k <= i < |list| ensures newest < list[i].timestamp + MAX_TS_DIFF {
        assert list[i] == Recent(list, newest)[i - k];
        RecentIsFilter(list, newest, list[i]);
      }
    }
  }

  class SkipListRequestHandler {
    var list: seq<Item>
    var popReqs: nat
    var popsCount: nat
    var numBufferCleanups: nat

    constructor ()
      ensures list == [] && popReqs == 0 && popsCount == 0 && numBufferCleanups == 0
    {
      list, popReqs, popsCount, numBufferCleanups := [], 0, 0, 0;
    }

    /** Removes the head of the list until what is left is recent; the newest element is never reached,
        so there always is a head to look at. */
    method RemoveOld(tailts: nat) returns (removedCtr: nat)
      requires Ordered(list) && SpansTooMuch(list) && tailts == list[|list| - 1].timestamp
      modifies this`list
      ensures list == Recent(old(list), tailts) && removedCtr == |old(list)| - |list|
    {
      ghost var before := list;
      removedCtr := 0;
      var timediff := MAX_TS_DIFF;
      while timediff >= MAX_TS_DIFF
        invariant removedCtr < |before| && list == before[removedCtr..]
        invariant Recent(list, tailts) == Recent(before, tailts)
        invariant if removedCtr == 0 then timediff == MAX_TS_DIFF else timediff == tailts - list[0].timestamp
        invariant before[|before| - 1].timestamp == tailts && Ordered(before)
        invariant tailts >= before[0].timestamp + MAX_TS_DIFF
        decreases |list|
      {
        RecentAfterRemoval(list, tailts);
        list := list[1..];
        removedCtr := removedCtr + 1;
        assert removedCtr < |before| - 1 ==> Before(before[removedCtr], before[|before| - 1]);
        timediff := SubU64(tailts, list[0].timestamp);
      }
      RecentOfRecent(list, tailts);
    }

    method Cleanup()
      requires Ordered(list)
      modifies this
      ensures list == CleanedUp(old(list)) && CutsOff(old(list), list, popsCount - old(popsCount))
      ensures popReqs == old(popReqs) + if list == old(list) then 0 else 1
      ensures numBufferCleanups == old(numBufferCleanups) + 1
    {
      CleanedUpCutsOff(list);
      if list != [] {
        var tailts, headts := list[|list| - 1].timestamp, list[0].timestamp;
        assert |list| > 1 ==> Before(list[0], list[|list| - 1]);
        if SubU64(tailts, headts) > MAX_TS_DIFF {
          popReqs := popReqs + 1;
          var removedCtr := RemoveOld(tailts);
          popsCount := popsCount + removedCtr;
        }
      }
      numBufferCleanups := numBufferCleanups + 1;
    }
  }

  // What the cleanup is for

  /** When the newest is more than the limit later than the oldest, a cleanup keeps exactly the elements
      less than the limit older than the newest; otherwise it keeps everything. */
  lemma CleanupKeepsExactlyRecent(list: seq<Item>, x: Item)
    ensures x in CleanedUp(list) <==>
              && x in list
              && var newest := list[|list| - 1].timestamp;
                 newest > list[0].timestamp + MAX_TS_DIFF ==> newest < x.timestamp + MAX_TS_DIFF
  {
    if SpansTooMuch(list) {
      RecentIsFilter(list, list[|list| - 1].timestamp, x);
    }
  }

  /** A cleanup removes a proper beginning of the list: never the newest element. Afterwards the newest is
      no more than the limit later than the oldest, so that a second cleanup changes nothing. */
  lemma CleanupRemovesOldestOnly(list: seq<Item>) returns (k: nat)
    requires Ordered(list) && list != []
    ensures k < |list| && CleanedUp(list) == list[k..] && CleanedUp(list[k..]) == list[k..]
    ensures list[|list| - 1].timestamp <= list[k].timestamp + MAX_TS_DIFF
    ensures k > 0 <==> list[|list| - 1].timestamp > list[0].timestamp + MAX_TS_DIFF
  {
    CleanedUpCutsOff(list);
    k := |list| - |CleanedUp(list)|;
    assert k > 0 ==> list[|list| - 1].timestamp < list[|list| - 1].timestamp + MAX_TS_DIFF;
  }
}
