/** The two timestamp searches over the ring: a circular binary search, and constant-time index
    arithmetic for buffers without gaps. Both are held against a linear search in FIFO order. */
module Searches {
  import opened Arithmetic
  import opened Elements
  import opened IterableQueueModel

  /** Linear reference: how many leading elements are older than `key`. */
  function FirstAtLeast(s: seq<Element>, key: nat): (p: nat)
    ensures p <= |s|
    ensures forall i | 0 <= i < p :: s[i].timestamp < key
    ensures p < |s| ==> s[p].timestamp >= key
  {
    if s == [] || s[0].timestamp >= key then 0 else 1 + FirstAtLeast(s[1..], key)
  }

  /** On a sorted buffer the reference splits it: older before, not older from there on. */
  lemma FirstAtLeastSplits(s: seq<Element>, key: nat, p: nat)
    requires Sorted(s) && p <= |s|
    requires forall i | 0 <= i < p :: s[i].timestamp < key
    requires p < |s| ==> s[p].timestamp >= key
    ensures p == FirstAtLeast(s, key)
    ensures forall i | p <= i < |s| :: s[i].timestamp >= key
  {
    assert p <= FirstAtLeast(s, key);
    assert forall i | p < i < |s| :: s[p].timestamp <= s[i].timestamp;
  }

  /** Where a search may stop: on an element with the key, or else at the reference position. */
  ghost predicate Found(s: seq<Element>, key: nat, p: nat) {
    && p <= |s|
    && ((p < |s| && s[p].timestamp == key)
        || (p == FirstAtLeast(s, key) && forall i | 0 <= i < |s| :: s[i].timestamp != key))
  }

  /** Whatever position a search stops at, it is the reference position exactly when no earlier
      element carries the same timestamp. */
  lemma FoundIsFirstUnlessDuplicated(s: seq<Element>, key: nat, p: nat)
    requires Sorted(s) && Found(s, key, p)
    ensures p == FirstAtLeast(s, key) <==> (p == 0 || p == |s| || s[p - 1].timestamp != s[p].timestamp)
  {
    var f := FirstAtLeast(s, key);
    if p < |s| && s[p].timestamp == key {
      assert f <= p;
      if f < p {
        assert s[f].timestamp <= s[p - 1].timestamp <= s[p].timestamp;
      }
    } else if 0 < p < |s| {
      assert s[p - 1].timestamp < key <= s[p].timestamp;
    }
  }

  /** With strictly increasing timestamps every search that stops legally stops at the reference. */
  lemma FoundIsUnique(s: seq<Element>, key: nat, p: nat)
    requires Increasing(s) && Found(s, key, p)
    ensures p == FirstAtLeast(s, key)
  {
    FoundIsFirstUnlessDuplicated(s, key, p);
  }

  /** Circular binary search. The answer is past-the-end on an empty queue and for keys before the
      oldest element; otherwise it is the slot of a legal position, where the position after the
      newest element is the write index, on which no element stands. */
  method BinaryLowerBound(q: IterableQueue, key: nat) returns (it: Iterator)
    requires q.Valid() && Sorted(q.Contents())
    ensures it == q.End() <==> q.Contents() == [] || key < q.Contents()[0].timestamp
    ensures it != q.End() ==>
              it.index < q.Size() && Found(q.Contents(), key, Distance(q.readIndex, it.index, q.Size()))
  {
    var startIndex := q.readIndex;
    var endIndex := q.writeIndex;
    ghost var c := q.Contents();
    q.Layout();
    if startIndex == endIndex {
      return q.End();
    }
    endIndex := if endIndex == 0 then q.records.Length - 1 else endIndex - 1;
    if key < q.records[startIndex].value.timestamp {
      return q.End();
    }
    var index := Bisect(q.records, startIndex, endIndex, key, c);
    it := Iterator(index);
  }

  /** The bisection loop, on the stretch of `records` that holds `c`. */
  method Bisect(records: array<Slot>, first: nat, last: nat, key: nat, ghost c: seq<Element>) returns (index: nat)
    requires first < records.Length && 0 < |c| < records.Length && last == Hop(first, |c| - 1, records.Length)
    requires forall k | 0 <= k < |c| :: records[Hop(first, k, records.Length)] == Built(c[k])
    requires Sorted(c) && c[0].timestamp <= key
    ensures index < records.Length && Found(c, key, Distance(first, index, records.Length))
  {
    var size := records.Length;
    var startIndex, endIndex := first, last;
    ghost var low: nat, high: nat := 0, |c| - 1;
    while true
      invariant low <= high < |c| && startIndex == Hop(first, low, size) && endIndex == Hop(first, high, size)
      invariant c[low].timestamp <= key
      invariant forall k | high < k < |c| :: c[k].timestamp > key
      decreases high - low
    {
      var diff := Distance(startIndex, endIndex, size);
      var middleIndex := Hop(startIndex, (diff + 1) / 2, size);
      ghost var mid := MiddleOffset(first, low, high, size);
      var between := records[middleIndex].value.timestamp;
      if key == between {
        return middleIndex;
      }
      if diff == 0 {
        index := middleIndex;
        if key < between {
          assert false;
          return;
        }
        StopsAfter(c, key, mid);
        return Hop(middleIndex, 1, size);
      }
      if key < between {
        endIndex := if middleIndex != 0 then middleIndex - 1 else size - 1;
        StrictlyAbove(c, key, mid);
        high := mid - 1;
      } else {
        startIndex := middleIndex;
        low := mid;
      }
    }
  }

  /** The middle slot of a stretch of the ring is the slot of the middle offset, whether or not the
      stretch wraps. */
  lemma MiddleOffset(first: nat, low: nat, high: nat, size: nat) returns (mid: nat)
    requires first < size && low <= high < size
    ensures low <= mid <= high && (low < high ==> low < mid)
    ensures Distance(Hop(first, low, size), Hop(first, high, size), size) == high - low
    ensures Hop(Hop(first, low, size), (high - low + 1) / 2, size) == Hop(first, mid, size)
    ensures Hop(first, mid + 1, size) == Hop(Hop(first, mid, size), 1, size)
    ensures Distance(first, Hop(first, mid, size), size) == mid
    ensures mid + 1 < size ==> Distance(first, Hop(first, mid + 1, size), size) == mid + 1
    ensures mid > 0 ==>
              Hop(first, mid - 1, size) == if Hop(first, mid, size) != 0 then Hop(first, mid, size) - 1 else size - 1
  {
    mid := low + (high - low + 1) / 2;
  }

  lemma StrictlyAbove(s: seq<Element>, key: nat, mid: nat)
    requires Sorted(s) && mid < |s| && key < s[mid].timestamp
    ensures forall k | mid <= k < |s| :: s[k].timestamp > key
  {
  }

  lemma StopsAfter(s: seq<Element>, key: nat, mid: nat)
    requires Sorted(s) && mid < |s| && s[mid].timestamp < key
    requires forall k | mid < k < |s| :: s[k].timestamp > key
    ensures Found(s, key, mid + 1)
  {
    assert forall i | 0 <= i <= mid :: s[i].timestamp <= s[mid].timestamp;
    FirstAtLeastSplits(s, key, mid + 1);
  }

  // Constant-time search

  const U32: nat := 0x1_0000_0000

  /** The largest key the index arithmetic answers: one slot past the newest element. */
  function NewestSlot(s: seq<Element>, fmt: Format): nat
    requires s != []
  {
    s[0].timestamp + |s| * fmt.tickDiff * fmt.numFrames
  }

  /** Index arithmetic on a snapshot of the read index, the occupancy and the oldest element; the
      32-bit intermediate results are truncated as the code does. */
  function FixedRateIndex(start: nat, size: nat, oldest: nat, newestSlot: nat, fmt: Format, key: nat): Iterator
    requires fmt.Valid()
  {
    if oldest > key || key > newestSlot then
      Iterator(END_INDEX)
    else
      var timeTickDiff := key - oldest;
      var numElementOffset := (timeTickDiff / fmt.tickDiff / fmt.numFrames) % U32;
      var target := (start + numElementOffset) % U32;
      var bumped := if timeTickDiff % (fmt.tickDiff * fmt.numFrames) != 0 then (target + 1) % U32 else target;
      Iterator(if bumped >= size then bumped - size else bumped)
  }

  /** The search of the fixed-rate queue when no error is registered. */
  function FixedRateLowerBound(q: IterableQueue, fmt: Format, key: nat): Iterator
    requires q.Valid() && !q.IsEmpty() && fmt.Valid()
    reads q, q.records
  {
    assert q.records[q.SlotOf(0)] == Built(q.Contents()[0]);
    var oldest := q.records[q.readIndex].value.timestamp;
    FixedRateIndex(q.readIndex, q.Size(), oldest,
                   oldest + q.Occupancy() * fmt.tickDiff * fmt.numFrames, fmt, key)
  }

  /** On an equally spaced buffer the reference position of a key is its tick distance from the
      oldest element, divided by the step and rounded up. */
  lemma RoundedUpIsFirstAtLeast(s: seq<Element>, step: nat, key: nat)
    requires s != [] && step >= 1 && EquallySpaced(s, step)
    requires s[0].timestamp <= key <= s[0].timestamp + |s| * step
    ensures FirstAtLeast(s, key) == DivideUp(key - s[0].timestamp, step)
  {
    var x := key - s[0].timestamp;
    var p := DivideUp(x, step);
    DivideUpIsLeast(x, step);
    DivideUpWithin(x, step, |s|);
    EquallySpacedIsSpaced(s, step);
    FirstAtLeastSplits(s, key, p);
  }

  /** The truncations lose nothing while the offset stays within one lap of the ring. */
  lemma FixedRateIndexIsHop(start: nat, size: nat, oldest: nat, count: nat, fmt: Format, key: nat)
    requires fmt.Valid() && start < size < MAX_SIZE && count < size
    requires fmt.tickDiff * fmt.numFrames >= 1 && oldest <= key
    requires DivideUp(key - oldest, fmt.tickDiff * fmt.numFrames) <= count
    ensures forall newestSlot | key <= newestSlot ::
              FixedRateIndex(start, size, oldest, newestSlot, fmt, key)
              == Iterator(Hop(start, DivideUp(key - oldest, fmt.tickDiff * fmt.numFrames), size))
  {
    var x := key - oldest;
    NestedDivision(x, fmt.tickDiff, fmt.numFrames);
    var offset := x / fmt.tickDiff / fmt.numFrames;
    NoTruncation(offset);
    NoTruncation(start + offset);
    NoTruncation(start + offset + 1);
  }

  lemma NoTruncation(x: nat)
    requires x < U32
    ensures x % U32 == x
  {
  }

  /** The O(1) search agrees with the reference on equally spaced buffers, for every key from the
      oldest element up to one slot past the newest. */
  lemma FixedRateIsFirstAtLeast(q: IterableQueue, fmt: Format, key: nat)
    requires q.Valid() && !q.IsEmpty() && fmt.Valid() && EquallySpaced(q.Contents(), fmt.Span())
    requires q.Contents()[0].timestamp <= key <= NewestSlot(q.Contents(), fmt)
    ensures FixedRateLowerBound(q, fmt, key) == Iterator(q.SlotOf(FirstAtLeast(q.Contents(), key)))
  {
    var c, step := q.Contents(), fmt.Span();
    assert q.records[q.SlotOf(0)] == Built(c[0]);
    NestedDivision(0, fmt.tickDiff, fmt.numFrames);
    MulAssociates(|c|, fmt.tickDiff, fmt.numFrames);
    RoundedUpIsFirstAtLeast(c, step, key);
    FixedRateIndexIsHop(q.readIndex, q.Size(), c[0].timestamp, |c|, fmt, key);
  }

  /** The answer both searches are to give: past-the-end for an empty buffer or a key before the
      oldest element, else the slot of the reference position. */
  ghost function Reference(q: IterableQueue, key: nat): Iterator
    requires q.Valid()
    reads q, q.records
  {
    var c := q.Contents();
    if c == [] || key < c[0].timestamp then q.End() else Iterator(q.SlotOf(FirstAtLeast(c, key)))
  }

  /** The reference is good exactly when some element is not older than the key and the oldest one
      is not newer; it then stands on the first such element. */
  lemma ReferenceGood(q: IterableQueue, key: nat)
    requires q.Valid()
    ensures var c := q.Contents();
            && (q.Good(Reference(q, key)) <==>
                c != [] && c[0].timestamp <= key && FirstAtLeast(c, key) < |c|)
            && (q.Good(Reference(q, key)) ==> Reference(q, key) == q.Nth(FirstAtLeast(c, key)))
  {
    var c := q.Contents();
    if c != [] && c[0].timestamp <= key {
      var p := FirstAtLeast(c, key);
      q.GoodExactlyWhenLive(Iterator(q.SlotOf(p)));
      assert Distance(q.readIndex, q.SlotOf(p), q.Size()) == p;
    }
  }

  /** On an equally spaced buffer the two searches are interchangeable: the same iterator for every
      key up to one slot past the newest element, and no good iterator from either beyond that. */
  lemma SearchesAgree(q: IterableQueue, fmt: Format, key: nat)
    requires q.Valid() && !q.IsEmpty() && fmt.Valid() && EquallySpaced(q.Contents(), fmt.Span())
    ensures key <= NewestSlot(q.Contents(), fmt) ==> FixedRateLowerBound(q, fmt, key) == Reference(q, key)
    ensures key > NewestSlot(q.Contents(), fmt) ==>
              FixedRateLowerBound(q, fmt, key) == q.End() && !q.Good(Reference(q, key))
    ensures q.Good(FixedRateLowerBound(q, fmt, key)) <==> q.Good(Reference(q, key))
  {
    var c := q.Contents();
    assert q.records[q.SlotOf(0)] == Built(c[0]);
    if key > NewestSlot(c, fmt) {
      MulAssociates(|c|, fmt.tickDiff, fmt.numFrames);
      forall i | 0 <= i < |c| ensures c[i].timestamp < key {
        MulMonotone(i, |c|, fmt.Span());
      }
      ReferenceGood(q, key);
    } else if c[0].timestamp <= key {
      FixedRateIsFirstAtLeast(q, fmt, key);
    }
  }

  /** The two searches lead a reader to the same element, or both to none. */
  ghost predicate Interchangeable(q: IterableQueue, fmt: Format, key: nat)
    requires q.Valid() && !q.IsEmpty() && fmt.Valid()
    reads q, q.records
  {
    && (q.Good(FixedRateLowerBound(q, fmt, key)) <==> q.Good(Reference(q, key)))
    && (q.Good(Reference(q, key)) ==> FixedRateLowerBound(q, fmt, key) == Reference(q, key))
  }

  /** The index arithmetic may replace the bisection for all keys exactly when the buffer is equally
      spaced. */
  lemma InterchangeableExactlyWhenEquallySpaced(q: IterableQueue, fmt: Format)
    requires q.Valid() && !q.IsEmpty() && fmt.Valid() && Increasing(q.Contents())
    ensures (forall key: nat :: Interchangeable(q, fmt, key)) <==> EquallySpaced(q.Contents(), fmt.Span())
  {
    var c := q.Contents();
    if EquallySpaced(c, fmt.Span()) {
      forall key: nat ensures Interchangeable(q, fmt, key) {
        SearchesAgree(q, fmt, key);
      }
    }
    if forall key: nat :: Interchangeable(q, fmt, key) {
      forall i | 0 <= i < |c| ensures c[i].timestamp == c[0].timestamp + i * fmt.Span() {
        NestedDivision(0, fmt.tickDiff, fmt.numFrames);
        StoredKeyNotBeyondStep(q, fmt, i);
        StepKeyNotBeyondStored(q, fmt, i);
      }
    }
  }

  lemma StoredKeyNotBeyondStep(q: IterableQueue, fmt: Format, i: nat)
    requires q.Valid() && !q.IsEmpty() && fmt.Valid() && Increasing(q.Contents())
    requires fmt.Span() >= 1 && i < |q.Contents()| && Interchangeable(q, fmt, q.Contents()[i].timestamp)
    ensures q.Contents()[i].timestamp <= q.Contents()[0].timestamp + i * fmt.Span()
  {
    var c := q.Contents();
    var key := c[i].timestamp;
    FirstAtLeastSplits(c, key, i);
    ReferenceGood(q, key);
    assert q.records[q.SlotOf(0)] == Built(c[0]);
    MulAssociates(|c|, fmt.tickDiff, fmt.numFrames);
    DivideUpWithin(key - c[0].timestamp, fmt.Span(), |c|);
    FixedRateIndexIsHop(q.readIndex, q.Size(), c[0].timestamp, |c|, fmt, key);
    DivideUpIsLeast(key - c[0].timestamp, fmt.Span());
  }

  /** For the gap-free timestamp of the i-th position the index arithmetic gives that position. */
  lemma StepKeyLeadsToPosition(q: IterableQueue, fmt: Format, i: nat)
    requires q.Valid() && !q.IsEmpty() && fmt.Valid() && fmt.Span() >= 1 && i < |q.Contents()|
    ensures FixedRateLowerBound(q, fmt, q.Contents()[0].timestamp + i * fmt.Span()) == Iterator(q.SlotOf(i))
  {
    var c := q.Contents();
    var key := c[0].timestamp + i * fmt.Span();
    assert q.records[q.SlotOf(0)] == Built(c[0]);
    MulAssociates(|c|, fmt.tickDiff, fmt.numFrames);
    MulMonotone(i, |c|, fmt.Span());
    DivisionIs(i * fmt.Span(), fmt.Span(), i, 0);
    FixedRateIndexIsHop(q.readIndex, q.Size(), c[0].timestamp, |c|, fmt, key);
  }

  lemma StepKeyNotBeyondStored(q: IterableQueue, fmt: Format, i: nat)
    requires q.Valid() && !q.IsEmpty() && fmt.Valid() && Increasing(q.Contents())
    requires fmt.Span() >= 1 && i < |q.Contents()|
    requires Interchangeable(q, fmt, q.Contents()[0].timestamp + i * fmt.Span())
    ensures q.Contents()[i].timestamp >= q.Contents()[0].timestamp + i * fmt.Span()
  {
    StepKeyLeadsToPosition(q, fmt, i);
    q.GoodExactlyWhenLive(Iterator(q.SlotOf(i)));
    ReferenceGood(q, q.Contents()[0].timestamp + i * fmt.Span());
    assert Distance(q.readIndex, q.SlotOf(i), q.Size()) == i;
  }

  /** The position the search of the fixed-rate queue leads to, on any buffer with increasing timestamps;
      the number of elements when it leads to none. Without the flag it is computed as if there were no
      gaps. */
  function Position(c: seq<Element>, fmt: Format, key: nat, withErrors: bool): (p: nat)
    requires fmt.Valid()
    ensures p <= |c|
  {
    NestedDivision(0, fmt.tickDiff, fmt.numFrames);
    if c == [] || key < c[0].timestamp then
      |c|
    else if withErrors then
      FirstAtLeast(c, key)
    else if key > NewestSlot(c, fmt) then
      |c|
    else
      MulAssociates(|c|, fmt.tickDiff, fmt.numFrames);
      DivideUpWithin(key - c[0].timestamp, fmt.Span(), |c|);
      DivideUp(key - c[0].timestamp, fmt.Span())
  }

  /** With the flag, or without gaps, the position is that of the linear search. */
  lemma PositionIsFirst(c: seq<Element>, fmt: Format, key: nat, withErrors: bool)
    requires fmt.Valid() && c != [] && c[0].timestamp <= key && (withErrors || EquallySpaced(c, fmt.Span()))
    ensures Position(c, fmt, key, withErrors) == FirstAtLeast(c, key)
  {
    NestedDivision(0, fmt.tickDiff, fmt.numFrames);
    MulAssociates(|c|, fmt.tickDiff, fmt.numFrames);
    if !withErrors {
      if key <= NewestSlot(c, fmt) {
        RoundedUpIsFirstAtLeast(c, fmt.Span(), key);
      } else {
        AllOlder(c, fmt.Span(), key);
      }
    }
  }

  /** If a beginning reaches the key, the first element at or after it is the same. */
  lemma BeginningHasFirst(c: seq<Element>, d: seq<Element>, key: nat)
    requires c != [] && c <= d && Sorted(d) && c[|c| - 1].timestamp >= key
    ensures FirstAtLeast(c, key) == FirstAtLeast(d, key) < |c|
  {
    FirstAtLeastSplits(d, key, FirstAtLeast(c, key));
  }

  /** For a key inside a beginning without gaps, the index arithmetic gives the linear position whatever
      comes after it. */
  lemma PositionInsideBeginning(c: seq<Element>, d: seq<Element>, fmt: Format, key: nat, withErrors: bool)
    requires fmt.Valid() && c != [] && c <= d && Sorted(d) && c[0].timestamp <= key <= c[|c| - 1].timestamp
    requires withErrors || EquallySpaced(c, fmt.Span())
    ensures Position(d, fmt, key, withErrors) == FirstAtLeast(d, key) == FirstAtLeast(c, key) < |c|
    ensures !withErrors ==> key <= NewestSlot(d, fmt)
  {
    BeginningHasFirst(c, d, key);
    if !withErrors {
      NestedDivision(0, fmt.tickDiff, fmt.numFrames);
      MulAssociates(|d|, fmt.tickDiff, fmt.numFrames);
      MulMonotone(|c| - 1, |c|, fmt.Span());
      MulMonotone(|c|, |d|, fmt.Span());
      RoundedUpIsFirstAtLeast(c, fmt.Span(), key);
    }
  }

  /** And an element behind a gap inside the beginning is not found by its own timestamp. */
  lemma GapMisleads(c: seq<Element>, d: seq<Element>, fmt: Format, i: nat)
    requires fmt.Valid() && c <= d && Spaced(d, fmt.Span()) && i < |c|
    requires c[i].timestamp > c[0].timestamp + i * fmt.Span()
    ensures Position(d, fmt, c[i].timestamp, false) != FirstAtLeast(d, c[i].timestamp)
  {
    var key := c[i].timestamp;
    NestedDivision(0, fmt.tickDiff, fmt.numFrames);
    MulAssociates(|d|, fmt.tickDiff, fmt.numFrames);
    forall k | 0 <= k < i ensures d[k].timestamp < key {
      assert d[k].timestamp + fmt.Span() <= d[i].timestamp;
    }
    assert d[i].timestamp == key;
    assert Sorted(d);
    FirstAtLeastSplits(d, key, i);
    DivideUpIsLeast(key - c[0].timestamp, fmt.Span());
    if DivideUp(key - c[0].timestamp, fmt.Span()) <= i {
      MulMonotone(DivideUp(key - c[0].timestamp, fmt.Span()), i, fmt.Span());
    }
  }

  lemma AllOlder(c: seq<Element>, step: nat, key: nat)
    requires c != [] && EquallySpaced(c, step) && key > c[0].timestamp + |c| * step
    ensures FirstAtLeast(c, key) == |c|
  {
    forall i | 0 <= i < |c| ensures c[i].timestamp < key {
      MulMonotone(i, |c|, step);
    }
  }

  /** On a buffer with gaps the index arithmetic never stops too early, but it may go too far. */
  lemma PositionNotBeforeFirst(c: seq<Element>, fmt: Format, key: nat, withErrors: bool)
    requires fmt.Valid() && Spaced(c, fmt.Span())
    ensures Position(c, fmt, key, withErrors) >= FirstAtLeast(c, key)
  {
    NestedDivision(0, fmt.tickDiff, fmt.numFrames);
    if c != [] && c[0].timestamp <= key <= NewestSlot(c, fmt) && !withErrors {
      var p, f := DivideUp(key - c[0].timestamp, fmt.Span()), FirstAtLeast(c, key);
      DivideUpIsLeast(key - c[0].timestamp, fmt.Span());
      if f > p {
        SpacedByPosition(c, fmt.Span(), p);
      }
    }
  }

  lemma {:induction false} SpacedByPosition(c: seq<Element>, gap: nat, i: nat)
    requires Spaced(c, gap) && i < |c|
    ensures c[i].timestamp >= c[0].timestamp + i * gap
  {
    if i > 0 {
      SpacedByPosition(c, gap, i - 1);
      assert c[i - 1].timestamp + gap <= c[i].timestamp;
      MulSuccessor(i - 1, gap);
    }
  }

  /** The index arithmetic leads to its position. */
  lemma FixedRateGood(q: IterableQueue, fmt: Format, key: nat)
    requires q.Valid() && !q.IsEmpty() && fmt.Valid()
    ensures var p, it := Position(q.Contents(), fmt, key, false), FixedRateLowerBound(q, fmt, key);
            && (q.Good(it) <==> p < |q.Contents()|)
            && (q.Good(it) ==> it == q.Nth(p))
  {
    var c := q.Contents();
    assert q.records[q.SlotOf(0)] == Built(c[0]);
    NestedDivision(0, fmt.tickDiff, fmt.numFrames);
    MulAssociates(|c|, fmt.tickDiff, fmt.numFrames);
    if c[0].timestamp <= key <= NewestSlot(c, fmt) {
      var p := DivideUp(key - c[0].timestamp, fmt.Span());
      DivideUpWithin(key - c[0].timestamp, fmt.Span(), |c|);
      FixedRateIndexIsHop(q.readIndex, q.Size(), c[0].timestamp, |c|, fmt, key);
      q.GoodExactlyWhenLive(Iterator(q.SlotOf(p)));
      assert Distance(q.readIndex, q.SlotOf(p), q.Size()) == p;
    }
  }

  /** The fixed-rate queue falls back on the bisection when errors are registered. */
  method LowerBound(q: IterableQueue, fmt: Format, key: nat, withErrors: bool) returns (it: Iterator)
    requires q.Valid() && fmt.Valid() && Increasing(q.Contents())
    requires !withErrors ==> !q.IsEmpty()
    ensures q.Good(it) <==> Position(q.Contents(), fmt, key, withErrors) < |q.Contents()|
    ensures q.Good(it) ==> it == q.Nth(Position(q.Contents(), fmt, key, withErrors))
  {
    if withErrors {
      it := BinaryLowerBound(q, key);
      if it != q.End() {
        FoundIsUnique(q.Contents(), key, Distance(q.readIndex, it.index, q.Size()));
      }
      ReferenceGood(q, key);
    } else {
      it := FixedRateLowerBound(q, fmt, key);
      FixedRateGood(q, fmt, key);
    }
  }
}
