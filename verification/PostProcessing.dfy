/** Deferred post-processing: elements may arrive out of order, so a pass only processes what is older
    than the newest stored element by a configured delay, and remembers how far it got. */
module PostProcessing {
  import opened Elements

  /** An element of an ordered-set buffer: ordered by timestamp, then by the rest of its key. */
  datatype Item = Item(timestamp: nat, rank: nat)

  predicate Before(a: Item, b: Item) {
    a.timestamp < b.timestamp || (a.timestamp == b.timestamp && a.rank < b.rank)
  }

  ghost predicate Ordered(s: seq<Item>) {
    && (forall i, j | 0 <= i < j < |s| :: Before(s[i], s[j]))
    && (forall i | 0 <= i < |s| :: s[i].timestamp < U64)
  }

  /** Index of the first item at or after a timestamp; the key searched for has the smallest rank. */
  function LowerBound(buffer: seq<Item>, timestamp: nat): (k: nat)
    ensures k <= |buffer|
    ensures forall i | 0 <= i < k :: buffer[i].timestamp < timestamp
    ensures k < |buffer| ==> buffer[k].timestamp >= timestamp
  {
    if buffer == [] || buffer[0].timestamp >= timestamp then 0 else 1 + LowerBound(buffer[1..], timestamp)
  }

  /** What the consumer thread remembers between passes, and what it has processed so far. */
  datatype Progress = Progress(firstCycle: bool, watermark: nat, processed: seq<Item>)

  /** Where the window of a pass over a non-empty buffer starts. */
  function StartOf(p: Progress, buffer: seq<Item>): nat
    requires buffer != []
  {
    if p.firstCycle then buffer[0].timestamp else p.watermark
  }

  ghost predicate Ready(p: Progress, buffer: seq<Item>) {
    Ordered(buffer) && buffer != [] && StartOf(p, buffer) <= buffer[|buffer| - 1].timestamp
  }

  /** The items of a buffer with start <= timestamp < end, in order. */
  function Window(buffer: seq<Item>, start: nat, end: nat): seq<Item> {
    if buffer == [] then []
    else if start <= buffer[0].timestamp < end then [buffer[0]] + Window(buffer[1..], start, end)
    else Window(buffer[1..], start, end)
  }

  /** The effect of a pass: the items of one half-open window, and the watermark at its end. */
  ghost function AfterPass(p: Progress, buffer: seq<Item>, delay: nat): Progress
    requires Ready(p, buffer)
  {
    var start, newest := StartOf(p, buffer), buffer[|buffer| - 1].timestamp;
    if newest - start > delay then
      Progress(false, newest - delay, p.processed + Window(buffer, start, newest - delay))
    else
      Progress(false, start, p.processed)
  }

  lemma {:induction false} WindowOfTail(buffer: seq<Item>, start: nat, end: nat)
    requires Ordered(buffer) && start <= end && LowerBound(buffer, start) == 0
    ensures Window(buffer, start, end) == buffer[..LowerBound(buffer, end)]
  {
    if buffer != [] && buffer[0].timestamp < end {
      var rest := buffer[1..];
      assert rest != [] ==> Before(buffer[0], rest[0]);
      WindowOfTail(rest, start, end);
      assert buffer[..LowerBound(buffer, end)] == [buffer[0]] + rest[..LowerBound(rest, end)];
    } else if buffer != [] {
      NothingInWindow(buffer, start, end);
    }
  }

  lemma {:induction false} NothingInWindow(buffer: seq<Item>, start: nat, end: nat)
    requires Ordered(buffer) && (buffer != [] ==> buffer[0].timestamp >= end)
    ensures Window(buffer, start, end) == []
  {
    if buffer != [] {
      assert |buffer| > 1 ==> Before(buffer[0], buffer[1]);
      NothingInWindow(buffer[1..], start, end);
    }
  }

  lemma OlderHeadIsSkipped(buffer: seq<Item>, start: nat, end: nat)
    requires Ordered(buffer) && start <= end && buffer != [] && buffer[0].timestamp < start
    ensures Ordered(buffer[1..]) && Window(buffer, start, end) == Window(buffer[1..], start, end)
    ensures LowerBound(buffer, start) == LowerBound(buffer[1..], start) + 1
    ensures LowerBound(buffer, end) == LowerBound(buffer[1..], end) + 1
  {
  }

  lemma SliceOfTail(buffer: seq<Item>, a: nat, b: nat)
    requires a <= b < |buffer|
    ensures buffer[a + 1..b + 1] == buffer[1..][a..b]
  {
    var rest := buffer[1..];
    forall i | 0 <= i < b - a ensures buffer[a + 1..b + 1][i] == rest[a..b][i] {
      assert buffer[a + 1..b + 1][i] == buffer[a + 1 + i] == rest[a + i];
    }
  }

  /** Between the two lower bounds lie exactly the items of the window. */
  lemma {:induction false} WindowIsBetweenBounds(buffer: seq<Item>, start: nat, end: nat)
    requires Ordered(buffer) && start <= end
    ensures LowerBound(buffer, start) <= LowerBound(buffer, end)
    ensures Window(buffer, start, end) == buffer[LowerBound(buffer, start)..LowerBound(buffer, end)]
  {
    if buffer != [] && buffer[0].timestamp < start {
      OlderHeadIsSkipped(buffer, start, end);
      WindowIsBetweenBounds(buffer[1..], start, end);
      SliceOfTail(buffer, LowerBound(buffer[1..], start), LowerBound(buffer[1..], end));
    } else {
      WindowOfTail(buffer, start, end);
    }
  }

  lemma {:induction false} WindowIsFilter(buffer: seq<Item>, start: nat, end: nat, x: Item)
    ensures x in Window(buffer, start, end) <==> x in buffer && start <= x.timestamp < end
  {
    if buffer != [] {
      WindowIsFilter(buffer[1..], start, end, x);
      assert buffer == [buffer[0]] + buffer[1..];
    }
  }

  lemma WindowIsOrdered(buffer: seq<Item>, start: nat, end: nat)
    requires Ordered(buffer) && start <= end
    ensures Ordered(Window(buffer, start, end))
  {
    WindowIsBetweenBounds(buffer, start, end);
  }

  /** These are the stored items, not older than `start`, that are more than the delay older than the
      newest. */
  ghost predicate DelayHasPassed(items: seq<Item>, buffer: seq<Item>, start: nat, delay: nat)
    requires buffer != []
  {
    forall x :: x in items <==>
      x in buffer && start <= x.timestamp && x.timestamp + delay < buffer[|buffer| - 1].timestamp
  }

  /** Where a pass ends: the delay behind the newest item, if that is past where it starts. */
  function EndOf(buffer: seq<Item>, start: nat, delay: nat): nat
    requires buffer != []
  {
    var newest := buffer[|buffer| - 1].timestamp;
    if newest > start + delay then newest - delay else start
  }

  lemma WindowLags(buffer: seq<Item>, start: nat, delay: nat)
    requires buffer != []
    ensures DelayHasPassed(Window(buffer, start, EndOf(buffer, start, delay)), buffer, start, delay)
  {
    var items := Window(buffer, start, EndOf(buffer, start, delay));
    forall x
      ensures x in items <==>
                x in buffer && start <= x.timestamp && x.timestamp + delay < buffer[|buffer| - 1].timestamp
    {
      WindowIsFilter(buffer, start, EndOf(buffer, start, delay), x);
    }
  }

  /** A pass processes up to there, in order. */
  lemma AfterPassLags(p: Progress, buffer: seq<Item>, delay: nat) returns (items: seq<Item>)
    requires Ready(p, buffer)
    ensures var start := StartOf(p, buffer);
            && AfterPass(p, buffer, delay) == Progress(false, EndOf(buffer, start, delay), p.processed + items)
            && DelayHasPassed(items, buffer, start, delay)
  {
    var start := StartOf(p, buffer);
    items := Window(buffer, start, EndOf(buffer, start, delay));
    WindowLags(buffer, start, delay);
    if EndOf(buffer, start, delay) == start {
      EmptyWindow(buffer, start);
      assert p.processed + [] == p.processed;
    }
  }

  lemma {:induction false} EmptyWindow(buffer: seq<Item>, start: nat)
    ensures Window(buffer, start, start) == []
  {
    if buffer != [] {
      EmptyWindow(buffer[1..], start);
    }
  }

  class PostProcessor {
    const delay: nat
    var firstCycle: bool
    var processedElement: nat
    var numPayloads: nat
    ghost var processed: seq<Item>

    ghost function State(): Progress
      reads this
    {
      Progress(firstCycle, processedElement, processed)
    }

    constructor (delay: nat)
      ensures this.delay == delay && State() == Progress(true, 0, []) && numPayloads == 0
    {
      this.delay, firstCycle, processedElement, processed, numPayloads := delay, true, 0, [], 0;
    }

    method PostprocessItem(x: Item)
      modifies this`processed, this`numPayloads
      ensures processed == old(processed) + [x] && numPayloads == old(numPayloads) + 1
    {
      processed := processed + [x];
      numPayloads := numPayloads + 1;
    }

    /** The loop of a pass, from one iterator to another that is not before it. */
    method ProcessRange(buffer: seq<Item>, startIter: nat, endIter: nat)
      requires startIter <= endIter <= |buffer|
      modifies this`processed, this`numPayloads
      ensures processed == old(processed) + buffer[startIter..endIter]
      ensures numPayloads == old(numPayloads) + (endIter - startIter)
    {
      ghost var done, counted := processed, numPayloads;
      var it := startIter;
      while it != endIter
        invariant startIter <= it <= endIter
        invariant processed == done + buffer[startIter..it] && numPayloads == counted + (it - startIter)
        decreases endIter - it
      {
        assert buffer[startIter..it + 1] == buffer[startIter..it] + [buffer[it]];
        PostprocessItem(buffer[it]);
        it := it + 1;
      }
    }

    /** A deferred pass over the buffer: it processes what is more than the delay older than the newest
        item, from where the last pass ended on. */
    method Pass(buffer: seq<Item>)
      requires Ready(State(), buffer) && delay < U64
      modifies this
      ensures State() == AfterPass(old(State()), buffer, delay)
      ensures var newest := buffer[|buffer| - 1].timestamp;
              var start := if old(firstCycle) then buffer[0].timestamp else old(processedElement);
              && processedElement == (if newest > start + delay then newest - delay else start)
              && |old(processed)| <= |processed|
              && DelayHasPassed(processed[|old(processed)|..], buffer, start, delay)
      ensures numPayloads - old(numPayloads) == |processed| - |old(processed)|
    {
      ghost var before := processed;
      ghost var items := AfterPassLags(State(), buffer, delay);
      ProcessWindow(buffer);
      assert processed[|before|..] == items;
    }

    /** The window of a pass; differences are those of unsigned 64-bit timestamps. */
    method ProcessWindow(buffer: seq<Item>)
      requires Ready(State(), buffer) && delay < U64
      modifies this
      ensures State() == AfterPass(old(State()), buffer, delay)
      ensures numPayloads - old(numPayloads) == |processed| - |old(processed)|
    {
      var newest := buffer[|buffer| - 1].timestamp;
      if firstCycle {
        processedElement := buffer[0].timestamp;
        firstCycle := false;
      }
      if SubU64(newest, processedElement) > delay {
        var endWindow := SubU64(newest, delay);
        WindowIsBetweenBounds(buffer, processedElement, endWindow);
        var startIter := LowerBound(buffer, processedElement);
        processedElement := endWindow;
        var endIter := LowerBound(buffer, processedElement);
        ProcessRange(buffer, startIter, endIter);
      }
    }
  }
}
