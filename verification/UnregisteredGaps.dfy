/** What a request loses when the buffer has a gap that the registry does not name: the constant-time
    search may start behind elements that overlap the window. */
module UnregisteredGaps {
  import opened Arithmetic
  import opened Elements
  import opened Searches
  import opened RequestWindow

  /** Some ticks of the element lie in the window. */
  predicate Reaches(e: Element, fmt: Format, begin: nat, end: nat) {
    e.timestamp + fmt.Span() > begin && e.timestamp < end
  }

  lemma {:induction false} SomeOverlap(fs: seq<Frame>, begin: nat, end: nat, tickDiff: nat, k: nat)
    requires k < |fs| && Overlaps(fs[k], begin, end, tickDiff)
    ensures InWindow(fs, begin, end, tickDiff) != []
  {
    if k < |fs| - 1 {
      SomeOverlap(fs[..|fs| - 1], begin, end, tickDiff, k);
    }
  }

  /** The tick `x` of an element is in one of its frames. */
  lemma FrameOfTick(e: Element, fmt: Format, x: nat) returns (k: nat)
    requires fmt.Valid() && WellFormed(e, fmt) && e.timestamp <= x < e.timestamp + fmt.Span()
    ensures k < |e.frames| && e.frames[k].timestamp <= x < e.frames[k].timestamp + fmt.tickDiff
  {
    k := (x - e.timestamp) / fmt.tickDiff;
    DivisionSplits(x - e.timestamp, fmt.tickDiff);
    if k >= fmt.numFrames {
      MulMonotone(fmt.numFrames, k, fmt.tickDiff);
    }
    ConsecutiveTicks(e.frames, e.timestamp, fmt.tickDiff, k);
  }

  /** An element that reaches into a window that is not empty has a frame that overlaps it. */
  lemma ReachingContributes(e: Element, fmt: Format, begin: nat, end: nat)
    requires fmt.Valid() && WellFormed(e, fmt) && begin < end
    ensures InWindow(e.frames, begin, end, fmt.tickDiff) != [] <==> Reaches(e, fmt, begin, end)
  {
    if Reaches(e, fmt, begin, end) {
      var k := FrameOfTick(e, fmt, if begin < e.timestamp then e.timestamp else begin);
      SomeOverlap(e.frames, begin, end, fmt.tickDiff, k);
    } else {
      ElementOutside(e, fmt, begin, end);
    }
  }

  lemma {:induction false} SomethingFrom(c: seq<Element>, begin: nat, end: nat, tickDiff: nat, i: nat)
    requires i < |c| && InWindow(c[i].frames, begin, end, tickDiff) != []
    ensures InWindow(AllFrames(c), begin, end, tickDiff) != []
  {
    InWindowConcat(AllFrames(c[..|c| - 1]), c[|c| - 1].frames, begin, end, tickDiff);
    if i < |c| - 1 {
      SomethingFrom(c[..|c| - 1], begin, end, tickDiff, i);
    }
  }

  /** Dropping the elements before `start` loses nothing exactly when none of them reaches into the
      window. */
  lemma DropLosesNothingExactlyWhen(c: seq<Element>, fmt: Format, start: nat, begin: nat, end: nat)
    requires fmt.Valid() && start <= |c| && begin < end && forall i | 0 <= i < |c| :: WellFormed(c[i], fmt)
    ensures InWindow(AllFrames(c[start..]), begin, end, fmt.tickDiff)
         == InWindow(AllFrames(c), begin, end, fmt.tickDiff)
       <==> forall i | 0 <= i < start :: !Reaches(c[i], fmt, begin, end)
  {
    var skipped := c[..start];
    assert c == skipped + c[start..];
    AllFramesConcat(skipped, c[start..]);
    InWindowConcat(AllFrames(skipped), AllFrames(c[start..]), begin, end, fmt.tickDiff);
    if i :| 0 <= i < start && Reaches(c[i], fmt, begin, end) {
      ReachingContributes(skipped[i], fmt, begin, end);
      SomethingFrom(skipped, begin, end, fmt.tickDiff, i);
    } else {
      forall i | 0 <= i < start ensures InWindow(skipped[i].frames, begin, end, fmt.tickDiff) == [] {
        ReachingContributes(skipped[i], fmt, begin, end);
      }
      NothingFrom(skipped, begin, end, fmt.tickDiff);
    }
  }

  /** Had there been no gap before it, the element at position `i` would end before the window starts. */
  predicate DueBefore(c: seq<Element>, fmt: Format, begin: nat, i: nat)
    requires c != []
  {
    c[0].timestamp + (i + 1) * fmt.Span() < begin
  }

  /** These are the elements the search without the error flag passes over. */
  lemma SkippedExactlyWhen(c: seq<Element>, fmt: Format, begin: nat, i: nat)
    requires c != [] && Searchable(c, fmt) && begin < U64 && fmt.Span() < U64 && StartOf(c, fmt, false, begin) < |c|
    ensures i < StartOf(c, fmt, false, begin) <==> DueBefore(c, fmt, begin, i)
  {
    var key := SubU64(begin, fmt.Span());
    if begin < c[0].timestamp + fmt.Span() {
      NoStartBeforeSpan(c, fmt, false, begin);
    }
    SpanPositive(fmt);
    var x := key - c[0].timestamp;
    var p := DivideUp(x, fmt.Span());
    assert p == StartOf(c, fmt, false, begin);
    DivideUpIsLeast(x, fmt.Span());
    MulSuccessor(i, fmt.Span());
    if p <= i {
      MulMonotone(p, i, fmt.Span());
    }
  }

  /** A request whose search leads to a stored element is given all stored frames that overlap its window
      exactly when the registry names MISSING_FRAMES, or no element that reaches into the window was due
      before it. */
  lemma AllIsDeliveredExactlyWhen(c: seq<Element>, fmt: Format, missingFrames: bool, begin: nat, end: nat)
    requires c != [] && Searchable(c, fmt) && begin < U64 && fmt.Span() < U64 && begin < end
    requires StartOf(c, fmt, missingFrames, begin) < |c|
    ensures InWindow(AllFrames(c[StartOf(c, fmt, missingFrames, begin)..]), begin, end, fmt.tickDiff)
         == InWindow(AllFrames(c), begin, end, fmt.tickDiff)
       <==> missingFrames
            || forall i | 0 <= i < |c| :: !(Reaches(c[i], fmt, begin, end) && DueBefore(c, fmt, begin, i))
  {
    var start := StartOf(c, fmt, missingFrames, begin);
    DropLosesNothingExactlyWhen(c, fmt, start, begin, end);
    if missingFrames {
      if begin < c[0].timestamp + fmt.Span() {
        NoStartBeforeSpan(c, fmt, true, begin);
      }
    } else {
      forall i | 0 <= i < |c| ensures i < start <==> DueBefore(c, fmt, begin, i) {
        SkippedExactlyWhen(c, fmt, begin, i);
      }
    }
  }

  function OneFrame(timestamp: nat): Element {
    Element(timestamp, [Frame(timestamp, 0)])
  }

  lemma OneFrameIsWellFormed(timestamp: nat)
    ensures WellFormed(OneFrame(timestamp), Format(1, 10))
  {
  }

  lemma GapIsSearchable(c: seq<Element>, fmt: Format)
    requires fmt == Format(1, 10)
    requires c == [OneFrame(0), OneFrame(30), OneFrame(40), OneFrame(50), OneFrame(60)]
    ensures Searchable(c, fmt) && fmt.Span() == 10
  {
    SpacedByNeighbours(c, 10);
    forall i | 0 <= i < |c| ensures WellFormed(c[i], fmt) {
      OneFrameIsWellFormed(c[i].timestamp);
    }
  }

  lemma GapMovesStart(c: seq<Element>, fmt: Format)
    requires fmt == Format(1, 10)
    requires c == [OneFrame(0), OneFrame(30), OneFrame(40), OneFrame(50), OneFrame(60)]
    ensures fmt.Span() < U64 && StartOf(c, fmt, false, 45) == 4
  {
    assert DivideUp(35, 10) == 4;
  }

  /** It does lose frames: two stored elements reach into this window, the code is Found, and the fragment
      is empty. */
  lemma GapLosesFrames() returns (c: seq<Element>, fmt: Format)
    ensures c != [] && Searchable(c, fmt) && fmt.Span() < U64 && StartOf(c, fmt, false, 45) < |c|
    ensures ClassifyFound(c[0].timestamp, c[|c| - 1].timestamp, true, 45, 55) == Found
    ensures InWindow(AllFrames(c[StartOf(c, fmt, false, 45)..]), 45, 55, fmt.tickDiff) == []
    ensures |c| == 5 && Reaches(c[2], fmt, 45, 55) && Reaches(c[3], fmt, 45, 55)
    ensures InWindow(AllFrames(c), 45, 55, fmt.tickDiff) != []
  {
    fmt := Format(1, 10);
    c := [OneFrame(0), OneFrame(30), OneFrame(40), OneFrame(50), OneFrame(60)];
    GapIsSearchable(c, fmt);
    GapMovesStart(c, fmt);
    assert InWindow(AllFrames(c[4..]), 45, 55, fmt.tickDiff) == [] by {
      NothingBetween(c, fmt, 45, 55, 4, 5);
      assert c[4..5] == c[4..];
    }
    assert InWindow(AllFrames(c), 45, 55, fmt.tickDiff) != [] by {
      ReachingContributes(c[2], fmt, 45, 55);
      SomethingFrom(c, 45, 55, fmt.tickDiff, 2);
    }
  }
}
