/** What the result code of a request promises on a buffer without gaps. */
module Coverage {
  import opened Arithmetic
  import opened Elements
  import opened RequestWindow

  /** Frames that follow each other tick by tick from `first` on. */
  ghost predicate Ticks(fs: seq<Frame>, first: nat, tickDiff: nat) {
    forall i | 0 <= i < |fs| :: fs[i].timestamp == first + i * tickDiff
  }

  /** The frames cover [begin, end): they follow each other without gap or overlap, the first one
      contains the start of the window and the last one its end. */
  ghost predicate Tiles(fs: seq<Frame>, begin: nat, end: nat, tickDiff: nat) {
    && fs != []
    && Ticks(fs, fs[0].timestamp, tickDiff)
    && fs[0].timestamp <= begin < fs[0].timestamp + tickDiff
    && fs[|fs| - 1].timestamp < end <= fs[|fs| - 1].timestamp + tickDiff
  }

  ghost predicate Contiguous(c: seq<Element>, fmt: Format) {
    && c != [] && fmt.Valid()
    && EquallySpaced(c, fmt.Span())
    && forall i | 0 <= i < |c| :: WellFormed(c[i], fmt)
  }

  /** The frames of a contiguous buffer run through all its ticks. */
  lemma {:induction false} AllFramesTick(c: seq<Element>, fmt: Format)
    requires Contiguous(c, fmt)
    ensures |AllFrames(c)| == |c| * fmt.numFrames && Ticks(AllFrames(c), c[0].timestamp, fmt.tickDiff)
  {
    var init, last := c[..|c| - 1], c[|c| - 1];
    forall i | 0 <= i < |last.frames| ensures last.frames[i].timestamp == last.timestamp + i * fmt.tickDiff {
      ConsecutiveTicks(last.frames, last.timestamp, fmt.tickDiff, i);
    }
    if init == [] {
      assert AllFrames(init) == [];
      TicksAppend([], last.frames, c[0].timestamp, fmt.tickDiff);
    } else {
      AllFramesTick(init, fmt);
      MulAssociates(|init|, fmt.numFrames, fmt.tickDiff);
      SpanIsProduct(fmt);
      TicksAppend(AllFrames(init), last.frames, c[0].timestamp, fmt.tickDiff);
      MulSuccessor(|init|, fmt.numFrames);
    }
  }

  lemma SpanIsProduct(fmt: Format)
    ensures fmt.Span() == fmt.numFrames * fmt.tickDiff
  {
  }

  lemma TicksAppend(a: seq<Frame>, b: seq<Frame>, first: nat, tickDiff: nat)
    requires Ticks(a, first, tickDiff) && Ticks(b, first + |a| * tickDiff, tickDiff)
    ensures Ticks(a + b, first, tickDiff)
  {
    forall i | 0 <= i < |a + b| ensures (a + b)[i].timestamp == first + i * tickDiff {
      MulDistributes(|a|, i - |a|, tickDiff);
    }
  }

  lemma TicksSlice(fs: seq<Frame>, first: nat, tickDiff: nat, a: nat, b: nat)
    requires Ticks(fs, first, tickDiff) && a <= b <= |fs|
    ensures Ticks(fs[a..b], first + a * tickDiff, tickDiff)
  {
    forall i | 0 <= i < b - a ensures fs[a..b][i].timestamp == first + a * tickDiff + i * tickDiff {
      MulDistributes(a, i, tickDiff);
    }
  }

  lemma {:induction false} InWindowStored(fs: seq<Frame>, begin: nat, end: nat, tickDiff: nat)
    ensures forall f | f in InWindow(fs, begin, end, tickDiff) :: f in fs && Overlaps(f, begin, end, tickDiff)
  {
    if fs != [] {
      InWindowStored(fs[..|fs| - 1], begin, end, tickDiff);
    }
  }

  /** If the overlapping frames are one stretch, the filter returns that stretch. */
  lemma OverlapIsStretch(before: seq<Frame>, middle: seq<Frame>, after: seq<Frame>,
                         begin: nat, end: nat, tickDiff: nat)
    requires forall f | f in before :: !Overlaps(f, begin, end, tickDiff)
    requires forall f | f in middle :: Overlaps(f, begin, end, tickDiff)
    requires forall f | f in after :: !Overlaps(f, begin, end, tickDiff)
    ensures InWindow((before + middle) + after, begin, end, tickDiff) == middle
  {
    InWindowNone(before, begin, end, tickDiff);
    InWindowAll(middle, begin, end, tickDiff);
    InWindowNone(after, begin, end, tickDiff);
    InWindowConcat(before, middle, begin, end, tickDiff);
    InWindowConcat(before + middle, after, begin, end, tickDiff);
  }

  /** Which ticks overlap a window: those from the tick the window starts in up to its end. */
  lemma OverlappingTicks(first: nat, tickDiff: nat, begin: nat, end: nat, i: nat)
    requires tickDiff >= 1 && first <= begin < end
    ensures var a, b := (begin - first) / tickDiff, DivideUp(end - first, tickDiff);
            && a < b
            && (Overlaps(Frame(first + i * tickDiff, 0), begin, end, tickDiff) <==> a <= i < b)
            && first + a * tickDiff <= begin < first + a * tickDiff + tickDiff
            && first + (b - 1) * tickDiff < end <= first + (b - 1) * tickDiff + tickDiff
  {
    var a, b := (begin - first) / tickDiff, DivideUp(end - first, tickDiff);
    DivisionSplits(begin - first, tickDiff);
    DivideUpIsLeast(end - first, tickDiff);
    if b <= a { MulMonotone(b, a, tickDiff); }
    MulSuccessor(i, tickDiff);
    MulSuccessor(b - 1, tickDiff);
    if i < a { MulMonotone(i + 1, a, tickDiff); } else { MulMonotone(a, i, tickDiff); }
    if b <= i { MulMonotone(b, i, tickDiff); }
  }

  /** The stretch of a run of ticks that overlaps a window inside it. */
  lemma OverlappingStretch(fs: seq<Frame>, first: nat, tickDiff: nat, begin: nat, end: nat)
    returns (a: nat, b: nat)
    requires Ticks(fs, first, tickDiff) && tickDiff >= 1
    requires first <= begin < end <= first + |fs| * tickDiff
    ensures a < b <= |fs|
    ensures forall i | 0 <= i < |fs| :: Overlaps(fs[i], begin, end, tickDiff) <==> a <= i < b
    ensures fs[a].timestamp <= begin < fs[a].timestamp + tickDiff
    ensures fs[b - 1].timestamp < end <= fs[b - 1].timestamp + tickDiff
  {
    a, b := (begin - first) / tickDiff, DivideUp(end - first, tickDiff);
    DivideUpWithin(end - first, tickDiff, |fs|);
    OverlappingTicks(first, tickDiff, begin, end, 0);
    forall i | 0 <= i < |fs| ensures Overlaps(fs[i], begin, end, tickDiff) <==> a <= i < b {
      OverlappingTicks(first, tickDiff, begin, end, i);
    }
  }

  /** A non-empty window inside a run of ticks is tiled by the frames that overlap it. */
  lemma InsideIsTiled(fs: seq<Frame>, first: nat, tickDiff: nat, begin: nat, end: nat)
    requires Ticks(fs, first, tickDiff) && tickDiff >= 1
    requires first <= begin < end <= first + |fs| * tickDiff
    ensures Tiles(InWindow(fs, begin, end, tickDiff), begin, end, tickDiff)
  {
    var a, b := OverlappingStretch(fs, first, tickDiff, begin, end);
    SplitTwice(fs, a, b);
    OverlapIsStretch(fs[0..a], fs[a..b], fs[b..|fs|], begin, end, tickDiff);
    TicksSlice(fs, first, tickDiff, a, b);
  }

  /** A non-empty window is tiled exactly when it lies between the first tick of the oldest element
      and the last tick of the newest. */
  lemma TiledExactlyWhenInside(c: seq<Element>, fmt: Format, begin: nat, end: nat)
    requires Contiguous(c, fmt) && begin < end
    ensures Tiles(InWindow(AllFrames(c), begin, end, fmt.tickDiff), begin, end, fmt.tickDiff)
       <==> c[0].timestamp <= begin && end <= c[|c| - 1].timestamp + fmt.Span()
  {
    var fs, first := AllFrames(c), c[0].timestamp;
    AllFramesTick(c, fmt);
    MulAssociates(|c|, fmt.numFrames, fmt.tickDiff);
    SpanIsProduct(fmt);
    MulSuccessor(|c| - 1, fmt.Span());
    assert first + |fs| * fmt.tickDiff == c[|c| - 1].timestamp + fmt.Span();
    if first <= begin && end <= first + |fs| * fmt.tickDiff {
      InsideIsTiled(fs, first, fmt.tickDiff, begin, end);
    } else {
      OutsideIsNotTiled(fs, first, fmt.tickDiff, begin, end);
    }
  }

  /** Frames between two ticks do not tile a window that is not between them. */
  lemma BeyondIsNotTiled(fs: seq<Frame>, first: nat, last: nat, tickDiff: nat, begin: nat, end: nat)
    requires forall f | f in fs :: first <= f.timestamp && f.timestamp + tickDiff <= last
    requires !(first <= begin && end <= last)
    ensures !Tiles(InWindow(fs, begin, end, tickDiff), begin, end, tickDiff)
  {
    var w := InWindow(fs, begin, end, tickDiff);
    InWindowStored(fs, begin, end, tickDiff);
    if w != [] {
      assert w[0] in w && w[|w| - 1] in w;
    }
  }

  lemma OutsideIsNotTiled(fs: seq<Frame>, first: nat, tickDiff: nat, begin: nat, end: nat)
    requires Ticks(fs, first, tickDiff) && !(first <= begin && end <= first + |fs| * tickDiff)
    ensures !Tiles(InWindow(fs, begin, end, tickDiff), begin, end, tickDiff)
  {
    forall f | f in fs ensures first <= f.timestamp && f.timestamp + tickDiff <= first + |fs| * tickDiff {
      var i :| 0 <= i < |fs| && fs[i] == f;
      MulSuccessor(i, tickDiff);
      MulMonotone(i + 1, |fs|, tickDiff);
    }
    BeyondIsNotTiled(fs, first, first + |fs| * tickDiff, tickDiff, begin, end);
  }

  /** Found means covered: the code is Found exactly when the pieces tile the window and the window
      stays one span clear of the oldest timestamp and does not pass the newest. */
  lemma FoundMeansCovered(c: seq<Element>, fmt: Format, begin: nat, end: nat)
    requires Contiguous(c, fmt) && begin < end
    ensures Classify(c[0].timestamp, c[|c| - 1].timestamp, fmt.Span(), begin, end) == Found
       <==> && Tiles(InWindow(AllFrames(c), begin, end, fmt.tickDiff), begin, end, fmt.tickDiff)
            && c[0].timestamp + fmt.Span() <= begin && end <= c[|c| - 1].timestamp
  {
    TiledExactlyWhenInside(c, fmt, begin, end);
    MulMonotone(0, |c| - 1, fmt.Span());
  }

  /** Covered does not mean found: one buffer, and two windows its frames tile. The one that starts
      in the oldest element is answered NotFound, the one that ends in the newest Partial. */
  lemma CoveredNeedNotBeFound()
    ensures exists c: seq<Element>, fmt: Format ::
              && Contiguous(c, fmt) && fmt.Span() == 1
              && Tiles(InWindow(AllFrames(c), 5, 6, 1), 5, 6, 1)
              && Classify(c[0].timestamp, c[|c| - 1].timestamp, 1, 5, 6) == NotFound
              && Tiles(InWindow(AllFrames(c), 6, 8, 1), 6, 8, 1)
              && Classify(c[0].timestamp, c[|c| - 1].timestamp, 1, 6, 8) == Partial
  {
    var fmt := Format(1, 1);
    var c := [Element(5, [Frame(5, 0)]), Element(6, [Frame(6, 0)]), Element(7, [Frame(7, 0)])];
    assert fmt.Span() == 1;
    assert Contiguous(c, fmt);
    TiledExactlyWhenInside(c, fmt, 5, 6);
    TiledExactlyWhenInside(c, fmt, 6, 8);
  }
}
