/** The same window extraction on an ordered-set buffer, whose lower bound has an answer for keys before
    the oldest element too. Only here can a request be answered "partially old". */
module OrderedWindow {
  import opened Arithmetic
  import opened Elements
  import opened Searches
  import opened RequestWindow
  import opened Coverage

  /** What a request on a non-empty ordered set is told: its search leads nowhere exactly when the key
      wraps. */
  function ClassifyOrdered(oldest: nat, newest: nat, span: nat, begin: nat, end: nat): ResultCode {
    ClassifyFound(oldest, newest, span <= begin, begin, end)
  }

  /** The lower bound of the key one span before the window exists exactly when the key did not wrap. */
  lemma KeyFindsOrdered(c: seq<Element>, fmt: Format, begin: nat)
    requires c != [] && Searchable(c, fmt) && begin <= c[|c| - 1].timestamp
    ensures begin < U64 && fmt.Span() < U64
    ensures FirstAtLeast(c, SubU64(begin, fmt.Span())) < |c| <==> fmt.Span() <= begin
  {
    assert WellFormed(c[|c| - 1], fmt);
    if begin < fmt.Span() {
      forall i | 0 <= i < |c| ensures c[i].timestamp < SubU64(begin, fmt.Span()) {
        assert WellFormed(c[i], fmt);
      }
    }
  }

  /** Window extraction from an ordered set: besides Found and Partial also PartiallyOld comes with
      exactly the stored frames that overlap the window. */
  method GetOrderedPieces(c: seq<Element>, fmt: Format, begin: nat, end: nat)
    returns (code: ResultCode, pieces: seq<seq<Frame>>)
    requires c != [] && Searchable(c, fmt) && begin < U64
    ensures code == ClassifyOrdered(c[0].timestamp, c[|c| - 1].timestamp, fmt.Span(), begin, end)
    ensures CodeTells(c, fmt.Span() <= begin, begin, end, code)
    ensures code == Found || code == Partial || code == PartiallyOld ==>
              Flatten(pieces) == InWindow(AllFrames(c), begin, end, fmt.tickDiff)
    ensures code == NotYet || code == TooOld || code == NotFound ==> pieces == []
  {
    var lastTs, newestTs := c[0].timestamp, c[|c| - 1].timestamp;
    code, pieces := Unknown, [];
    if begin > newestTs {
      code := NotYet;
    } else if end < lastTs {
      code := TooOld;
    } else {
      KeyFindsOrdered(c, fmt, begin);
      var startIter := FirstAtLeast(c, SubU64(begin, fmt.Span()));
      if startIter == |c| {
        code := NotFound;
      } else {
        if end > newestTs {
          code := Partial;
        } else if begin < lastTs {
          code := PartiallyOld;
        } else {
          code := Found;
        }
        ghost var stop := WalkedStretch(c, fmt, begin, end, startIter);
        NothingBefore(c, fmt, begin, end, startIter);
        pieces := CollectOrdered(c, fmt, begin, end, startIter, stop);
      }
    }
    SearchableIsSorted(c, fmt);
    ClassifyFoundTells(c, fmt.Span() <= begin, begin, end);
  }

  method CollectOrdered(c: seq<Element>, fmt: Format, begin: nat, end: nat, startIter: nat, ghost stop: nat)
    returns (pieces: seq<seq<Frame>>)
    requires fmt.Valid() && fmt.Span() <= begin < U64 && EndsAt(c, fmt, end, startIter, stop)
    ensures Flatten(pieces) == OverlappingFrames(c, startIter, stop, begin, end, fmt.tickDiff)
  {
    SpanPositive(fmt);
    pieces := [];
    var iter := startIter;
    while iter < |c| && c[iter].timestamp < end
      invariant startIter <= iter <= stop
      invariant Flatten(pieces) == OverlappingFrames(c, startIter, iter, begin, end, fmt.tickDiff)
    {
      pieces := AppendElement(pieces, c[iter], fmt, begin, end);
      iter := iter + 1;
    }
  }

  /** On an ordered set, too, Found means covered; the start of the buffer is no longer excepted, but
      windows within the first span of ticks are. */
  lemma OrderedFoundMeansCovered(c: seq<Element>, fmt: Format, begin: nat, end: nat)
    requires Contiguous(c, fmt) && begin < end
    ensures ClassifyOrdered(c[0].timestamp, c[|c| - 1].timestamp, fmt.Span(), begin, end) == Found
       <==> && Tiles(InWindow(AllFrames(c), begin, end, fmt.tickDiff), begin, end, fmt.tickDiff)
            && fmt.Span() <= begin && end <= c[|c| - 1].timestamp
  {
    TiledExactlyWhenInside(c, fmt, begin, end);
    MulMonotone(0, |c| - 1, fmt.Span());
  }

  /** A window that starts before the oldest element gets what the window from that element on gets. */
  lemma {:induction false} EarlierBeginChangesNothing(fs: seq<Frame>, first: nat, begin: nat, end: nat, tickDiff: nat)
    requires begin <= first && tickDiff >= 1 && forall f | f in fs :: f.timestamp >= first
    ensures InWindow(fs, begin, end, tickDiff) == InWindow(fs, first, end, tickDiff)
  {
    if fs != [] {
      assert fs[|fs| - 1] in fs;
      EarlierBeginChangesNothing(fs[..|fs| - 1], first, begin, end, tickDiff);
    }
  }

  /** PartiallyOld means covered from the oldest element on: the frames tile the rest of the window,
      unless the window ends just where the buffer begins; then there are none. */
  lemma PartiallyOldMeansRestCovered(c: seq<Element>, fmt: Format, begin: nat, end: nat)
    requires Contiguous(c, fmt) && begin < end
    requires ClassifyOrdered(c[0].timestamp, c[|c| - 1].timestamp, fmt.Span(), begin, end) == PartiallyOld
    ensures var fs, oldest := InWindow(AllFrames(c), begin, end, fmt.tickDiff), c[0].timestamp;
            && (Tiles(fs, oldest, end, fmt.tickDiff) <==> oldest < end)
            && (oldest == end <==> fs == [])
  {
    var fs, oldest := AllFrames(c), c[0].timestamp;
    AllFramesTick(c, fmt);
    forall f | f in fs ensures f.timestamp >= oldest {
      var i :| 0 <= i < |fs| && fs[i] == f;
    }
    EarlierBeginChangesNothing(fs, oldest, begin, end, fmt.tickDiff);
    if oldest < end {
      TiledExactlyWhenInside(c, fmt, oldest, end);
    } else {
      InWindowNone(fs, begin, end, fmt.tickDiff);
    }
  }
}
