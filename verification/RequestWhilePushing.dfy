/** Window extraction while the producer keeps pushing. As long as a request runs nothing is popped, so
    what it sees of the buffer at one load of the write index is a beginning of what it sees at the
    next. */
module RequestWhilePushing {
  import opened Arithmetic
  import opened Elements
  import opened Searches
  import opened RequestWindow

  /** What is stored at one load is a beginning of what is stored at the other. */
  predicate Grows(views: seq<seq<Element>>, i: nat, j: nat)
    requires i < |views| && j < |views|
  {
    views[i] <= views[j]
  }

  /** The stored elements at the successive loads of the write index: at front(), at back(), in the
      search, and at every good() from then on. */
  ghost predicate Growing(views: seq<seq<Element>>, fmt: Format) {
    && views != [] && views[0] != [] && Searchable(views[|views| - 1], fmt)
    && forall i, j | 0 <= i <= j < |views| :: Grows(views, i, j)
  }

  /** The view at the i-th load; after the last push nothing changes any more. */
  function At(views: seq<seq<Element>>, i: nat): seq<Element>
    requires views != []
  {
    if i < |views| then views[i] else views[|views| - 1]
  }

  function Last(views: seq<seq<Element>>): seq<Element>
    requires views != []
  {
    views[|views| - 1]
  }

  /** What one view tells of a later one. */
  lemma ViewsGrow(views: seq<seq<Element>>, fmt: Format, i: nat, j: nat)
    requires Growing(views, fmt) && i <= j
    ensures At(views, i) <= At(views, j) <= Last(views) && At(views, i) != []
    ensures At(views, i)[0] == Last(views)[0]
    ensures Searchable(At(views, i), fmt) && Searchable(Last(views), fmt)
  {
    var n := |views| - 1;
    var first, second := if i < n then i else n, if j < n then j else n;
    assert Grows(views, 0, first) && Grows(views, first, second) && Grows(views, second, n);
  }

  /** Where the iterator of the search points: at a position, which may be the one after the newest
      element of its view, or past-the-end. */
  datatype Answer = PastTheEnd | Position(p: nat)

  /** The search on the view it loads its indices from. */
  function Search(c: seq<Element>, fmt: Format, key: nat, missingFrames: bool): (a: Answer)
    requires fmt.Valid()
    ensures a.Position? ==> a.p <= |c|
  {
    if c == [] || key < c[0].timestamp || (!missingFrames && key > NewestSlot(c, fmt)) then PastTheEnd
    else Answer.Position(Searches.Position(c, fmt, key, missingFrames))
  }

  /** The element after the newest one of the search is there when good() looks, although the key, having
      wrapped, was past everything: only the bisection leads there. */
  ghost predicate Overtaken(views: seq<seq<Element>>, fmt: Format, missingFrames: bool, begin: nat, end: nat)
    requires views != [] && At(views, 0) != [] && At(views, 1) != []
  {
    && begin <= At(views, 1)[|At(views, 1)| - 1].timestamp && end >= At(views, 0)[0].timestamp
    && missingFrames && begin < fmt.Span() && |At(views, 2)| < |At(views, 3)|
  }

  /** The element after the newest of a view is not where the key has wrapped to. */
  lemma NoRoomForWrappedKey(c: seq<Element>, d: seq<Element>, fmt: Format, key: nat)
    requires c != [] && c <= d && |c| < |d| && Searchable(d, fmt) && key + fmt.Span() >= U64
    ensures key > NewestSlot(c, fmt)
  {
    MulAssociates(|c|, fmt.tickDiff, fmt.numFrames);
    SpacedByPosition(d, fmt.Span(), |c|);
    assert WellFormed(d[|c|], fmt);
  }

  /** Windows that start less than a span after the oldest element. */
  lemma EarlyStartWhileGrowing(c: seq<Element>, next: seq<Element>, last: seq<Element>, fmt: Format,
                               missingFrames: bool, begin: nat)
    requires c != [] && c <= next <= last && Searchable(last, fmt) && Searchable(c, fmt)
    requires begin < U64 && fmt.Span() < U64 && begin < c[0].timestamp + fmt.Span()
    ensures var a := Search(c, fmt, SubU64(begin, fmt.Span()), missingFrames);
            && (a.Position? ==> a.p == |c|)
            && (a.Position? && a.p < |next| <==> missingFrames && begin < fmt.Span() && |c| < |next|)
  {
    var key := SubU64(begin, fmt.Span());
    NoStartBeforeSpan(c, fmt, missingFrames, begin);
    if begin < fmt.Span() {
      assert WellFormed(c[0], fmt);
      if !missingFrames && |c| < |next| {
        NoRoomForWrappedKey(c, last, fmt, key);
      }
    }
  }

  lemma SearchInsideBeginning(sampled: seq<Element>, c: seq<Element>, fmt: Format, key: nat, missingFrames: bool)
    requires fmt.Valid() && sampled != [] && sampled <= c && Sorted(c)
    requires sampled[0].timestamp <= key <= sampled[|sampled| - 1].timestamp
    requires missingFrames || EquallySpaced(sampled, fmt.Span())
    ensures Search(c, fmt, key, missingFrames) == Answer.Position(FirstAtLeast(sampled, key))
  {
    PositionInsideBeginning(sampled, c, fmt, key, missingFrames);
  }

  /** Windows that start at least a span after the oldest element. The newest timestamp was read on
      `sampled`, before the registry, and the search runs on `c`. */
  lemma LateStartWhileGrowing(sampled: seq<Element>, c: seq<Element>, last: seq<Element>, fmt: Format,
                              missingFrames: bool, begin: nat)
    requires fmt.Valid() && sampled != [] && sampled <= c <= last && Sorted(last) && Sorted(c)
    requires begin < U64 && fmt.Span() < U64 && begin <= sampled[|sampled| - 1].timestamp
    requires begin >= c[0].timestamp + fmt.Span() && (missingFrames || EquallySpaced(sampled, fmt.Span()))
    ensures Search(c, fmt, SubU64(begin, fmt.Span()), missingFrames)
         == Answer.Position(FirstAtLeast(last, begin - fmt.Span()))
    ensures FirstAtLeast(last, begin - fmt.Span()) < |sampled|
  {
    var key := begin - fmt.Span();
    assert SubU64(begin, fmt.Span()) == key;
    SearchInsideBeginning(sampled, c, fmt, key, missingFrames);
    BeginningHasFirst(sampled, last, key);
  }

  /** Whether the search leads to the linear position does not depend on what is pushed after the newest
      timestamp is read: a gap registered or not that comes after it is not in its way. */
  lemma StartWhileGrowing(views: seq<seq<Element>>, fmt: Format, missingFrames: bool, begin: nat)
    requires Growing(views, fmt) && begin < U64 && At(views, 0) != [] && At(views, 1) != []
    requires begin <= At(views, 1)[|At(views, 1)| - 1].timestamp
    ensures fmt.Span() < U64
    ensures begin >= At(views, 0)[0].timestamp + fmt.Span()
              && (missingFrames || EquallySpaced(At(views, 1), fmt.Span())) ==>
              && Search(At(views, 2), fmt, SubU64(begin, fmt.Span()), missingFrames)
                 == Answer.Position(FirstAtLeast(Last(views), begin - fmt.Span()))
              && FirstAtLeast(Last(views), begin - fmt.Span()) < |At(views, 1)|
    ensures begin < At(views, 0)[0].timestamp + fmt.Span() ==>
              var a := Search(At(views, 2), fmt, SubU64(begin, fmt.Span()), missingFrames);
              && (a.Position? ==> a.p == |At(views, 2)|)
              && (a.Position? && a.p < |At(views, 3)| <==>
                    missingFrames && begin < fmt.Span() && |At(views, 2)| < |At(views, 3)|)
  {
    ViewsGrow(views, fmt, 0, 2);
    ViewsGrow(views, fmt, 1, 2);
    ViewsGrow(views, fmt, 2, 3);
    SearchableSpan(At(views, 2), fmt);
    if begin < At(views, 0)[0].timestamp + fmt.Span() {
      EarlyStartWhileGrowing(At(views, 2), At(views, 3), Last(views), fmt, missingFrames, begin);
    } else if missingFrames || EquallySpaced(At(views, 1), fmt.Span()) {
      SearchableIsSorted(At(views, 2), fmt);
      SearchableIsSorted(Last(views), fmt);
      LateStartWhileGrowing(At(views, 1), At(views, 2), Last(views), fmt, missingFrames, begin);
    }
  }

  // The extraction

  /** What the elements from `start` to before `stop` contribute, element by element. */
  ghost function Contributions(c: seq<Element>, fmt: Format, start: nat, stop: nat, begin: nat, end: nat): seq<Frame>
    requires start <= stop <= |c|
  {
    if stop == start then
      []
    else
      Contributions(c, fmt, start, stop - 1, begin, end) + Contribution(c[stop - 1], fmt, begin, end)
  }

  /** Unless the comparison with the start of the window can wrap, these are the overlapping frames. */
  lemma {:induction false} ContributionsOverlap(c: seq<Element>, fmt: Format, start: nat, stop: nat,
                                                begin: nat, end: nat)
    requires start <= stop <= |c| && fmt.tickDiff <= begin
    ensures Contributions(c, fmt, start, stop, begin, end)
         == OverlappingFrames(c, start, stop, begin, end, fmt.tickDiff)
  {
    if start < stop {
      ContributionsOverlap(c, fmt, start, stop - 1, begin, end);
    }
  }

  /** What the walk from `start` to before `iter` has brought: all of it before the end of the window. */
  ghost predicate Walking(c: seq<Element>, fmt: Format, begin: nat, end: nat, start: nat, iter: nat,
                          pieces: seq<seq<Frame>>)
  {
    && start <= iter && AllBefore(c, start, iter, end)
    && (iter == start ==> pieces == [])
    && Flatten(pieces) == Contributions(c, fmt, start, iter, begin, end)
  }

  lemma WalksOn(c: seq<Element>, fmt: Format, begin: nat, end: nat, start: nat, iter: nat,
                fragPieces: seq<seq<Frame>>, pieces: seq<seq<Frame>>)
    requires Walking(c, fmt, begin, end, start, iter, fragPieces) && iter < |c| && c[iter].timestamp < end
    requires Flatten(pieces) == Flatten(fragPieces) + Contribution(c[iter], fmt, begin, end)
    ensures Walking(c, fmt, begin, end, start, iter + 1, pieces)
  {
  }

  /** A walk that starts behind the window brings nothing. */
  lemma NothingAtEnd(c: seq<Element>, fmt: Format, begin: nat, end: nat, start: nat, stop: nat,
                     pieces: seq<seq<Frame>>)
    requires Walking(c, fmt, begin, end, start, stop, pieces) && start < |c|
    ensures c[start].timestamp >= end ==> pieces == []
  {
  }

  /** One turn of the loop on a stored element: what the element contributes, and the increment, which
      always moves on but goes past the end when its second good() finds nothing there. */
  method CollectNext(views: seq<seq<Element>>, fmt: Format, begin: nat, end: nat, load: nat, iter: nat,
                     fragPieces: seq<seq<Frame>>, ghost start: nat)
    returns (pieces: seq<seq<Frame>>, pastTheEnd: bool)
    requires Growing(views, fmt) && begin < U64 && 1 <= load
    requires iter < |At(views, load)| && At(views, load)[iter].timestamp < end
    requires Walking(Last(views), fmt, begin, end, start, iter, fragPieces)
    ensures Walking(Last(views), fmt, begin, end, start, iter + 1, pieces)
    ensures pastTheEnd ==> |At(views, 1)| <= iter + 1
  {
    StoredIsWellFormed(views, fmt, load, iter);
    pieces := AppendElement(fragPieces, At(views, load)[iter], fmt, begin, end);
    WalksOn(Last(views), fmt, begin, end, start, iter, fragPieces, pieces);
    GrowsLonger(views, fmt, load, load + 1);
    GrowsLonger(views, fmt, 1, load + 2);
    var next := if iter < |At(views, load + 1)| then iter + 1 else iter;
    pastTheEnd := next >= |At(views, load + 2)|;
  }

  ghost predicate EndsBehind(sampled: seq<Element>, last: seq<Element>, end: nat, stop: nat) {
    stop < |sampled| && stop < |last| ==> last[stop].timestamp >= end
  }

  /** The loop has ended: at the end of the window, unless it reaches beyond what was stored when the
      newest timestamp was read. */
  ghost predicate Walked(views: seq<seq<Element>>, fmt: Format, begin: nat, end: nat, start: nat, stop: nat,
                         pieces: seq<seq<Frame>>)
    requires views != []
  {
    && Walking(Last(views), fmt, begin, end, start, stop, pieces)
    && EndsBehind(At(views, 1), Last(views), end, stop)
  }

  /** The extraction loop on growing views: each turn loads the write index for the loop's good() and for
      the two of the increment. The iterator is a position, or past-the-end once an increment has found
      no next element. */
  method CollectWhileGrowing(views: seq<seq<Element>>, fmt: Format, begin: nat, end: nat, start: nat)
    returns (pieces: seq<seq<Frame>>, ghost stop: nat)
    requires Growing(views, fmt) && begin < U64 && start < |At(views, 3)|
    ensures Walked(views, fmt, begin, end, start, stop, pieces)
    ensures start < |Last(views)| && (Last(views)[start].timestamp >= end ==> pieces == [])
  {
    pieces := [];
    var iter, pastTheEnd, load := start, false, 3;
    GrowsLonger(views, fmt, 1, load);
    while !pastTheEnd && iter < |At(views, load)| && At(views, load)[iter].timestamp < end
      invariant iter <= |Last(views)| && load >= 3 && |At(views, 1)| <= |At(views, load)|
      invariant pastTheEnd ==> |At(views, 1)| <= iter
      invariant Walking(Last(views), fmt, begin, end, start, iter, pieces)
      decreases |Last(views)| - iter
    {
      GrowsLonger(views, fmt, load, load);
      pieces, pastTheEnd := CollectNext(views, fmt, begin, end, load, iter, pieces, start);
      iter := iter + 1;
      load := load + 3;
      GrowsLonger(views, fmt, 1, load);
    }
    stop := iter;
    if iter < |At(views, load)| {
      StoredIsWellFormed(views, fmt, load, iter);
    }
    GrowsLonger(views, fmt, 3, 3);
    NothingAtEnd(Last(views), fmt, begin, end, start, stop, pieces);
  }

  lemma GrowsLonger(views: seq<seq<Element>>, fmt: Format, i: nat, j: nat)
    requires Growing(views, fmt) && i <= j
    ensures 1 <= |At(views, i)| <= |At(views, j)| <= |Last(views)|
  {
    ViewsGrow(views, fmt, i, j);
  }

  ghost predicate AllBefore(c: seq<Element>, start: nat, stop: nat, end: nat) {
    stop <= |c| && forall i | start <= i < stop :: c[i].timestamp < end
  }

  lemma StoredIsWellFormed(views: seq<seq<Element>>, fmt: Format, i: nat, k: nat)
    requires Growing(views, fmt) && k < |At(views, i)|
    ensures k < |Last(views)| && At(views, i)[k] == Last(views)[k] && WellFormed(At(views, i)[k], fmt) && fmt.Valid()
    ensures At(views, i)[k].timestamp + fmt.Span() < U64
  {
    ViewsGrow(views, fmt, i, i);
    assert WellFormed(Last(views)[k], fmt);
  }

  /** Elements from the stop of the loop on, if they are at or after the end of the window, and elements
      before its start contribute nothing: the walked stretch is all that overlaps in any view that
      ends at or behind its stop. */
  lemma StretchIsFilter(view: seq<Element>, last: seq<Element>, fmt: Format, begin: nat, end: nat,
                        start: nat, stop: nat)
    requires view <= last && Searchable(last, fmt) && Searchable(view, fmt) && start <= stop <= |view|
    requires forall i | 0 <= i < start :: last[i].timestamp + fmt.Span() <= begin
    requires stop < |view| ==> last[stop].timestamp >= end
    ensures InWindow(AllFrames(view), begin, end, fmt.tickDiff)
         == OverlappingFrames(last, start, stop, begin, end, fmt.tickDiff)
  {
    NothingBefore(view, fmt, begin, end, start);
    NothingFromStop(view, fmt, begin, end, stop);
    StretchFilters(view, start, stop, begin, end, fmt.tickDiff);
    SameStretch(view, last, start, stop, begin, end, fmt.tickDiff);
  }

  lemma {:induction false} SameStretch(view: seq<Element>, last: seq<Element>, start: nat, stop: nat,
                                       begin: nat, end: nat, tickDiff: nat)
    requires view <= last && start <= stop <= |view|
    ensures OverlappingFrames(view, start, stop, begin, end, tickDiff)
         == OverlappingFrames(last, start, stop, begin, end, tickDiff)
  {
    if start < stop {
      SameStretch(view, last, start, stop - 1, begin, end, tickDiff);
    }
  }

  /** The walked stretch, if the window ends at or before the newest element that was sampled: it is all
      that overlaps, in the buffer of that moment and in the last. */
  lemma StretchIsWhole(sampled: seq<Element>, last: seq<Element>, fmt: Format, begin: nat, end: nat, stop: nat)
    requires sampled != [] && sampled <= last && Searchable(last, fmt) && Searchable(sampled, fmt)
    requires fmt.Span() <= begin && FirstAtLeast(last, begin - fmt.Span()) < |sampled|
    requires FirstAtLeast(last, begin - fmt.Span()) <= stop && end <= sampled[|sampled| - 1].timestamp
    requires AllBefore(last, FirstAtLeast(last, begin - fmt.Span()), stop, end)
    requires stop < |sampled| ==> last[stop].timestamp >= end
    ensures var start := FirstAtLeast(last, begin - fmt.Span());
            var found := OverlappingFrames(last, start, stop, begin, end, fmt.tickDiff);
            && found == InWindow(AllFrames(sampled), begin, end, fmt.tickDiff)
            && found == InWindow(AllFrames(last), begin, end, fmt.tickDiff)
  {
    var start := FirstAtLeast(last, begin - fmt.Span());
    StopsBeforeNewest(last, fmt, end, start, stop, |sampled| - 1);
    StretchIsFilter(sampled, last, fmt, begin, end, start, stop);
    StretchIsFilter(last, last, fmt, begin, end, start, stop);
  }

  /** And if it ends after it: the stretch reaches beyond that element, and is all that overlaps in the
      buffer up to where it stops. */
  lemma StretchIsBeginning(sampled: seq<Element>, last: seq<Element>, fmt: Format, begin: nat, end: nat, stop: nat)
    requires sampled != [] && sampled <= last && Searchable(last, fmt)
    requires fmt.Span() <= begin && end > sampled[|sampled| - 1].timestamp
    requires FirstAtLeast(last, begin - fmt.Span()) <= stop <= |last|
    requires stop < |sampled| ==> last[stop].timestamp >= end
    ensures |sampled| <= stop
    ensures OverlappingFrames(last, FirstAtLeast(last, begin - fmt.Span()), stop, begin, end, fmt.tickDiff)
         == InWindow(AllFrames(last[..stop]), begin, end, fmt.tickDiff)
  {
    ReachesBeyondNewest(last, fmt, end, stop, |sampled| - 1);
    BeginningIsSearchable(last, fmt, stop);
    StretchIsFilter(last[..stop], last, fmt, begin, end, FirstAtLeast(last, begin - fmt.Span()), stop);
  }

  lemma BeginningIsSearchable(c: seq<Element>, fmt: Format, n: nat)
    requires Searchable(c, fmt) && n <= |c|
    ensures Searchable(c[..n], fmt)
  {
  }

  /** The loop does not walk past an element that is not before the end of the window. */
  lemma StopsBeforeNewest(c: seq<Element>, fmt: Format, end: nat, start: nat, stop: nat, newest: nat)
    requires Searchable(c, fmt) && start <= stop <= |c| && start <= newest < |c| && c[newest].timestamp >= end
    requires AllBefore(c, start, stop, end)
    ensures stop <= newest
  {
  }

  /** And it walks past every element that is before it. */
  lemma ReachesBeyondNewest(c: seq<Element>, fmt: Format, end: nat, stop: nat, newest: nat)
    requires Searchable(c, fmt) && stop <= |c| && newest < |c| && c[newest].timestamp < end
    requires stop <= newest ==> c[stop].timestamp >= end
    ensures newest < stop
  {
  }

  /** Once the start is found: the loop, and the code for what the two samples say. */
  method Extract(views: seq<seq<Element>>, fmt: Format, begin: nat, end: nat, start: nat)
    returns (code: ResultCode, pieces: seq<seq<Frame>>, ghost stop: nat)
    requires Growing(views, fmt) && begin < U64 && start < |At(views, 3)|
    requires At(views, 0) != [] && At(views, 1) != []
    ensures code == if end > At(views, 1)[|At(views, 1)| - 1].timestamp then Partial
                    else if begin < At(views, 0)[0].timestamp then PartiallyOld else Found
    ensures Walked(views, fmt, begin, end, start, stop, pieces)
  {
    if end > At(views, 1)[|At(views, 1)| - 1].timestamp {
      code := Partial;
    } else if begin < At(views, 0)[0].timestamp {
      code := PartiallyOld;
    } else {
      code := Found;
    }
    pieces, stop := CollectWhileGrowing(views, fmt, begin, end, start);
  }

  /** What the pieces of a request are, for the buffer when the newest timestamp was sampled and the last
      one, of which `reached` elements were stored when the request ended. */
  ghost predicate Delivers(sampled: seq<Element>, last: seq<Element>, fmt: Format, begin: nat, end: nat,
                           code: ResultCode, pieces: seq<seq<Frame>>, reached: nat)
  {
    && (code == Found ==>
          && Flatten(pieces) == InWindow(AllFrames(sampled), begin, end, fmt.tickDiff)
          && Flatten(pieces) == InWindow(AllFrames(last), begin, end, fmt.tickDiff))
    && (code == Partial ==>
          && |sampled| <= reached <= |last|
          && Flatten(pieces) == InWindow(AllFrames(last[..reached]), begin, end, fmt.tickDiff))
    && (code == NotYet || code == TooOld || code == NotFound ==> pieces == [])
  }

  /** A window that does not begin before the oldest timestamp is answered by where it ends. */
  function CodeOfEnd(sampled: seq<Element>, end: nat): ResultCode
    requires sampled != []
  {
    if end > sampled[|sampled| - 1].timestamp then Partial else Found
  }

  lemma StretchDelivers(sampled: seq<Element>, last: seq<Element>, fmt: Format, begin: nat, end: nat,
                        code: ResultCode, pieces: seq<seq<Frame>>, start: nat, stop: nat)
    requires sampled != [] && sampled <= last && Searchable(last, fmt) && Searchable(sampled, fmt)
    requires fmt.Span() <= begin && start == FirstAtLeast(last, begin - fmt.Span()) < |sampled|
    requires code == CodeOfEnd(sampled, end)
    requires Walking(last, fmt, begin, end, start, stop, pieces) && EndsBehind(sampled, last, end, stop)
    ensures Delivers(sampled, last, fmt, begin, end, code, pieces, stop)
  {
    SpanPositive(fmt);
    ContributionsOverlap(last, fmt, start, stop, begin, end);
    if code == Found {
      StretchIsWhole(sampled, last, fmt, begin, end, stop);
    } else {
      StretchIsBeginning(sampled, last, fmt, begin, end, stop);
    }
  }

  /** Where the search of a request leads, on the third view. */
  function StartIter(views: seq<seq<Element>>, fmt: Format, missingFrames: bool, begin: nat): Answer
    requires views != [] && fmt.Valid() && begin < U64 && fmt.Span() < U64
  {
    Search(At(views, 2), fmt, SubU64(begin, fmt.Span()), missingFrames)
  }

  /** The search leads to an element that is stored when good() looks. */
  predicate StartIsGood(views: seq<seq<Element>>, fmt: Format, missingFrames: bool, begin: nat)
    requires views != [] && fmt.Valid() && begin < U64 && fmt.Span() < U64
  {
    var start := StartIter(views, fmt, missingFrames, begin);
    start.Position? && start.p < |At(views, 3)|
  }

  /** An overtaken search starts at the first element pushed after it, and its request gets nothing that
      was stored before: if the window ends by the newest timestamp, no pieces at all. */
  lemma OvertakenStart(views: seq<seq<Element>>, fmt: Format, begin: nat, end: nat, pieces: seq<seq<Frame>>,
                       reached: nat)
    requires Growing(views, fmt) && begin < U64 && At(views, 0) != [] && At(views, 1) != []
    requires Overtaken(views, fmt, true, begin, end)
    ensures fmt.Span() < U64 && StartIter(views, fmt, true, begin) == Answer.Position(|At(views, 2)|)
    ensures end <= At(views, 1)[|At(views, 1)| - 1].timestamp
              && Walked(views, fmt, begin, end, |At(views, 2)|, reached, pieces) ==>
              pieces == []
  {
    StartWhileGrowing(views, fmt, true, begin);
    GrowsLonger(views, fmt, 1, 2);
    GrowsLonger(views, fmt, 2, 3);
    ViewsGrow(views, fmt, 1, 2);
    var newest := |At(views, 1)| - 1;
    assert Last(views)[newest].timestamp + fmt.Span() <= Last(views)[|At(views, 2)|].timestamp;
  }

  /** The code for what a request samples and finds. */
  function CodeOf(views: seq<seq<Element>>, fmt: Format, missingFrames: bool, begin: nat, end: nat): ResultCode
    requires views != [] && At(views, 0) != [] && At(views, 1) != []
    requires fmt.Valid() && begin < U64 && fmt.Span() < U64
  {
    ClassifyFound(At(views, 0)[0].timestamp, At(views, 1)[|At(views, 1)| - 1].timestamp,
                  StartIsGood(views, fmt, missingFrames, begin), begin, end)
  }

  /** What the code says of the elements stored when the newest timestamp was sampled: the oldest of them
      is the one that was sampled first. */
  lemma CodeOfTells(views: seq<seq<Element>>, fmt: Format, missingFrames: bool, begin: nat, end: nat)
    requires Growing(views, fmt) && begin < U64 && At(views, 0) != [] && At(views, 1) != [] && fmt.Span() < U64
    ensures CodeTells(At(views, 1), StartIsGood(views, fmt, missingFrames, begin), begin, end,
                      CodeOf(views, fmt, missingFrames, begin, end))
  {
    ViewsGrow(views, fmt, 0, 1);
    ViewsGrow(views, fmt, 1, 1);
    SearchableIsSorted(At(views, 1), fmt);
    ClassifyFoundTells(At(views, 1), StartIsGood(views, fmt, missingFrames, begin), begin, end);
  }

  /** Some element was stored where the search led to. */
  predicate HasStart(code: ResultCode) {
    code == Found || code == Partial || code == PartiallyOld
  }

  /** If the registry names MISSING_FRAMES, or what was stored when the newest timestamp was sampled has
      no gap, the search is good as on a still buffer, or because it was overtaken. */
  lemma GoodExactlyWhen(views: seq<seq<Element>>, fmt: Format, missingFrames: bool, begin: nat)
    requires Growing(views, fmt) && begin < U64 && At(views, 0) != [] && At(views, 1) != [] && fmt.Span() < U64
    requires missingFrames || EquallySpaced(At(views, 1), fmt.Span())
    requires begin <= At(views, 1)[|At(views, 1)| - 1].timestamp
    ensures StartIsGood(views, fmt, missingFrames, begin) <==>
              || begin >= At(views, 0)[0].timestamp + fmt.Span()
              || (missingFrames && begin < fmt.Span() && |At(views, 2)| < |At(views, 3)|)
  {
    StartWhileGrowing(views, fmt, missingFrames, begin);
    if begin >= At(views, 0)[0].timestamp + fmt.Span() {
      GrowsLonger(views, fmt, 1, 3);
    }
  }

  /** So the code is that of the two timestamps if and only if the search was not overtaken. */
  lemma CodeIsOfSamples(views: seq<seq<Element>>, fmt: Format, missingFrames: bool, begin: nat, end: nat)
    requires Growing(views, fmt) && begin < U64 && At(views, 0) != [] && At(views, 1) != [] && fmt.Span() < U64
    requires missingFrames || EquallySpaced(At(views, 1), fmt.Span())
    ensures CodeOf(views, fmt, missingFrames, begin, end)
         == Classify(At(views, 0)[0].timestamp, At(views, 1)[|At(views, 1)| - 1].timestamp, fmt.Span(), begin, end)
       <==> !Overtaken(views, fmt, missingFrames, begin, end)
  {
    if begin <= At(views, 1)[|At(views, 1)| - 1].timestamp {
      GoodExactlyWhen(views, fmt, missingFrames, begin);
    }
  }

  /** If there is a start then, it is the linear one. */
  lemma StartIsLinear(views: seq<seq<Element>>, fmt: Format, missingFrames: bool, begin: nat, end: nat)
    requires Growing(views, fmt) && begin < U64 && At(views, 0) != [] && At(views, 1) != [] && fmt.Span() < U64
    requires missingFrames || EquallySpaced(At(views, 1), fmt.Span())
    requires !Overtaken(views, fmt, missingFrames, begin, end)
    requires HasStart(CodeOf(views, fmt, missingFrames, begin, end))
    ensures fmt.Span() <= begin && StartIsGood(views, fmt, missingFrames, begin)
    ensures StartIter(views, fmt, missingFrames, begin).p == FirstAtLeast(Last(views), begin - fmt.Span())
         < |At(views, 1)|
    ensures CodeOf(views, fmt, missingFrames, begin, end) == CodeOfEnd(At(views, 1), end)
  {
    StartWhileGrowing(views, fmt, missingFrames, begin);
  }

  /** What a request promises on growing views, when the registry names MISSING_FRAMES or what was stored
      by then has no gap. */
  ghost predicate Promise(views: seq<seq<Element>>, fmt: Format, missingFrames: bool, begin: nat, end: nat,
                          code: ResultCode, pieces: seq<seq<Frame>>, reached: nat)
    requires views != [] && At(views, 0) != [] && At(views, 1) != []
  {
    var lastTs, newestTs := At(views, 0)[0].timestamp, At(views, 1)[|At(views, 1)| - 1].timestamp;
    && (code == Classify(lastTs, newestTs, fmt.Span(), begin, end) <==>
          !Overtaken(views, fmt, missingFrames, begin, end))
    && (!Overtaken(views, fmt, missingFrames, begin, end) ==>
          Delivers(At(views, 1), Last(views), fmt, begin, end, code, pieces, reached))
  }

  /** From the linear start the walk delivers what a request on a still buffer does. */
  lemma WalkDelivers(views: seq<seq<Element>>, fmt: Format, begin: nat, end: nat, code: ResultCode, start: nat,
                     pieces: seq<seq<Frame>>, reached: nat)
    requires Growing(views, fmt) && At(views, 1) != [] && fmt.Span() <= begin
    requires code == CodeOfEnd(At(views, 1), end)
    requires start == FirstAtLeast(Last(views), begin - fmt.Span()) < |At(views, 1)|
    requires Walked(views, fmt, begin, end, start, reached, pieces)
    ensures Delivers(At(views, 1), Last(views), fmt, begin, end, code, pieces, reached)
  {
    ViewsGrow(views, fmt, 1, 1);
    StretchDelivers(At(views, 1), Last(views), fmt, begin, end, code, pieces, start, reached);
  }

  lemma PromiseIsKept(views: seq<seq<Element>>, fmt: Format, missingFrames: bool, begin: nat, end: nat,
                      pieces: seq<seq<Frame>>, reached: nat)
    requires Growing(views, fmt) && begin < U64 && At(views, 0) != [] && At(views, 1) != [] && fmt.Span() < U64
    requires missingFrames || EquallySpaced(At(views, 1), fmt.Span())
    requires if HasStart(CodeOf(views, fmt, missingFrames, begin, end)) then
               Walked(views, fmt, begin, end, StartIter(views, fmt, missingFrames, begin).p, reached, pieces)
             else pieces == []
    ensures Promise(views, fmt, missingFrames, begin, end, CodeOf(views, fmt, missingFrames, begin, end), pieces,
                    reached)
  {
    var code := CodeOf(views, fmt, missingFrames, begin, end);
    CodeIsOfSamples(views, fmt, missingFrames, begin, end);
    if !Overtaken(views, fmt, missingFrames, begin, end) && HasStart(code) {
      StartIsLinear(views, fmt, missingFrames, begin, end);
      WalkDelivers(views, fmt, begin, end, code, StartIter(views, fmt, missingFrames, begin).p, pieces, reached);
    }
  }

  /** A request that runs while elements are pushed. Its code is the one for the oldest and the newest
      timestamp it sampled and for whether its search led to a stored element, and its pieces are what the
      elements from there on contribute.
      Suppose the registry, read after the newest timestamp, names MISSING_FRAMES, or what was stored by
      then has no gap; what is pushed later is not restricted. Then the code is the one of the two
      timestamps if and only if the search was not overtaken. Found pieces are the overlapping frames
      of the buffer as it was when the newest timestamp was sampled, and no frame pushed later overlaps;
      partial ones are those of the buffer as it was then or at some moment since. */
  method GetFragmentPiecesWhilePushing(views: seq<seq<Element>>, fmt: Format, missingFrames: bool,
                                       begin: nat, end: nat)
    returns (code: ResultCode, pieces: seq<seq<Frame>>, ghost reached: nat)
    requires Growing(views, fmt) && begin < U64
    ensures At(views, 0) != [] && At(views, 1) != [] && fmt.Valid() && fmt.Span() < U64
    ensures code == CodeOf(views, fmt, missingFrames, begin, end)
    ensures CodeTells(At(views, 1), StartIsGood(views, fmt, missingFrames, begin), begin, end, code)
    ensures !HasStart(code) ==> pieces == []
    ensures HasStart(code) ==>
              Walked(views, fmt, begin, end, StartIter(views, fmt, missingFrames, begin).p, reached, pieces)
    ensures missingFrames || EquallySpaced(At(views, 1), fmt.Span()) ==>
              Promise(views, fmt, missingFrames, begin, end, code, pieces, reached)
  {
    ViewsGrow(views, fmt, 0, 1);
    SearchableSpan(At(views, 0), fmt);
    var lastTs, newestTs := At(views, 0)[0].timestamp, At(views, 1)[|At(views, 1)| - 1].timestamp;
    code, pieces, reached := Unknown, [], |At(views, 1)|;
    if begin > newestTs {
      code := NotYet;
    } else if end < lastTs {
      code := TooOld;
    } else {
      var startIter := Search(At(views, 2), fmt, SubU64(begin, fmt.Span()), missingFrames);
      if startIter.PastTheEnd? || startIter.p >= |At(views, 3)| {
        code := NotFound;
      } else {
        code, pieces, reached := Extract(views, fmt, begin, end, startIter.p);
      }
    }
    CodeOfTells(views, fmt, missingFrames, begin, end);
    if missingFrames || EquallySpaced(At(views, 1), fmt.Span()) {
      PromiseIsKept(views, fmt, missingFrames, begin, end, pieces, reached);
    }
  }

  function OneFrame(timestamp: nat): Element {
    Element(timestamp, [Frame(timestamp, 0)])
  }

  /** It can happen: a window within the first element's span, and a push between the search and the
      first good(). On a buffer that stands still the request is answered NotFound. */
  lemma SearchCanBeOvertaken() returns (views: seq<seq<Element>>, fmt: Format)
    ensures Growing(views, fmt) && At(views, 0) != [] && At(views, 1) != [] && fmt.Span() < U64
    ensures Overtaken(views, fmt, true, 5, 7) && StartIsGood(views, fmt, true, 5)
    ensures Classify(At(views, 0)[0].timestamp, At(views, 1)[|At(views, 1)| - 1].timestamp, fmt.Span(), 5, 7)
         == NotFound
  {
    var c := [OneFrame(0), OneFrame(10)];
    fmt := Format(1, 10);
    views := [c, c, c, c + [OneFrame(20)]];
    assert fmt.Span() == 10;
    StartWhileGrowing(views, fmt, true, 5);
  }
}
