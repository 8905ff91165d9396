/** Cutting a time window out of the latency buffer, and what its result code promises. */
module RequestWindow {
  import opened Arithmetic
  import opened Elements
  import opened IterableQueueModel
  import opened Searches

  datatype ResultCode = Found | NotFound | TooOld | NotYet | Partial | PartiallyOld | Unknown

  /** A frame overlaps the window [begin, end). */
  predicate Overlaps(f: Frame, begin: nat, end: nat, tickDiff: nat) {
    f.timestamp + tickDiff > begin && f.timestamp < end
  }

  /** The frames of all elements, in order. */
  function AllFrames(c: seq<Element>): seq<Frame> {
    if c == [] then [] else AllFrames(c[..|c| - 1]) + c[|c| - 1].frames
  }

  /** The simple filter: the frames that overlap the window, in order. */
  function InWindow(fs: seq<Frame>, begin: nat, end: nat, tickDiff: nat): seq<Frame> {
    if fs == [] then
      []
    else
      var last := fs[|fs| - 1];
      InWindow(fs[..|fs| - 1], begin, end, tickDiff) + (if Overlaps(last, begin, end, tickDiff) then [last] else [])
  }

  /** The fragment: the pieces one after the other. */
  function Flatten(pieces: seq<seq<Frame>>): seq<Frame> {
    if pieces == [] then [] else Flatten(pieces[..|pieces| - 1]) + pieces[|pieces| - 1]
  }

  lemma {:induction false} InWindowConcat(a: seq<Frame>, b: seq<Frame>, begin: nat, end: nat, tickDiff: nat)
    ensures InWindow(a + b, begin, end, tickDiff)
         == InWindow(a, begin, end, tickDiff) + InWindow(b, begin, end, tickDiff)
  {
    if b == [] {
      assert a + b == a;
    } else {
      var init := b[..|b| - 1];
      assert (a + b)[..|a + b| - 1] == a + init;
      InWindowConcat(a, init, begin, end, tickDiff);
    }
  }

  lemma {:induction false} InWindowAll(fs: seq<Frame>, begin: nat, end: nat, tickDiff: nat)
    requires forall f | f in fs :: Overlaps(f, begin, end, tickDiff)
    ensures InWindow(fs, begin, end, tickDiff) == fs
  {
    if fs != [] {
      assert fs[|fs| - 1] in fs;
      InWindowAll(fs[..|fs| - 1], begin, end, tickDiff);
    }
  }

  lemma {:induction false} InWindowNone(fs: seq<Frame>, begin: nat, end: nat, tickDiff: nat)
    requires forall f | f in fs :: !Overlaps(f, begin, end, tickDiff)
    ensures InWindow(fs, begin, end, tickDiff) == []
  {
    if fs != [] {
      assert fs[|fs| - 1] in fs;
      InWindowNone(fs[..|fs| - 1], begin, end, tickDiff);
    }
  }

  /** Elements none of whose frames overlap the window contribute nothing. */
  lemma {:induction false} NothingFrom(c: seq<Element>, begin: nat, end: nat, tickDiff: nat)
    requires forall i | 0 <= i < |c| :: InWindow(c[i].frames, begin, end, tickDiff) == []
    ensures InWindow(AllFrames(c), begin, end, tickDiff) == []
  {
    if c != [] {
      NothingFrom(c[..|c| - 1], begin, end, tickDiff);
      InWindowConcat(AllFrames(c[..|c| - 1]), c[|c| - 1].frames, begin, end, tickDiff);
    }
  }

  lemma {:induction false} AllFramesConcat(a: seq<Element>, b: seq<Element>)
    ensures AllFrames(a + b) == AllFrames(a) + AllFrames(b)
  {
    if b == [] {
      assert a + b == a;
    } else {
      assert (a + b)[..|a + b| - 1] == a + b[..|b| - 1];
      AllFramesConcat(a, b[..|b| - 1]);
    }
  }

  // Ticks of one element

  lemma FrameTicks(e: Element, fmt: Format, k: nat)
    requires fmt.Valid() && WellFormed(e, fmt) && k < fmt.numFrames
    ensures e.timestamp <= e.frames[k].timestamp <= e.timestamp + fmt.Span() - fmt.tickDiff
  {
    ConsecutiveTicks(e.frames, e.timestamp, fmt.tickDiff, k);
    MulMonotone(k, fmt.numFrames - 1, fmt.tickDiff);
    MulSuccessor(fmt.numFrames - 1, fmt.tickDiff);
  }

  /** All the frames of an element lie outside the window when the element ends before it or starts
      after it. */
  lemma ElementOutside(e: Element, fmt: Format, begin: nat, end: nat)
    requires fmt.Valid() && WellFormed(e, fmt)
    requires e.timestamp + fmt.Span() <= begin || e.timestamp >= end
    ensures InWindow(e.frames, begin, end, fmt.tickDiff) == []
  {
    forall f | f in e.frames ensures !Overlaps(f, begin, end, fmt.tickDiff) {
      var k :| 0 <= k < |e.frames| && e.frames[k] == f;
      FrameTicks(e, fmt, k);
    }
    InWindowNone(e.frames, begin, end, fmt.tickDiff);
  }

  /** The copied-whole case: the element lies inside the window, or is a single overlapping frame. */
  lemma ElementInside(e: Element, fmt: Format, begin: nat, end: nat)
    requires fmt.Valid() && WellFormed(e, fmt)
    requires e.timestamp + fmt.Span() > begin && e.timestamp < end
    requires fmt.numFrames > 1 ==> begin <= e.timestamp && e.timestamp + fmt.Span() <= end
    ensures InWindow(e.frames, begin, end, fmt.tickDiff) == e.frames
  {
    forall f | f in e.frames ensures Overlaps(f, begin, end, fmt.tickDiff) {
      var k :| 0 <= k < |e.frames| && e.frames[k] == f;
      FrameTicks(e, fmt, k);
    }
    InWindowAll(e.frames, begin, end, fmt.tickDiff);
  }

  // Classification

  /** What a request on a non-empty buffer is told, read off the oldest and the newest timestamp and
      whether the search for its start leads to an element. */
  function ClassifyFound(oldest: nat, newest: nat, found: bool, begin: nat, end: nat): ResultCode {
    if begin > newest then NotYet
    else if end < oldest then TooOld
    else if !found then NotFound
    else if end > newest then Partial
    else if begin < oldest then PartiallyOld
    else Found
  }

  /** On a buffer where the search leads to the first element at or after the key, the two timestamps
      tell everything. */
  function Classify(oldest: nat, newest: nat, span: nat, begin: nat, end: nat): ResultCode {
    ClassifyFound(oldest, newest, begin >= oldest + span, begin, end)
  }

  /** Every stored element is older than `ts`. */
  ghost predicate EndsBefore(c: seq<Element>, ts: nat) {
    forall i | 0 <= i < |c| :: c[i].timestamp < ts
  }

  /** Every stored element is newer than `ts`. */
  ghost predicate BeginsAfter(c: seq<Element>, ts: nat) {
    forall i | 0 <= i < |c| :: c[i].timestamp > ts
  }

  /** What a code says of the stored elements and the window; `found` is whether the search for its start
      leads to one of them. */
  ghost predicate CodeTells(c: seq<Element>, found: bool, begin: nat, end: nat, code: ResultCode) {
    && (code == NotYet <==> EndsBefore(c, begin))
    && (code == TooOld <==> !EndsBefore(c, begin) && BeginsAfter(c, end))
    && (code == NotFound <==> !EndsBefore(c, begin) && !BeginsAfter(c, end) && !found)
    && (code == Partial <==> !EndsBefore(c, begin) && !BeginsAfter(c, end) && found && EndsBefore(c, end))
    && (code == PartiallyOld <==>
          !BeginsAfter(c, end) && found && !EndsBefore(c, end) && BeginsAfter(c, begin))
    && (code == Found <==>
          !EndsBefore(c, begin) && !BeginsAfter(c, end) && found && !EndsBefore(c, end) && !BeginsAfter(c, begin))
  }

  /** In a sorted buffer the oldest and the newest timestamp stand for all. */
  lemma ClassifyFoundTells(c: seq<Element>, found: bool, begin: nat, end: nat)
    requires c != [] && Sorted(c)
    ensures CodeTells(c, found, begin, end, ClassifyFound(c[0].timestamp, c[|c| - 1].timestamp, found, begin, end))
  {
    BoundsTell(c, begin);
    BoundsTell(c, end);
  }

  lemma BoundsTell(c: seq<Element>, ts: nat)
    requires c != [] && Sorted(c)
    ensures EndsBefore(c, ts) <==> c[|c| - 1].timestamp < ts
    ensures BeginsAfter(c, ts) <==> c[0].timestamp > ts
  {
    assert forall i | 0 < i < |c| :: c[0].timestamp <= c[i].timestamp;
    assert forall i | 0 <= i < |c| - 1 :: c[i].timestamp <= c[|c| - 1].timestamp;
  }

  lemma SearchableIsSorted(c: seq<Element>, fmt: Format)
    requires Searchable(c, fmt)
    ensures Sorted(c)
  {
  }

  ghost predicate Searchable(c: seq<Element>, fmt: Format) {
    && fmt.Valid()
    && Spaced(c, fmt.Span())
    && forall i | 0 <= i < |c| :: WellFormed(c[i], fmt) && c[i].timestamp + fmt.Span() < U64
  }

  lemma SpanPositive(fmt: Format)
    requires fmt.Valid()
    ensures fmt.Span() >= fmt.tickDiff >= 1
  {
    MulMonotone(1, fmt.numFrames, fmt.tickDiff);
  }

  /** The position the search for the start of a window leads to: its key is one span before the
      window, with 64-bit wrap-around. */
  ghost function StartOf(c: seq<Element>, fmt: Format, missingFrames: bool, begin: nat): (p: nat)
    requires fmt.Valid() && begin < U64 && fmt.Span() < U64
    ensures p <= |c|
  {
    Position(c, fmt, SubU64(begin, fmt.Span()), missingFrames)
  }

  lemma SearchableSpan(c: seq<Element>, fmt: Format)
    requires c != [] && Searchable(c, fmt)
    ensures 1 <= fmt.tickDiff <= fmt.Span() < U64
  {
    SpanPositive(fmt);
    assert WellFormed(c[0], fmt);
  }

  /** A key that wraps is past every element, so no search leads anywhere; nor does any for a window
      that starts less than a span after the oldest element. */
  lemma NoStartBeforeSpan(c: seq<Element>, fmt: Format, missingFrames: bool, begin: nat)
    requires c != [] && Searchable(c, fmt) && begin < U64 && fmt.Span() < U64 && begin < c[0].timestamp + fmt.Span()
    ensures StartOf(c, fmt, missingFrames, begin) == |c|
  {
    var key := SubU64(begin, fmt.Span());
    if begin < fmt.Span() {
      forall i | 0 <= i < |c| ensures c[i].timestamp < key {
        assert WellFormed(c[i], fmt);
      }
      PositionNotBeforeFirst(c, fmt, key, missingFrames);
    }
  }

  /** With MISSING_FRAMES registered, or without gaps, the start is found exactly for windows that start
      at least one span after the oldest element, and it is the first element that can overlap. */
  lemma StartIsFirst(c: seq<Element>, fmt: Format, missingFrames: bool, begin: nat)
    requires c != [] && Searchable(c, fmt) && begin <= c[|c| - 1].timestamp
    requires missingFrames || EquallySpaced(c, fmt.Span())
    ensures begin < U64 && fmt.Span() < U64
    ensures StartOf(c, fmt, missingFrames, begin) < |c| <==> begin >= c[0].timestamp + fmt.Span()
    ensures begin >= c[0].timestamp + fmt.Span() ==>
              StartOf(c, fmt, missingFrames, begin) == FirstAtLeast(c, begin - fmt.Span())
  {
    var newest := c[|c| - 1];
    assert WellFormed(newest, fmt);
    SearchableSpan(c, fmt);
    if begin >= c[0].timestamp + fmt.Span() {
      PositionIsFirst(c, fmt, begin - fmt.Span(), missingFrames);
      assert newest.timestamp >= begin - fmt.Span();
    } else {
      NoStartBeforeSpan(c, fmt, missingFrames, begin);
    }
  }

  // Extraction

  lemma FlattenPush(pieces: seq<seq<Frame>>, piece: seq<Frame>)
    ensures Flatten(pieces + [piece]) == Flatten(pieces) + piece
  {
    assert (pieces + [piece])[..|pieces|] == pieces;
  }

  /** The element is taken frame by frame, and the comparison with the start of the window, one tick
      before it, wraps. */
  predicate ComparisonWraps(e: Element, fmt: Format, begin: nat, end: nat) {
    && begin < fmt.tickDiff && fmt.numFrames > 1
    && begin < e.timestamp + fmt.Span() && (e.timestamp < begin || e.timestamp + fmt.Span() > end)
  }

  /** What an element contributes: its frames that overlap the window, but none at all when the
      comparison wraps. */
  function Contribution(e: Element, fmt: Format, begin: nat, end: nat): seq<Frame> {
    if ComparisonWraps(e, fmt, begin, end) then [] else InWindow(e.frames, begin, end, fmt.tickDiff)
  }

  /** What the comparison frame by frame lets through: nothing when it wraps. */
  function Taken(fs: seq<Frame>, begin: nat, end: nat, tickDiff: nat): seq<Frame> {
    if begin < tickDiff then [] else InWindow(fs, begin, end, tickDiff)
  }

  lemma TakenNext(fs: seq<Frame>, i: nat, begin: nat, end: nat, tickDiff: nat)
    requires i < |fs|
    ensures Taken(fs[..i + 1], begin, end, tickDiff)
         == Taken(fs[..i], begin, end, tickDiff)
            + (if tickDiff <= begin && Overlaps(fs[i], begin, end, tickDiff) then [fs[i]] else [])
  {
    assert fs[..i + 1][..i] == fs[..i];
  }

  /** The comparison with 64-bit wrap-around. */
  lemma FrameIsTaken(e: Element, fmt: Format, begin: nat, end: nat, i: nat)
    requires fmt.Valid() && WellFormed(e, fmt) && begin < U64 && e.timestamp + fmt.Span() < U64 && i < |e.frames|
    ensures fmt.tickDiff < U64
    ensures e.frames[i].timestamp > SubU64(begin, fmt.tickDiff) && e.frames[i].timestamp < end
       <==> fmt.tickDiff <= begin && Overlaps(e.frames[i], begin, end, fmt.tickDiff)
  {
    SpanPositive(fmt);
    FrameTicks(e, fmt, i);
  }

  /** Appends the frames of an element one by one, if they overlap the window. */
  method AppendFrames(fragPieces: seq<seq<Frame>>, e: Element, fmt: Format, begin: nat, end: nat)
    returns (pieces: seq<seq<Frame>>)
    requires fmt.Valid() && WellFormed(e, fmt) && begin < U64 && e.timestamp + fmt.Span() < U64
    ensures Flatten(pieces) == Flatten(fragPieces) + Taken(e.frames, begin, end, fmt.tickDiff)
  {
    pieces := fragPieces;
    var i := 0;
    while i < |e.frames|
      invariant i <= |e.frames|
      invariant Flatten(pieces) == Flatten(fragPieces) + Taken(e.frames[..i], begin, end, fmt.tickDiff)
    {
      var frame := e.frames[i];
      FrameIsTaken(e, fmt, begin, end, i);
      TakenNext(e.frames, i, begin, end, fmt.tickDiff);
      if frame.timestamp > SubU64(begin, fmt.tickDiff) && frame.timestamp < end {
        FlattenPush(pieces, [frame]);
        pieces := pieces + [[frame]];
      }
      i := i + 1;
    }
    assert e.frames[..i] == e.frames;
  }

  /** What each of the three ways to append an element contributes. */
  lemma ContributionCases(e: Element, fmt: Format, begin: nat, end: nat)
    requires fmt.Valid() && WellFormed(e, fmt) && e.timestamp < end
    ensures Contribution(e, fmt, begin, end)
         == if e.timestamp + fmt.Span() <= begin then
              []
            else if fmt.numFrames > 1 && (e.timestamp < begin || e.timestamp + fmt.Span() > end) then
              Taken(e.frames, begin, end, fmt.tickDiff)
            else
              e.frames
  {
    if e.timestamp + fmt.Span() <= begin {
      ElementOutside(e, fmt, begin, end);
    } else if !(fmt.numFrames > 1 && (e.timestamp < begin || e.timestamp + fmt.Span() > end)) {
      ElementInside(e, fmt, begin, end);
    }
  }

  /** Appends what one element contributes: nothing, some of its frames one by one, or all of it. */
  method AppendElement(fragPieces: seq<seq<Frame>>, e: Element, fmt: Format, begin: nat, end: nat)
    returns (pieces: seq<seq<Frame>>)
    requires fmt.Valid() && WellFormed(e, fmt) && begin < U64 && e.timestamp + fmt.Span() < U64 && e.timestamp < end
    ensures Flatten(pieces) == Flatten(fragPieces) + Contribution(e, fmt, begin, end)
    ensures fmt.tickDiff <= begin || fmt.numFrames == 1 || (begin <= e.timestamp && e.timestamp + fmt.Span() <= end) ==>
              Flatten(pieces) == Flatten(fragPieces) + InWindow(e.frames, begin, end, fmt.tickDiff)
    ensures begin < fmt.tickDiff && fmt.numFrames > 1 && (e.timestamp < begin || e.timestamp + fmt.Span() > end) ==>
              Flatten(pieces) == Flatten(fragPieces)
  {
    pieces := fragPieces;
    ContributionCases(e, fmt, begin, end);
    if e.timestamp + fmt.Span() <= begin {
    } else if fmt.numFrames > 1 &&
              ((e.timestamp < begin && e.timestamp + fmt.Span() > begin) || e.timestamp + fmt.Span() > end) {
      pieces := AppendFrames(fragPieces, e, fmt, begin, end);
    } else {
      FlattenPush(pieces, e.frames);
      pieces := pieces + [e.frames];
    }
  }

  /** Window extraction. If the code is Found or Partial, the pieces are exactly the frames that overlap
      the window in the elements from the start of the search on, in order and once each; otherwise
      there are none. Reading the error registry decides which of the two searches runs. If it names
      MISSING_FRAMES, or there is no gap, the code depends on the oldest and the newest timestamp only,
      and no overlapping frame is left out. */
  method GetFragmentPieces(q: IterableQueue, fmt: Format, missingFrames: bool, begin: nat, end: nat,
                           ghost c: seq<Element>)
    returns (code: ResultCode, pieces: seq<seq<Frame>>)
    requires q.Valid() && c == q.Contents() && c != [] && Searchable(c, fmt) && begin < U64
    ensures fmt.Span() < U64 && CodeTells(c, StartOf(c, fmt, missingFrames, begin) < |c|, begin, end, code)
    ensures missingFrames || EquallySpaced(c, fmt.Span()) ==>
              CodeTells(c, begin >= c[0].timestamp + fmt.Span(), begin, end, code)
    ensures var start := StartOf(c, fmt, missingFrames, begin);
            && code == ClassifyFound(c[0].timestamp, c[|c| - 1].timestamp, start < |c|, begin, end)
            && (code == Found || code == Partial ==>
                  Flatten(pieces) == InWindow(AllFrames(c[start..]), begin, end, fmt.tickDiff))
    ensures code != Found && code != Partial ==> code != PartiallyOld && pieces == []
    ensures missingFrames || EquallySpaced(c, fmt.Span()) ==>
              && code == Classify(c[0].timestamp, c[|c| - 1].timestamp, fmt.Span(), begin, end)
              && (code == Found || code == Partial ==>
                    Flatten(pieces) == InWindow(AllFrames(c), begin, end, fmt.tickDiff))
  {
    SearchableSpan(c, fmt);
    var lastTs := q.Deref(q.Front()).value.timestamp;
    var newestTs := q.Deref(q.Back()).value.timestamp;
    code, pieces := Unknown, [];
    if begin > newestTs {
      code := NotYet;
    } else if end < lastTs {
      code := TooOld;
    } else {
      q.Layout();
      var found, startIter := FindStart(q, fmt, missingFrames, begin, c);
      ghost var start := StartOf(c, fmt, missingFrames, begin);
      if !found {
        code := NotFound;
      } else {
        if end > newestTs {
          code := Partial;
        } else if begin < lastTs {
          code := PartiallyOld;
        } else {
          code := Found;
        }
        ghost var stop := WalkedStretch(c, fmt, begin, end, start);
        pieces := Collect(q, fmt, begin, end, startIter, c, start, stop);
      }
      NothingIsLost(c, fmt, missingFrames, begin, end);
    }
    SearchableIsSorted(c, fmt);
    ClassifyFoundTells(c, StartOf(c, fmt, missingFrames, begin) < |c|, begin, end);
    ClassifyFoundTells(c, begin >= c[0].timestamp + fmt.Span(), begin, end);
  }

  /** Without a gap that the search does not know of, the elements before its start do not overlap. */
  lemma NothingIsLost(c: seq<Element>, fmt: Format, missingFrames: bool, begin: nat, end: nat)
    requires c != [] && Searchable(c, fmt) && begin <= c[|c| - 1].timestamp && begin < U64 && fmt.Span() < U64
    ensures var start := StartOf(c, fmt, missingFrames, begin);
            (missingFrames || EquallySpaced(c, fmt.Span())) ==>
              && (start < |c| <==> begin >= c[0].timestamp + fmt.Span())
              && (start < |c| ==> InWindow(AllFrames(c[start..]), begin, end, fmt.tickDiff)
                                  == InWindow(AllFrames(c), begin, end, fmt.tickDiff))
  {
    if missingFrames || EquallySpaced(c, fmt.Span()) {
      StartIsFirst(c, fmt, missingFrames, begin);
      var start := StartOf(c, fmt, missingFrames, begin);
      if start < |c| {
        NothingBefore(c, fmt, begin, end, start);
      }
    }
  }

  /** The start iterator: the search for the key one span before the window. */
  method FindStart(q: IterableQueue, fmt: Format, missingFrames: bool, begin: nat, ghost c: seq<Element>)
    returns (found: bool, startIter: Iterator)
    requires q.Valid() && c == q.Contents() && c != [] && Searchable(c, fmt) && begin < U64
    ensures 1 <= fmt.tickDiff <= fmt.Span() < U64
    ensures found <==> StartOf(c, fmt, missingFrames, begin) < |c|
    ensures found ==> c[0].timestamp + fmt.Span() <= begin
                      && startIter == q.Nth(StartOf(c, fmt, missingFrames, begin))
  {
    SearchableSpan(c, fmt);
    var key := SubU64(begin, fmt.Span());
    startIter := LowerBound(q, fmt, key, missingFrames);
    found := q.Good(startIter);
    if begin < c[0].timestamp + fmt.Span() {
      NoStartBeforeSpan(c, fmt, missingFrames, begin);
    }
  }

  /** One turn of the extraction loop, on the element `c[k]`. */
  method CollectNext(fragPieces: seq<seq<Frame>>, e: Element, fmt: Format, begin: nat, end: nat,
                     ghost c: seq<Element>, ghost start: nat, ghost stop: nat, ghost k: nat)
    returns (pieces: seq<seq<Frame>>)
    requires fmt.Valid() && fmt.tickDiff <= begin < U64 && EndsAt(c, fmt, end, start, stop)
    requires start <= k < |c| && e == c[k] && e.timestamp < end
    requires Flatten(fragPieces) == OverlappingFrames(c, start, k, begin, end, fmt.tickDiff)
    ensures k < stop && Flatten(pieces) == OverlappingFrames(c, start, k + 1, begin, end, fmt.tickDiff)
  {
    pieces := AppendElement(fragPieces, e, fmt, begin, end);
  }

  /** The extraction loop, from the first element that can overlap the window up to the first one
      that starts after it. */
  method Collect(q: IterableQueue, fmt: Format, begin: nat, end: nat, startIter: Iterator,
                 ghost c: seq<Element>, ghost start: nat, ghost stop: nat)
    returns (pieces: seq<seq<Frame>>)
    requires q.Holds(c) && fmt.Valid() && fmt.tickDiff <= begin < U64
    requires EndsAt(c, fmt, end, start, stop) && startIter == q.Nth(start)
    ensures Flatten(pieces) == OverlappingFrames(c, start, stop, begin, end, fmt.tickDiff)
  {
    ghost var k := start;
    pieces := [];
    var iter := startIter;
    q.NthShows(c, k);
    while q.Good(iter) && q.Deref(iter).value.timestamp < end
      invariant start <= k <= stop && q.Shows(c, k, iter)
      invariant Flatten(pieces) == OverlappingFrames(c, start, k, begin, end, fmt.tickDiff)
      decreases |c| - k
    {
      pieces := CollectNext(pieces, q.Deref(iter).value, fmt, begin, end, c, start, stop, k);
      iter := q.Advance(iter, c, k);
      k := k + 1;
    }
  }

  /** The overlapping frames of the elements from `start` to before `stop`, element by element. */
  ghost function OverlappingFrames(c: seq<Element>, start: nat, stop: nat, begin: nat, end: nat, tickDiff: nat)
    : seq<Frame>
    requires start <= stop <= |c|
  {
    if stop == start then
      []
    else
      OverlappingFrames(c, start, stop - 1, begin, end, tickDiff) + InWindow(c[stop - 1].frames, begin, end, tickDiff)
  }

  lemma AllFramesPush(c: seq<Element>, start: nat, stop: nat)
    requires start < stop <= |c|
    ensures AllFrames(c[start..stop]) == AllFrames(c[start..stop - 1]) + c[stop - 1].frames
  {
    assert c[start..stop][..stop - 1 - start] == c[start..stop - 1];
  }

  /** One more element adds its overlapping frames. */
  lemma FilterPush(c: seq<Element>, start: nat, stop: nat, begin: nat, end: nat, tickDiff: nat)
    requires start < stop <= |c|
    ensures InWindow(AllFrames(c[start..stop]), begin, end, tickDiff)
         == InWindow(AllFrames(c[start..stop - 1]), begin, end, tickDiff)
            + InWindow(c[stop - 1].frames, begin, end, tickDiff)
  {
    AllFramesPush(c, start, stop);
    InWindowConcat(AllFrames(c[start..stop - 1]), c[stop - 1].frames, begin, end, tickDiff);
  }

  lemma {:induction false} OverlappingFramesFilter(c: seq<Element>, start: nat, stop: nat,
                                                   begin: nat, end: nat, tickDiff: nat)
    requires start <= stop <= |c|
    ensures OverlappingFrames(c, start, stop, begin, end, tickDiff)
         == InWindow(AllFrames(c[start..stop]), begin, end, tickDiff)
  {
    if start == stop {
      assert c[start..stop] == [];
    } else {
      OverlappingFramesFilter(c, start, stop - 1, begin, end, tickDiff);
      FilterPush(c, start, stop, begin, end, tickDiff);
    }
  }

  lemma NothingBetween(c: seq<Element>, fmt: Format, begin: nat, end: nat, low: nat, high: nat)
    requires fmt.Valid() && low <= high <= |c| && forall i | low <= i < high :: WellFormed(c[i], fmt)
    requires forall i | low <= i < high :: c[i].timestamp + fmt.Span() <= begin || c[i].timestamp >= end
    ensures InWindow(AllFrames(c[low..high]), begin, end, fmt.tickDiff) == []
  {
    forall i | low <= i < high ensures InWindow(c[i].frames, begin, end, fmt.tickDiff) == [] {
      ElementOutside(c[i], fmt, begin, end);
    }
    NothingFrom(c[low..high], begin, end, fmt.tickDiff);
  }

  lemma SplitTwice<T>(s: seq<T>, a: nat, b: nat)
    requires a <= b <= |s|
    ensures s == (s[0..a] + s[a..b]) + s[b..|s|]
  {
  }

  /** A part of the buffer that contributes nothing can be dropped on either side. */
  lemma DropSide(a: seq<Element>, b: seq<Element>, begin: nat, end: nat, tickDiff: nat)
    ensures InWindow(AllFrames(b), begin, end, tickDiff) == [] ==>
              InWindow(AllFrames(a + b), begin, end, tickDiff) == InWindow(AllFrames(a), begin, end, tickDiff)
    ensures InWindow(AllFrames(a), begin, end, tickDiff) == [] ==>
              InWindow(AllFrames(a + b), begin, end, tickDiff) == InWindow(AllFrames(b), begin, end, tickDiff)
  {
    AllFramesConcat(a, b);
    InWindowConcat(AllFrames(a), AllFrames(b), begin, end, tickDiff);
  }

  /** The elements before the search key contribute nothing. */
  lemma NothingBefore(c: seq<Element>, fmt: Format, begin: nat, end: nat, start: nat)
    requires fmt.Valid() && start <= |c| && forall i | 0 <= i < |c| :: WellFormed(c[i], fmt)
    requires forall i | 0 <= i < start :: c[i].timestamp + fmt.Span() <= begin
    ensures InWindow(AllFrames(c[start..]), begin, end, fmt.tickDiff)
         == InWindow(AllFrames(c), begin, end, fmt.tickDiff)
  {
    NothingBetween(c, fmt, begin, end, 0, start);
    assert c == c[0..start] + c[start..];
    DropSide(c[0..start], c[start..], begin, end, fmt.tickDiff);
  }

  /** From `start` on, exactly the elements before `stop` are older than the end of the window. */
  ghost predicate EndsAt(c: seq<Element>, fmt: Format, end: nat, start: nat, stop: nat) {
    && start <= stop <= |c|
    && forall i | start <= i < |c| ::
         WellFormed(c[i], fmt) && c[i].timestamp + fmt.Span() < U64 && (c[i].timestamp < end <==> i < stop)
  }

  /** If nothing overlaps from `stop` on, the elements from `start` up to there are all that counts. */
  lemma StretchFilters(c: seq<Element>, start: nat, stop: nat, begin: nat, end: nat, tickDiff: nat)
    requires start <= stop <= |c| && InWindow(AllFrames(c[stop..]), begin, end, tickDiff) == []
    ensures InWindow(AllFrames(c[start..]), begin, end, tickDiff)
         == OverlappingFrames(c, start, stop, begin, end, tickDiff)
  {
    assert c[start..] == c[start..stop] + c[stop..];
    DropSide(c[start..stop], c[stop..], begin, end, tickDiff);
    OverlappingFramesFilter(c, start, stop, begin, end, tickDiff);
  }

  /** From the first element at or after the end of the window on nothing overlaps. */
  lemma NothingFromStop(c: seq<Element>, fmt: Format, begin: nat, end: nat, stop: nat)
    requires Searchable(c, fmt) && stop <= |c| && (stop < |c| ==> c[stop].timestamp >= end)
    ensures InWindow(AllFrames(c[stop..]), begin, end, fmt.tickDiff) == []
  {
    forall i | stop <= i < |c| ensures c[i].timestamp >= end {
      assert i > stop ==> c[stop].timestamp + fmt.Span() <= c[i].timestamp;
    }
    NothingBetween(c, fmt, begin, end, stop, |c|);
    assert c[stop..|c|] == c[stop..];
  }

  /** The stretch the extraction walks: from the start to the end of the window. Behind it nothing
      overlaps. */
  lemma WalkedStretch(c: seq<Element>, fmt: Format, begin: nat, end: nat, start: nat) returns (stop: nat)
    requires Searchable(c, fmt) && start <= |c|
    ensures EndsAt(c, fmt, end, start, stop)
    ensures InWindow(AllFrames(c[start..]), begin, end, fmt.tickDiff)
         == OverlappingFrames(c, start, stop, begin, end, fmt.tickDiff)
  {
    stop := FirstAtLeast(c, end);
    FirstAtLeastSplits(c, end, stop);
    if stop < start {
      stop := start;
    }
    NothingFromStop(c, fmt, begin, end, stop);
    StretchFilters(c, start, stop, begin, end, fmt.tickDiff);
  }
}
