/** The request handler's own code, run by one thread at a time on a buffer that stands still: data
    requests, the pass over the waiting list, the cleanup and one pass of the recorder. */
module RequestHandlerModel {
  import opened Arithmetic
  import opened Elements
  import opened IterableQueueModel
  import opened Searches
  import opened FrameErrorRegistryModel
  import opened RequestWindow
  import Lifecycle = RequestLifecycle

  /** Frames copied for a request, with the two error bits of the fragment header. */
  datatype Fragment = Fragment(frames: seq<seq<Frame>>, dataNotFound: bool, incomplete: bool)

  /** How many elements the cleanup may take off the front: at most `toPop`, and only elements that
      are older than the watermark. */
  function Poppable(c: seq<Element>, toPop: nat, watermark: nat): (n: nat)
    ensures n <= |c| && n <= toPop
    ensures forall i | 0 <= i < n :: c[i].timestamp < watermark
    ensures n < |c| && n < toPop ==> c[n].timestamp >= watermark
  {
    if FirstAtLeast(c, watermark) <= toPop then FirstAtLeast(c, watermark) else toPop
  }

  const MAX_CHUNKS: nat := 1000

  class RequestHandler {
    const latencyBuffer: IterableQueue
    const errorRegistry: FrameErrorRegistry
    const fmt: Format
    const popLimitSize: nat
    const popNum: nat
    const popDen: nat

    var nextTimestampToRecord: nat
    var counters: Lifecycle.Counters
    var waitingRequests: seq<Lifecycle.Ticket>
    var pool: seq<Lifecycle.Ticket>
    var recorded: seq<Element>
    var payloadsWritten: nat
    var popReqs: nat
    var popsCount: nat
    var occupancy: nat
    var numBufferCleanups: nat

    constructor (latencyBuffer: IterableQueue, errorRegistry: FrameErrorRegistry, fmt: Format,
                 popLimitSize: nat, popNum: nat, popDen: nat)
      ensures this.latencyBuffer == latencyBuffer && this.errorRegistry == errorRegistry && this.fmt == fmt
      ensures this.popLimitSize == popLimitSize && this.popNum == popNum && this.popDen == popDen
      ensures nextTimestampToRecord == U64 - 1 && waitingRequests == [] && pool == [] && recorded == []
      ensures counters == Lifecycle.Counters(0, 0, 0, 0, 0)
    {
      this.latencyBuffer, this.errorRegistry, this.fmt := latencyBuffer, errorRegistry, fmt;
      this.popLimitSize, this.popNum, this.popDen := popLimitSize, popNum, popDen;
      nextTimestampToRecord := U64 - 1;
      counters := Lifecycle.Counters(0, 0, 0, 0, 0);
      waitingRequests, pool, recorded := [], [], [];
      payloadsWritten, popReqs, popsCount, occupancy, numBufferCleanups := 0, 0, 0, 0, 0;
    }

    /** What data_request sees of the buffer. */
    ghost function Sees(c: seq<Element>): Lifecycle.Buffer {
      if c == [] then Lifecycle.Empty else Lifecycle.Range(c[0].timestamp, c[|c| - 1].timestamp)
    }

    /** Executes a request: the answer is that of the window extraction, the statistics count the
        request once, and the error bits tell the reader whether anything can be missing. */
    method DataRequest(r: Lifecycle.Request, ghost c: seq<Element>) returns (code: ResultCode, fragment: Fragment)
      requires latencyBuffer.Valid() && c == latencyBuffer.Contents() && Searchable(c, fmt) && r.begin < U64
      modifies this`counters
      ensures counters == Lifecycle.Count(old(counters), code) && Counted(old(counters), code, counters)
      ensures Answers(c, MISSING_FRAMES in errorRegistry.errors, r, code, fragment.frames)
      ensures fragment.dataNotFound <==> code != Found && code != Partial
      ensures fragment.incomplete <==> code == Partial
    {
      var pieces: seq<seq<Frame>> := [];
      var dataNotFound, incomplete := true, false;
      if latencyBuffer.Occupancy() == 0 {
        code := NotFound;
        counters := counters.(bad := counters.bad + 1);
      } else {
        var missingFrames := errorRegistry.HasError(MISSING_FRAMES);
        code, pieces := GetFragmentPieces(latencyBuffer, fmt, missingFrames, r.begin, r.end, c);
        dataNotFound, incomplete := CountResult(code);
      }
      fragment := Fragment(pieces, dataNotFound, incomplete);
    }

    /** The answer to a request on the buffer `c`. With MISSING_FRAMES registered, or without gaps, the
        code depends on the oldest and the newest timestamp only, and the fragment holds the overlapping
        frames exactly when the code says so. With a gap nobody registered it holds those from the start
        of the search on. */
    ghost predicate Answers(c: seq<Element>, missingFrames: bool, r: Lifecycle.Request, code: ResultCode,
                            frames: seq<seq<Frame>>)
      requires r.begin < U64 && (c != [] ==> Searchable(c, fmt))
    {
      && (code != Found && code != Partial ==> frames == []) && (c == [] ==> code == NotFound)
      && (missingFrames || EquallySpaced(c, fmt.Span()) ==>
            && code == Lifecycle.Outcome(Sees(c), r, c != [] && r.begin >= c[0].timestamp + fmt.Span())
            && (code == Found || code == Partial ==>
                  Flatten(frames) == InWindow(AllFrames(c), r.begin, r.end, fmt.tickDiff)))
      && (c != [] ==>
            && fmt.Span() < U64
            && var start := StartOf(c, fmt, missingFrames, r.begin);
               && CodeTells(c, start < |c|, r.begin, r.end, code)
               && code == ClassifyFound(c[0].timestamp, c[|c| - 1].timestamp, start < |c|, r.begin, r.end)
               && (code == Found || code == Partial ==>
                     Flatten(frames) == InWindow(AllFrames(c[start..]), r.begin, r.end, fmt.tickDiff)))
    }

    /** Counts a result code and derives the error bits from it. */
    method CountResult(code: ResultCode) returns (dataNotFound: bool, incomplete: bool)
      modifies this`counters
      ensures counters == Lifecycle.Count(old(counters), code) && Counted(old(counters), code, counters)
      ensures dataNotFound <==> code != Found && code != Partial
      ensures incomplete <==> code == Partial || code == PartiallyOld
    {
      dataNotFound, incomplete := false, false;
      match code {
        case TooOld =>
          counters := counters.(oldWindow := counters.oldWindow + 1, bad := counters.bad + 1);
          dataNotFound := true;
        case PartiallyOld =>
          counters := counters.(oldWindow := counters.oldWindow + 1, found := counters.found + 1);
          incomplete, dataNotFound := true, true;
        case Found =>
          counters := counters.(found := counters.found + 1);
        case Partial =>
          incomplete := true;
          counters := counters.(delayed := counters.delayed + 1);
        case NotYet =>
          dataNotFound := true;
          counters := counters.(delayed := counters.delayed + 1);
        case _ =>
          counters := counters.(bad := counters.bad + 1);
          dataNotFound := true;
      }
    }

    /** One pass of the recorder: from the first element at or after the watermark on, at most a
        thousand elements are written in order, and the watermark moves behind the last of them. A
        watermark before the oldest element finds nothing to write. */
    method RecordPass(ghost c: seq<Element>)
      requires latencyBuffer.Valid() && c == latencyBuffer.Contents()
      requires fmt.Valid() && fmt.Span() >= 1 && Spaced(c, fmt.Span())
      modifies this`recorded, this`payloadsWritten, this`nextTimestampToRecord
      ensures var written := PassWrites(c, old(nextTimestampToRecord));
              && recorded == old(recorded) + written && payloadsWritten == old(payloadsWritten) + |written|
              && nextTimestampToRecord == if written == [] then old(nextTimestampToRecord)
                                          else written[|written| - 1].timestamp + fmt.Span()
      ensures WritesRun(c, old(nextTimestampToRecord), recorded[|old(recorded)|..])
    {
      ghost var before := recorded;
      PassWritesRun(c, nextTimestampToRecord);
      ghost var p := FirstAtLeast(c, nextTimestampToRecord);
      var found, iter := FindWatermark(c);
      if found {
        WriteFrom(iter, fmt.Span(), c, p);
      }
      assert recorded[|before|..] == PassWrites(c, old(nextTimestampToRecord));
    }

    /** The search for the watermark, with the flag that asks for the bisection. */
    method FindWatermark(ghost c: seq<Element>) returns (found: bool, iter: Iterator)
      requires latencyBuffer.Valid() && c == latencyBuffer.Contents()
      requires fmt.Valid() && fmt.Span() >= 1 && Spaced(c, fmt.Span())
      ensures latencyBuffer.Holds(c)
      ensures found <==>
                c != [] && c[0].timestamp <= nextTimestampToRecord && FirstAtLeast(c, nextTimestampToRecord) < |c|
      ensures found ==> latencyBuffer.Good(iter) && iter == latencyBuffer.Nth(FirstAtLeast(c, nextTimestampToRecord))
    {
      iter := LowerBound(latencyBuffer, fmt, nextTimestampToRecord, true);
      found := latencyBuffer.Good(iter);
      latencyBuffer.Layout();
    }

    /** One turn of the writing loop, on the k-th stored element: it is written unless it is before the
        watermark, which then moves behind it. `good` tells whether another element follows. */
    method WriteNext(iter: Iterator, span: nat, ghost c: seq<Element>, ghost k: nat)
      returns (written: bool, next: Iterator, good: bool)
      requires latencyBuffer.Holds(c) && k < |c| && iter == latencyBuffer.Nth(k)
      modifies this`recorded, this`payloadsWritten, this`nextTimestampToRecord
      ensures next == latencyBuffer.Nth(k + 1) && (good <==> k + 1 < |c|)
      ensures written <==> c[k].timestamp >= old(nextTimestampToRecord)
      ensures recorded == old(recorded) + (if written then [c[k]] else [])
      ensures payloadsWritten == old(payloadsWritten) + (if written then 1 else 0)
      ensures nextTimestampToRecord == if written then c[k].timestamp + span else old(nextTimestampToRecord)
    {
      latencyBuffer.NthShows(c, k);
      latencyBuffer.NthShows(c, k + 1);
      var element := latencyBuffer.Deref(iter).value;
      next := latencyBuffer.Advance(iter, c, k);
      good := latencyBuffer.Good(next);
      written := element.timestamp >= nextTimestampToRecord;
      if written {
        recorded := recorded + [element];
        payloadsWritten := payloadsWritten + 1;
        nextTimestampToRecord := element.timestamp + span;
      }
    }

    /** The writing loop, from the p-th stored element on. */
    method WriteFrom(start: Iterator, span: nat, ghost c: seq<Element>, ghost p: nat)
      requires latencyBuffer.Holds(c) && p < |c| && start == latencyBuffer.Nth(p) && latencyBuffer.Good(start)
      requires Spaced(c, span) && nextTimestampToRecord <= c[p].timestamp
      modifies this`recorded, this`payloadsWritten, this`nextTimestampToRecord
      ensures var written := Chunk(c, p);
              && written != [] && recorded == old(recorded) + written
              && payloadsWritten == old(payloadsWritten) + |written|
              && nextTimestampToRecord == written[|written| - 1].timestamp + span
    {
      var iter, good, chunks := start, true, 0;
      ghost var k, before, counted := p, recorded, payloadsWritten;
      assert before + c[p..p] == before;
      while good && chunks < MAX_CHUNKS
        invariant p <= k <= |c| && chunks == k - p <= MAX_CHUNKS && (good <==> k < |c|)
        invariant latencyBuffer.Holds(c) && iter == latencyBuffer.Nth(k)
        invariant Wrote(c, p, k, span, nextTimestampToRecord) && recorded == before + c[p..k]
        invariant payloadsWritten == counted + (k - p)
        decreases |c| - k
      {
        SliceGrows(before, c, p, k);
        WroteNext(c, p, k, span, nextTimestampToRecord);
        var written;
        written, iter, good := WriteNext(iter, span, c, k);
        if written {
          chunks := chunks + 1;
        }
        k := k + 1;
      }
      ChunkIsSlice(c, p, k);
    }

    /** One pass over the waiting list: what has not expired and whose window has not been passed stays, all
        else is posted again, and what expired without its window having been passed is counted. */
    method CheckWaitingRequests(issued: seq<Lifecycle.Request>, newestTs: nat, expired: set<nat>)
      requires Lifecycle.Known(waitingRequests, issued)
      modifies this`waitingRequests, this`pool, this`counters
      ensures waitingRequests == Lifecycle.StillWaiting(old(waitingRequests), issued, newestTs, expired)
      ensures pool == old(pool) + Lifecycle.Retries(old(waitingRequests), issued, newestTs, expired)
      ensures PassIsExact(old(waitingRequests), waitingRequests, pool[|old(pool)|..], issued, newestTs, expired)
      ensures var overdue := Lifecycle.Overdue(old(waitingRequests), issued, newestTs, expired);
              counters == old(counters).(bad := old(counters).bad + overdue,
                                         timedOut := old(counters).timedOut + overdue)
    {
      ghost var posted := Lifecycle.Retries(waitingRequests, issued, newestTs, expired);
      PassTellsAll(waitingRequests, issued, newestTs, expired);
      EraseReleased(issued, newestTs, expired);
      assert pool[|old(pool)|..] == posted;
    }

    /** The loop of a pass, erasing in place: released requests are posted again in order, timed-out ones
        are counted, the rest keep their order. */
    method EraseReleased(issued: seq<Lifecycle.Request>, newestTs: nat, expired: set<nat>)
      requires Lifecycle.Known(waitingRequests, issued)
      modifies this`waitingRequests, this`pool, this`counters
      ensures waitingRequests == Lifecycle.StillWaiting(old(waitingRequests), issued, newestTs, expired)
      ensures var retries := Lifecycle.Retries(old(waitingRequests), issued, newestTs, expired);
              && pool == old(pool) + retries
              && counters == old(counters).(
                   bad := old(counters).bad + Lifecycle.Tally(retries, Lifecycle.TimedOut),
                   timedOut := old(counters).timedOut + Lifecycle.Tally(retries, Lifecycle.TimedOut))
    {
      var i := 0;
      ghost var kept: seq<Lifecycle.Ticket>, rest, out: seq<Lifecycle.Ticket> := [], waitingRequests, [];
      assert kept + rest == rest && pool + out == pool;
      PassSplit([], rest, issued, newestTs, expired);
      while i < |waitingRequests|
        invariant waitingRequests == kept + rest && i == |kept| && Lifecycle.Known(rest, issued)
        invariant pool == old(pool) + out
        invariant PassIs(old(waitingRequests), kept, rest, out, issued, newestTs, expired)
        invariant counters == CountTimeouts(old(counters), Lifecycle.Tally(out, Lifecycle.TimedOut))
        decreases |rest|
      {
        var t := waitingRequests[i];
        var end := issued[t.id].end;
        PassUnfold(old(waitingRequests), kept, rest, out, issued, newestTs, expired);
        Lifecycle.TallyPush(out, Lifecycle.Reissued(t, end, newestTs), Lifecycle.TimedOut);
        if end < newestTs || t.id in expired {
          pool := pool + [Lifecycle.Reissued(t, end, newestTs)];
          if !(end < newestTs) {
            counters := counters.(bad := counters.bad + 1, timedOut := counters.timedOut + 1);
          }
          waitingRequests := waitingRequests[..i] + waitingRequests[i + 1..];
          out := out + [Lifecycle.Reissued(t, end, newestTs)];
        } else {
          i := i + 1;
          kept := kept + [t];
        }
        rest := rest[1..];
      }
      assert kept + [] == kept && out + [] == out;
    }

    /** A cleanup above the limit takes off the front exactly the poppable elements of the configured
        fraction, so nothing at or after the watermark, and forgets the errors before the new front.
        `nullFront` is the case that the code does not provide for: nothing is left, and it dereferences
        a null front. */
    method Cleanup() returns (nullFront: bool)
      requires latencyBuffer.Valid() && popNum <= popDen && popDen >= 1
      modifies this`popReqs, this`popsCount, this`occupancy, this`numBufferCleanups
      modifies latencyBuffer, latencyBuffer.records, errorRegistry
      ensures latencyBuffer.Valid() && latencyBuffer.records == old(latencyBuffer.records)
      ensures var c := old(latencyBuffer.Contents());
              var n := CleanedUp(c);
              && latencyBuffer.Contents() == c[n..] && popsCount == old(popsCount) + n
              && (nullFront <==> |c| > popLimitSize && n == |c|)
              && (|c| > popLimitSize ==> occupancy == |c| - n && popReqs == old(popReqs) + 1)
              && (|c| > popLimitSize && !nullFront ==>
                    errorRegistry.errors == Remaining(old(errorRegistry.errors), c[n].timestamp))
              && (|c| <= popLimitSize || nullFront ==> errorRegistry.errors == old(errorRegistry.errors))
              && (|c| <= popLimitSize ==> popReqs == old(popReqs))
      ensures RemovesMost(old(latencyBuffer.Contents()),
                          |old(latencyBuffer.Contents())| - |latencyBuffer.Contents()|)
      ensures numBufferCleanups == old(numBufferCleanups) + 1
    {
      ghost var c := latencyBuffer.Contents();
      CleanedUpIsLargest(c);
      numBufferCleanups := numBufferCleanups + 1;
      nullFront := false;
      if latencyBuffer.Occupancy() > popLimitSize {
        nullFront := CleanAboveLimit(c);
      }
    }

    method CleanAboveLimit(ghost c: seq<Element>) returns (nullFront: bool)
      requires latencyBuffer.Valid() && c == latencyBuffer.Contents() && |c| > popLimitSize
      requires popNum <= popDen && popDen >= 1
      modifies this`popReqs, this`popsCount, this`occupancy
      modifies latencyBuffer, latencyBuffer.records, errorRegistry
      ensures latencyBuffer.Valid() && latencyBuffer.records == old(latencyBuffer.records)
      ensures var n := CleanedUp(c);
              && latencyBuffer.Contents() == c[n..] && popsCount == old(popsCount) + n
              && occupancy == |c| - n && popReqs == old(popReqs) + 1 && (nullFront <==> n == |c|)
              && errorRegistry.errors == if nullFront then old(errorRegistry.errors)
                                         else Remaining(old(errorRegistry.errors), c[n].timestamp)
    {
      var toPop := Fraction(latencyBuffer.Occupancy(), popNum, popDen);
      FractionAtMostWhole(|c|, popNum, popDen);
      assert CleanedUp(c) == Poppable(c, toPop, nextTimestampToRecord);
      nullFront := PopAboveLimit(toPop, c);
    }

    method PopAboveLimit(toPop: nat, ghost c: seq<Element>) returns (nullFront: bool)
      requires latencyBuffer.Valid() && c == latencyBuffer.Contents() && toPop <= |c|
      modifies this`popReqs, this`popsCount, this`occupancy
      modifies latencyBuffer, latencyBuffer.records, errorRegistry
      ensures latencyBuffer.Valid() && latencyBuffer.records == old(latencyBuffer.records)
      ensures var n := Poppable(c, toPop, nextTimestampToRecord);
              && latencyBuffer.Contents() == c[n..] && popsCount == old(popsCount) + n
              && occupancy == |c| - n && popReqs == old(popReqs) + 1 && (nullFront <==> n == |c|)
              && errorRegistry.errors == if nullFront then old(errorRegistry.errors)
                                         else Remaining(old(errorRegistry.errors), c[n].timestamp)
    {
      var popped, left, frontTs := PopOldElements(toPop, c);
      nullFront := left == 0;
      CountPops(popped, left, frontTs);
    }

    /** What follows the popping: the statistics, and the errors before the new front are forgotten. */
    method CountPops(popped: nat, left: nat, frontTs: nat)
      modifies this`popReqs, this`popsCount, this`occupancy, errorRegistry
      ensures popReqs == old(popReqs) + 1 && popsCount == old(popsCount) + popped && occupancy == left
      ensures errorRegistry.errors == if left == 0 then old(errorRegistry.errors)
                                      else Remaining(old(errorRegistry.errors), frontTs)
    {
      popReqs := popReqs + 1;
      occupancy := left;
      popsCount := popsCount + popped;
      if left > 0 {
        errorRegistry.RemoveErrorsUntil(frontTs);
      }
    }

    /** How many elements a cleanup removes: all of them only if the fraction is the whole. */
    function CleanedUp(c: seq<Element>): (n: nat)
      requires popNum <= popDen && popDen >= 1
      reads this`nextTimestampToRecord
      ensures n <= |c|
      ensures |c| > popLimitSize && n == |c| ==> popNum == popDen
      ensures |c| <= popLimitSize ==> n == 0
    {
      if |c| > popLimitSize then
        FractionIsWhole(|c|, popNum, popDen);
        FractionAtMostWhole(|c|, popNum, popDen);
        Poppable(c, Fraction(|c|, popNum, popDen), nextTimestampToRecord)
      else
        0
    }

    /** The first `m` elements may be removed: they are no more than the configured fraction, and all of
        them are older than what the recorder waits for. */
    ghost predicate MayGo(c: seq<Element>, m: nat)
      reads this`nextTimestampToRecord
    {
      m <= |c| && m * popDen <= popNum * |c| && forall i | 0 <= i < m :: c[i].timestamp < nextTimestampToRecord
    }

    /** Above the limit as many elements are removed as may be, and none up to it. */
    ghost predicate RemovesMost(c: seq<Element>, n: int)
      reads this`nextTimestampToRecord
    {
      if |c| > popLimitSize then n >= 0 && MayGo(c, n) && forall m | n < m <= |c| :: !MayGo(c, m) else n == 0
    }

    lemma CleanedUpIsLargest(c: seq<Element>)
      requires popNum <= popDen && popDen >= 1
      ensures RemovesMost(c, CleanedUp(c))
    {
      var n := CleanedUp(c);
      FractionIsLargest(|c|, popNum, popDen, n);
      forall m | |c| > popLimitSize && n < m <= |c| ensures !MayGo(c, m) {
        FractionIsLargest(|c|, popNum, popDen, m);
      }
    }

    /** The popping loop of the cleanup; it returns the occupancy and, if anything is left, the timestamp
        of the new front as well. */
    method PopOldElements(toPop: nat, ghost c: seq<Element>) returns (popped: nat, left: nat, frontTs: nat)
      requires latencyBuffer.Valid() && c == latencyBuffer.Contents() && toPop <= |c|
      modifies latencyBuffer, latencyBuffer.records
      ensures latencyBuffer.Valid() && latencyBuffer.records == old(latencyBuffer.records)
      ensures popped == Poppable(c, toPop, nextTimestampToRecord)
      ensures latencyBuffer.Contents() == c[popped..] && left == |c| - popped
      ensures left > 0 ==> frontTs == c[popped].timestamp
    {
      popped := 0;
      while popped < toPop
        invariant popped <= toPop && popped <= FirstAtLeast(c, nextTimestampToRecord)
        invariant latencyBuffer.Valid() && latencyBuffer.records == old(latencyBuffer.records)
        invariant latencyBuffer.Contents() == c[popped..]
      {
        var front := latencyBuffer.Deref(latencyBuffer.Front()).value;
        assert front == c[popped];
        if front.timestamp < nextTimestampToRecord {
          latencyBuffer.PopFront();
          popped := popped + 1;
        } else {
          break;
        }
      }
      left := latencyBuffer.Occupancy();
      frontTs := if left > 0 then latencyBuffer.Deref(latencyBuffer.Front()).value.timestamp else 0;
    }
  }

  /** What each counter was incremented for. */
  predicate Counted(before: Lifecycle.Counters, code: ResultCode, after: Lifecycle.Counters) {
    && after.found == before.found + (if code == Found || code == PartiallyOld then 1 else 0)
    && after.delayed == before.delayed + (if code == NotYet || code == Partial then 1 else 0)
    && after.oldWindow == before.oldWindow + (if code == TooOld || code == PartiallyOld then 1 else 0)
    && after.bad == before.bad + (if code == TooOld || code == NotFound || code == Unknown then 1 else 0)
    && after.timedOut == before.timedOut
  }

  /** At most a thousand elements from the p-th on. */
  function Chunk(c: seq<Element>, p: nat): seq<Element>
    requires p <= |c|
  {
    if |c| - p <= MAX_CHUNKS then c[p..] else c[p..p + MAX_CHUNKS]
  }

  lemma ChunkIsSlice(c: seq<Element>, p: nat, k: nat)
    requires p < k <= |c| && k - p <= MAX_CHUNKS && (k == |c| || k - p == MAX_CHUNKS)
    ensures Chunk(c, p) == c[p..k] && |Chunk(c, p)| == k - p && Chunk(c, p)[k - p - 1] == c[k - 1]
  {
  }

  /** Elements `p` to before `k` are written: the watermark is behind the last of them, and not past the
      next. */
  ghost predicate Wrote(c: seq<Element>, p: nat, k: nat, span: nat, watermark: nat) {
    && p <= k <= |c| && (k < |c| ==> watermark <= c[k].timestamp)
    && (k > p ==> watermark == c[k - 1].timestamp + span)
  }

  lemma WroteNext(c: seq<Element>, p: nat, k: nat, span: nat, watermark: nat)
    requires Wrote(c, p, k, span, watermark) && k < |c| && Spaced(c, span)
    ensures Wrote(c, p, k + 1, span, c[k].timestamp + span) && watermark <= c[k].timestamp
  {
  }

  lemma SliceGrows(before: seq<Element>, c: seq<Element>, p: nat, k: nat)
    requires p <= k < |c|
    ensures before + c[p..k] + [c[k]] == before + c[p..k + 1]
  {
    assert c[p..k + 1] == c[p..k] + [c[k]];
  }

  /** The elements one pass of the recorder writes. */
  function PassWrites(c: seq<Element>, watermark: nat): seq<Element> {
    if c == [] || watermark < c[0].timestamp then [] else Chunk(c, FirstAtLeast(c, watermark))
  }

  /** These elements are the stretch of `c` from its first one at or after the watermark on, all of it or
      a thousand; nothing, if the watermark lies before the oldest. */
  ghost predicate WritesRun(c: seq<Element>, watermark: nat, written: seq<Element>) {
    if c == [] || watermark < c[0].timestamp then
      written == []
    else
      exists p: nat ::
        && p + |written| <= |c| && written == c[p..p + |written|]
        && (forall i | 0 <= i < p :: c[i].timestamp < watermark) && (p < |c| ==> c[p].timestamp >= watermark)
        && (p + |written| == |c| || |written| == 1000) && |written| <= 1000
  }

  lemma PassWritesRun(c: seq<Element>, watermark: nat)
    ensures WritesRun(c, watermark, PassWrites(c, watermark))
  {
    var p, written := FirstAtLeast(c, watermark), PassWrites(c, watermark);
    if c != [] && watermark >= c[0].timestamp {
      assert written == c[p..p + |written|];
    }
  }

  /** Of the tickets `ws` those stay that have not expired and whose window has not been passed; all others
      are posted, each once, as a retry that tells why. */
  ghost predicate PassIsExact(ws: seq<Lifecycle.Ticket>, kept: seq<Lifecycle.Ticket>, posted: seq<Lifecycle.Ticket>,
                              issued: seq<Lifecycle.Request>, newest: nat, expired: set<nat>)
    requires Lifecycle.Known(ws, issued)
  {
    && (forall t :: t in kept <==> t in ws && t.id !in expired && newest <= issued[t.id].end)
    && (forall t :: t in posted <==> exists w :: w in ws && Lifecycle.PostedAs(w, t, issued, newest, expired))
    && (forall id: nat :: Lifecycle.Tally(kept, Lifecycle.Carries(id)) + Lifecycle.Tally(posted, Lifecycle.Carries(id))
                          == Lifecycle.Tally(ws, Lifecycle.Carries(id)))
  }

  lemma PassTellsAll(ws: seq<Lifecycle.Ticket>, issued: seq<Lifecycle.Request>, newest: nat, expired: set<nat>)
    requires Lifecycle.Known(ws, issued)
    ensures PassIsExact(ws, Lifecycle.StillWaiting(ws, issued, newest, expired),
                        Lifecycle.Retries(ws, issued, newest, expired), issued, newest, expired)
    ensures Lifecycle.Tally(Lifecycle.Retries(ws, issued, newest, expired), Lifecycle.TimedOut)
         == Lifecycle.Overdue(ws, issued, newest, expired)
  {
    var kept := Lifecycle.StillWaiting(ws, issued, newest, expired);
    var posted := Lifecycle.Retries(ws, issued, newest, expired);
    forall t ensures t in kept <==> t in ws && t.id !in expired && newest <= issued[t.id].end {
      Lifecycle.PassLeaves(ws, issued, newest, expired, t);
    }
    forall t ensures t in posted <==> exists w :: w in ws && Lifecycle.PostedAs(w, t, issued, newest, expired) {
      Lifecycle.PassPosts(ws, issued, newest, expired, t);
    }
    forall id: nat
      ensures Lifecycle.Tally(kept, Lifecycle.Carries(id)) + Lifecycle.Tally(posted, Lifecycle.Carries(id))
           == Lifecycle.Tally(ws, Lifecycle.Carries(id))
    {
      Lifecycle.PassKeepsTally(ws, issued, newest, expired, id);
    }
    Lifecycle.PassTimesOut(ws, issued, newest, expired);
  }

  function CountTimeouts(k: Lifecycle.Counters, n: nat): Lifecycle.Counters {
    k.(bad := k.bad + n, timedOut := k.timedOut + n)
  }

  /** After some of the waiting list: `kept` stay, `out` are released, `rest` is to be looked at. */
  ghost predicate PassIs(ws: seq<Lifecycle.Ticket>, kept: seq<Lifecycle.Ticket>, rest: seq<Lifecycle.Ticket>,
                         out: seq<Lifecycle.Ticket>, issued: seq<Lifecycle.Request>, newest: nat, expired: set<nat>)
  {
    && Lifecycle.Known(ws, issued) && Lifecycle.Known(rest, issued)
    && kept + Lifecycle.StillWaiting(rest, issued, newest, expired)
       == Lifecycle.StillWaiting(ws, issued, newest, expired)
    && out + Lifecycle.Retries(rest, issued, newest, expired) == Lifecycle.Retries(ws, issued, newest, expired)
  }

  lemma PassSplit(none: seq<Lifecycle.Ticket>, ws: seq<Lifecycle.Ticket>, issued: seq<Lifecycle.Request>,
                  newest: nat, expired: set<nat>)
    requires none == [] && Lifecycle.Known(ws, issued)
    ensures PassIs(ws, none, ws, none, issued, newest, expired)
  {
  }

  /** What the pass makes of a list is what it makes of its first ticket, and of the rest. */
  lemma PassOfFirst(rest: seq<Lifecycle.Ticket>, issued: seq<Lifecycle.Request>, newest: nat, expired: set<nat>)
    requires rest != [] && Lifecycle.Known(rest, issued)
    ensures Lifecycle.Known(rest[1..], issued) && rest[0] in rest
    ensures var t, stay := rest[0], Lifecycle.StillWaiting(rest[1..], issued, newest, expired);
            var go := Lifecycle.Retries(rest[1..], issued, newest, expired);
            if Lifecycle.Released(t, issued[t.id].end, newest, expired) then
              && Lifecycle.StillWaiting(rest, issued, newest, expired) == stay
              && Lifecycle.Retries(rest, issued, newest, expired)
                 == [Lifecycle.Reissued(t, issued[t.id].end, newest)] + go
            else
              && Lifecycle.StillWaiting(rest, issued, newest, expired) == [t] + stay
              && Lifecycle.Retries(rest, issued, newest, expired) == go
  {
  }

  lemma PassUnfold(ws: seq<Lifecycle.Ticket>, kept: seq<Lifecycle.Ticket>, rest: seq<Lifecycle.Ticket>,
                   out: seq<Lifecycle.Ticket>, issued: seq<Lifecycle.Request>, newest: nat, expired: set<nat>)
    requires PassIs(ws, kept, rest, out, issued, newest, expired) && rest != []
    ensures var t := rest[0];
            if Lifecycle.Released(t, issued[t.id].end, newest, expired) then
              PassIs(ws, kept, rest[1..], out + [Lifecycle.Reissued(t, issued[t.id].end, newest)], issued, newest,
                     expired)
            else
              PassIs(ws, kept + [t], rest[1..], out, issued, newest, expired)
  {
    var t, tail := rest[0], rest[1..];
    PassOfFirst(rest, issued, newest, expired);
    Regroup(kept, t, Lifecycle.StillWaiting(tail, issued, newest, expired));
    Regroup(out, Lifecycle.Reissued(t, issued[t.id].end, newest), Lifecycle.Retries(tail, issued, newest, expired));
  }

  lemma Regroup(a: seq<Lifecycle.Ticket>, t: Lifecycle.Ticket, b: seq<Lifecycle.Ticket>)
    ensures a + ([t] + b) == (a + [t]) + b
  {
  }
}
