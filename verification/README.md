# Verification of the latency buffer and of the threads around it

This project models the part of datahandlinglibs through which all readout data passes: the latency
buffer, the searches over it, the request handler that cuts time windows out of it, and the producer,
cleanup, recording and post-processing threads that share it. `dafny verify dfyconfig.toml` checks
everything.

| file | what it models |
|---|---|
| `Elements.dfy`, `Arithmetic.dfy` | time-stamped elements and their frames; facts about products and quotients |
| `IterableQueue.dfy` | the ring as a class over an array of slots, its iterator, prefill and release |
| `LockFreeRing.dfy` | the same ring step by step, one producer and one consumer with stale index snapshots |
| `Searches.dfy` | circular binary search and constant-time index arithmetic, against a linear search |
| `RequestWindow.dfy`, `Coverage.dfy` | window extraction against a filter on frames; what a result code promises |
| `UnregisteredGaps.dfy` | what a request loses on a buffer with a gap that the registry does not name |
| `OrderedWindow.dfy` | the same extraction on an ordered-set buffer, where a window may be answered `kPartiallyOld` |
| `FrameErrorRegistry.dfy` | the error registry, and when its silence justifies the constant-time search |
| `RequestHandler.dfy` | the request handler's code on a buffer that stands still |
| `RequestWhilePushing.dfy` | the extraction while the producer keeps pushing |
| `RequestLifecycle.dfy`, `RequestOutcomes.dfy` | requests on their way through pool, execution, waiting list and answer; what becomes of them in the end |
| `RecordingProtocol.dfy`, `RecordingTheorems.dfy` | producer, workers, cleanup and recorder interleaved, and what holds in every run |
| `RecordingProgress.dfy` | that a pending cleanup can be brought to its end, and exactly when the recorder can go on |
| `RecordingRuns.dfy`, `RecordingWitnesses.dfy` | runs put together step by step; runs into the states where the shared buffer does less than expected, and exactly when there are such runs |
| `ZeroCopyRecorder.dfy`, `ZeroCopyProtocol.dfy` | recording the memory of the ring in place: the pointer arithmetic, and the interleaving byte by byte |
| `ZeroCopyAlignment.dfy` | the search for an aligned element that such a recording begins with |
| `PostProcessing.dfy`, `PostProcessingRuns.dfy` | deferred post-processing of an ordered-set buffer, one pass and whole runs |
| `SkipListCleanup.dfy`, `RateLimiter.dfy`, `ErrorBitGenerator.dfy` | three independent pieces |

Code that changes fields in place is a class whose methods are proved against functions and predicates
on sequences; the properties of whole runs are proved on state machines over the steps of the threads,
and hold for every sequence of steps. In `LockFreeRing.dfy` every atomic load and store of the ring is a
step of its own. In `RecordingProtocol.dfy` every index load of the recorder is: front(), the search and
each good() compare a read index and a write index loaded at different moments, with anything in between;
a push and a cleanup iteration are one step each.

## Where the code does less than one would expect

Each of these is proved: the exact condition where one is named, and a concrete case where one is cited.

- A window that starts in the oldest stored element is answered `kNotFound`, and one that ends in the
  newest is answered `kPartial`, although the stored frames cover it (`Coverage.CoveredNeedNotBeFound`).
  The code is `kFound` exactly when the frames tile the window, the window starts at least one element
  after the oldest timestamp and ends at or before the newest (`Coverage.FoundMeansCovered`).
- With the two searches of the queues a window is never answered `kPartiallyOld` on a buffer that stands
  still: before that branch is reached the search has returned past-the-end
  (`RequestWindow.GetFragmentPieces`). With the lower bound of an ordered set it can be; the frames then
  tile the window from the oldest element on, and there are none exactly when the window ends where the
  buffer begins (`OrderedWindow.PartiallyOldMeansRestCovered`).
- While elements are pushed, a window within the first span of ticks can get another code than the two
  sampled timestamps call for: the search key wraps, the bisection leads to the write index, and a push
  puts an element there (`RequestWhilePushing.SearchCanBeOvertaken`). Its pieces are then those of elements
  pushed later, or none (`RequestWhilePushing.OvertakenStart`). When the registry names MISSING_FRAMES, or
  nothing is missing between the elements stored when the newest timestamp was read, that is the only way,
  whatever is pushed afterwards (`RequestWhilePushing.GetFragmentPiecesWhilePushing`).
- On a buffer with a gap that is not registered, the constant-time search may start too late, never too
  early (`Searches.PositionNotBeforeFirst`); the pieces then are the overlapping frames from there on. A
  stored frame is lost exactly when an element that reaches into the window is stored at a position whose
  gap-free element would end before it (`UnregisteredGaps.AllIsDeliveredExactlyWhen`); it does happen that
  a window is answered `kFound` with an empty fragment (`UnregisteredGaps.GapLosesFrames`).
- The recorder may dereference an element that has been popped: the one it wrote last, when the write
  index comes around between the two loads of one good(). Some run does so exactly when a cleanup of a full
  buffer pops anything (the limit is below `size - 1` and the fraction of `size - 1` elements is at least
  one) and as many elements as there are slots fit below the largest timestamp
  (`RecordingWitnesses.PoppedElementIsDereferencedExactlyWhen`). It is never another element, its slot is
  not reused, and it is not written again (`RecordingTheorems.RecorderReadsNextOrLast`).
- Once everything recorded is popped and the next element comes after a gap, the recorder's search key
  lies before the front, the search returns past-the-end, and the recording neither writes nor lets the
  cleanup pop anything until it is stopped (`RecordingTheorems.StalledStays`). Only then is it stuck
  (`RecordingProgress.RecordingGoesOnExactlyWhenNotStalled`). It takes a gap behind the
  last written element (`RecordingTheorems.StallNeedsGap`). Some run gets there exactly when the fewest
  elements on which a cleanup pops one are fewer than the slots, and fit below the largest timestamp with
  one gap (`RecordingWitnesses.StallIsReachableExactlyWhen`). The search comes back empty exactly when the
  sample is empty or this has happened (`RecordingProtocol.SearchFindsNext`).
- The cleanup dereferences the front after popping. In some run there is none exactly when the configured
  fraction is the whole buffer and there is room, in the ring and below the largest timestamp, for more
  elements than the limit (`RecordingWitnesses.NullFrontExactlyWhenWholeIsPopped`).
- The registry's silence means an equally spaced buffer as long as no write was dropped; a drop that ends
  up between two live elements breaks it (`FrameErrorRegistryModel.FastPathExactlyWhenUnbroken`,
  `FrameErrorRegistryModel.DropBreaksSilence`). For the keys of one request a
  silence that it has read stays right, whatever is preprocessed, written or dropped while it runs, exactly
  when nothing was dropped between the oldest element and the newest one it has seen
  (`FrameErrorRegistryModel.SilenceLastsExactlyWhenUnbroken`).
- A retry released by data ends in `kNotYet` for some run exactly when its window begins more than one
  tick after its end, whatever the searches of the executions find
  (`RequestOutcomes.DataRetryIsDecisiveExactlyWhen`).
- The comment above the waiting loop promises that waiting requests are served at stop. The loop ends with
  the run marker instead: what waits then waits for ever, and some request can be left over exactly when
  there are retries at all (`RequestOutcomes.StopLeavesWaitingBehind`,
  `RequestOutcomes.LeftOversExactlyWithRetries`).
- The search for an aligned element to begin a zero-copy recording with does not start over when it runs
  past the end: the `continue` in `ZeroCopyRecordingRequestHandlerModel.hxx:131-137` binds to the inner
  loop. The recording is then stuck for good, with a watermark of 0 that keeps the cleanup from popping
  (`ZeroCopyAlignment.StuckForEver`). Left alone the search fails exactly when no stored element is
  aligned, and some run gets there exactly when some slot is not
  (`ZeroCopyAlignment.StuckIsReachableExactlyWhenMisaligned`).

## Model

| member | source | states |
|---|---|---|
| IterableQueueModel.IterableQueue.Write | include/datahandlinglibs/models/detail/IterableQueueModel.hxx:155-172 | appends exactly when fewer than size - 1 elements are stored, otherwise changes nothing and counts an overflow |
| IterableQueueModel.IterableQueue.Read | include/datahandlinglibs/models/detail/IterableQueueModel.hxx:176-193 | removes and returns the oldest element exactly when there is one |
| IterableQueueModel.IterableQueue.PopFront | include/datahandlinglibs/models/detail/IterableQueueModel.hxx:198-210 | removes the oldest element and leaves the write index alone |
| IterableQueueModel.IterableQueue.Pop | include/datahandlinglibs/models/detail/IterableQueueModel.hxx:215-220 | removes the x oldest elements, in order |
| IterableQueueModel.IterableQueue.Flush | include/datahandlinglibs/models/IterableQueueModel.hpp:237-237 | empties the queue from the consumer's side |
| IterableQueueModel.IterableQueue.PrefillTask | include/datahandlinglibs/models/detail/IterableQueueModel.hxx:84-103 | fills all usable slots without overflow and leaves an empty queue whose indices moved by the capacity |
| IterableQueueModel.IterableQueue.FreeMemory | include/datahandlinglibs/models/detail/IterableQueueModel.hxx:9-23 | destructs every constructed slot and no other |
| IterableQueueModel.IterableQueue.Conf | include/datahandlinglibs/models/detail/IterableQueueModel.hxx:297-317 | nothing stays constructed in the old memory; the new one is empty, preallocated or not |
| IterableQueueModel.IterableQueue.Occupancy | include/datahandlinglibs/models/detail/IterableQueueModel.hxx:254-262 | the wrapped index difference is the number of steps from the read index to the write index |
| IterableQueueModel.IterableQueue.IsEmpty | include/datahandlinglibs/models/detail/IterableQueueModel.hxx:225-228 | true exactly when nothing is stored |
| IterableQueueModel.IterableQueue.IsFull | include/datahandlinglibs/models/detail/IterableQueueModel.hxx:233-244 | true exactly when size - 1 elements are stored |
| IterableQueueModel.IterableQueue.Front | include/datahandlinglibs/models/detail/IterableQueueModel.hxx:267-274 | the slot of the oldest element, null exactly when empty |
| IterableQueueModel.IterableQueue.Back | include/datahandlinglibs/models/detail/IterableQueueModel.hxx:279-292 | the slot of the newest element, null exactly when empty |
| IterableQueueModel.IterableQueue.GoodExactlyWhenLive | include/datahandlinglibs/models/IterableQueueModel.hpp:283-291 | good() holds exactly on the slots of stored elements, for every wrap; what it says of indices beyond the last slot |
| IterableQueueModel.IterableQueue.IncrementVisitsInOrder | include/datahandlinglibs/models/IterableQueueModel.hpp:257-312 | begin() is the oldest element, each increment the next one, and after the newest comes end() |
| IterableQueueModel.IterableQueue.Visit | include/datahandlinglibs/models/IterableQueueModel.hpp:257-312 | a walk from begin() to end() meets exactly the stored elements, in FIFO order |
| LockFreeRing.StepRefinesFifo | include/datahandlinglibs/models/detail/IterableQueueModel.hxx:155-210 | every atomic step of either thread is a step of a FIFO of capacity size - 1, as its caller sees it, or no step at all |
| LockFreeRing.RingRefinesBoundedFifo | include/datahandlinglibs/models/detail/IterableQueueModel.hxx:155-262 | for every interleaving with stale snapshots: reads return the successful writes in order, at most size - 1 elements are held, no live slot is constructed on, no raw one used, and popFront's assertion holds also for pop(occupancy()) |
| LockFreeRing.ConstructsOnlyInRawSlots | include/datahandlinglibs/models/detail/IterableQueueModel.hxx:163-164 | whenever the producer is about to construct, its slot is raw |
| LockFreeRing.ComparisonsAreExact | include/datahandlinglibs/models/detail/IterableQueueModel.hxx:155-210 | in every reachable state, whatever the snapshots the comparisons were made with, the producer goes on exactly when there is room, and the consumer exactly when something is stored |
| LockFreeRing.CountIsLengthAtSample | include/datahandlinglibs/models/detail/IterableQueueModel.hxx:254-262 | the occupancy a consumer computes is the number of elements stored when it loaded the write index |
| LockFreeRing.PopRemovesExactly | include/datahandlinglibs/models/detail/IterableQueueModel.hxx:215-220 | in every run a pop of x elements removes exactly x |
| Searches.BinaryLowerBound | include/datahandlinglibs/models/detail/BinarySearchQueueModel.hxx:8-26 | end() exactly for an empty queue or a key before the front; else the slot of an element with the key, or of the first one after it, or the write index |
| Searches.Bisect | include/datahandlinglibs/models/detail/BinarySearchQueueModel.hxx:28-58 | the loop ends with such a position for every wrap and stays inside the ring; the early return for a smaller key is never reached |
| Searches.FoundIsFirstUnlessDuplicated | include/datahandlinglibs/models/detail/BinarySearchQueueModel.hxx:36-38 | the position a search stops at is the first with ts >= key exactly when the element before it has another timestamp |
| Searches.FoundIsUnique | include/datahandlinglibs/models/detail/BinarySearchQueueModel.hxx:8-59 | with strictly increasing timestamps the binary search is the linear one |
| Searches.FixedRateIndexIsHop | include/datahandlinglibs/models/detail/FixedRateQueueModel.hxx:27-38 | nested division, the bump and one wrap subtraction, truncated to 32 bits, give the tick distance rounded up to elements, around the ring |
| Searches.FixedRateIsFirstAtLeast | include/datahandlinglibs/models/detail/FixedRateQueueModel.hxx:13-40 | on equally spaced buffers the index arithmetic is the linear search, for keys from the front to one slot past the newest |
| Searches.ReferenceGood | include/datahandlinglibs/models/detail/BinarySearchQueueModel.hxx:15-51 | when the result of the search is good(), and which element it then stands on |
| Searches.SearchesAgree | include/datahandlinglibs/models/detail/FixedRateQueueModel.hxx:13-40 | on equally spaced buffers both searches return the same iterator up to one slot past the newest, and no good one beyond |
| Searches.InterchangeableExactlyWhenEquallySpaced | include/datahandlinglibs/models/detail/FixedRateQueueModel.hxx:8-41 | the fast search may replace the bisection for all keys if and only if the buffer is equally spaced |
| Searches.PositionIsFirst | include/datahandlinglibs/models/detail/FixedRateQueueModel.hxx:8-41 | with the error flag, or without gaps, the position the search leads to is the linear one for every key from the front on |
| Searches.PositionNotBeforeFirst | include/datahandlinglibs/models/detail/FixedRateQueueModel.hxx:13-40 | on a buffer with gaps the index arithmetic never leads to an element before the linear one |
| Searches.PositionInsideBeginning | include/datahandlinglibs/models/detail/FixedRateQueueModel.hxx:8-41 | for a key inside a beginning of the buffer that has no gap the index arithmetic gives the linear position, whatever comes after it |
| Searches.GapMisleads | include/datahandlinglibs/models/detail/FixedRateQueueModel.hxx:13-40 | an element behind a gap is not found by its own timestamp |
| Searches.LowerBound | include/datahandlinglibs/models/detail/FixedRateQueueModel.hxx:8-41 | whether the returned iterator is good() and on which element it then is, with and without the flag, with and without gaps |
| RequestWindow.NoStartBeforeSpan | include/datahandlinglibs/models/detail/DefaultRequestHandlerModel.hxx:465-475 | a key that wraps, or lies before the front, leads to no element in either search |
| RequestWindow.StartIsFirst | include/datahandlinglibs/models/detail/DefaultRequestHandlerModel.hxx:465-475 | with MISSING_FRAMES registered or without gaps the start is found exactly for windows one element after the oldest timestamp, and is the first element that can overlap |
| RequestWindow.NothingIsLost | include/datahandlinglibs/models/detail/DefaultRequestHandlerModel.hxx:465-493 | in those cases no element before the start overlaps the window |
| RequestWindow.AppendElement | include/datahandlinglibs/models/detail/DefaultRequestHandlerModel.hxx:494-518 | skipped, copied whole or frame by frame, an element contributes exactly its frames that overlap the window; and none when it is taken frame by frame and the comparison with a start within the first tick wraps |
| RequestWindow.FindStart | include/datahandlinglibs/models/detail/DefaultRequestHandlerModel.hxx:465-475 | whichever search runs, and with gaps or without, when the start iterator is good() and on which element |
| RequestWindow.Collect | include/datahandlinglibs/models/detail/DefaultRequestHandlerModel.hxx:491-523 | the loop collects the overlapping frames of the elements from the start iterator to the end of the window |
| RequestWindow.GetFragmentPieces | include/datahandlinglibs/models/detail/DefaultRequestHandlerModel.hxx:443-528 | on every buffer the code, told from all stored timestamps, the window and whether the search leads to an element; and for Found and Partial the simple filter over the frames from the start of the search on; with MISSING_FRAMES registered or without gaps the filter over all stored frames, and a search that leads to an element exactly for windows one element after the oldest timestamp |
| RequestWindow.ClassifyFoundTells | include/datahandlinglibs/models/detail/DefaultRequestHandlerModel.hxx:458-487 | the comparisons with the oldest and newest timestamp answer NotYet exactly when every stored element is before the window, TooOld exactly when not so and every one is after it, NotFound exactly when the search then leads nowhere, and Partial, PartiallyOld and Found by whether the window ends after and begins before all of them |
| RequestWindow.WalkedStretch | include/datahandlinglibs/models/detail/DefaultRequestHandlerModel.hxx:489-523 | no frame behind the walked elements overlaps the window |
| Coverage.TiledExactlyWhenInside | include/datahandlinglibs/testutils/TestUtilities.hpp:240-252 | on a contiguous buffer the overlapping frames tile a non-empty window exactly when it lies between the oldest and the newest tick |
| Coverage.FoundMeansCovered | include/datahandlinglibs/models/detail/DefaultRequestHandlerModel.hxx:479-487 | Found exactly when the pieces tile the window, it starts one element after the oldest timestamp and ends no later than the newest |
| Coverage.CoveredNeedNotBeFound | include/datahandlinglibs/models/detail/DefaultRequestHandlerModel.hxx:465-481 | a buffer with a tiled window answered NotFound and another answered Partial |
| UnregisteredGaps.ReachingContributes | include/datahandlinglibs/models/detail/DefaultRequestHandlerModel.hxx:494-518 | an element has a frame that overlaps a non-empty window exactly when some of its ticks lie in it |
| UnregisteredGaps.AllIsDeliveredExactlyWhen | include/datahandlinglibs/models/detail/DefaultRequestHandlerModel.hxx:465-523 | once a start is found, the frames from there on are all stored overlapping frames if and only if MISSING_FRAMES is registered or no element that reaches into the window is stored at a position whose gap-free element would end before it |
| UnregisteredGaps.GapLosesFrames | include/datahandlinglibs/models/detail/DefaultRequestHandlerModel.hxx:465-523 | a buffer with an unregistered gap and a window answered Found that gets nothing although two stored elements reach into it |
| OrderedWindow.KeyFindsOrdered | include/datahandlinglibs/models/detail/DefaultRequestHandlerModel.hxx:465-475 | on an ordered set the key finds an element exactly when its subtraction did not wrap |
| OrderedWindow.GetOrderedPieces | include/datahandlinglibs/models/detail/DefaultRequestHandlerModel.hxx:443-528 | on an ordered set: the code, told from all stored timestamps, the window and whether the key wraps, and the simple filter for Found, Partial and PartiallyOld |
| OrderedWindow.OrderedFoundMeansCovered | include/datahandlinglibs/models/detail/DefaultRequestHandlerModel.hxx:479-487 | on an ordered set Found exactly when the pieces tile the window, the key does not wrap and the window ends no later than the newest timestamp |
| OrderedWindow.PartiallyOldMeansRestCovered | include/datahandlinglibs/models/detail/DefaultRequestHandlerModel.hxx:482-484 | PartiallyOld exactly covers the window from the oldest element on, and when it covers nothing |
| RequestWhilePushing.StartWhileGrowing | include/datahandlinglibs/models/detail/DefaultRequestHandlerModel.hxx:465-475 | on growing views, with MISSING_FRAMES registered or no gap in the buffer as of back(), the start is the linear one of every later view; windows that start within a span of the oldest timestamp have none, except for a bisection with a wrapped key and a push before good() |
| RequestWhilePushing.CollectWhileGrowing | include/datahandlinglibs/models/detail/DefaultRequestHandlerModel.hxx:489-523 | the loop, with the write index loaded anew by every good(), gathers what each element from the start on contributes, and walks at least the elements of the sampled buffer that are before the end of the window |
| RequestWhilePushing.GetFragmentPiecesWhilePushing | include/datahandlinglibs/models/detail/DefaultRequestHandlerModel.hxx:443-528 | while elements are pushed: code and pieces for what the search leads to, on all views, the code told from the timestamps in the buffer as of back(); with MISSING_FRAMES registered or no gap in that buffer, and whatever is pushed later, the code is that of the two sampled timestamps if and only if the search was not overtaken, Found pieces are the filter over the buffer at the sample and at the end alike, Partial ones the filter over the buffer at some moment between |
| RequestWhilePushing.OvertakenStart | include/datahandlinglibs/models/detail/DefaultRequestHandlerModel.hxx:465-523 | an overtaken search starts at the first element pushed after it; if the window ends by the sampled newest timestamp there are no pieces |
| RequestWhilePushing.SearchCanBeOvertaken | include/datahandlinglibs/models/detail/DefaultRequestHandlerModel.hxx:465-475 | views on which the search is overtaken and the code is another |
| FrameErrorRegistryModel.FrameErrorRegistry.AddError | include/datahandlinglibs/FrameErrorRegistry.hpp:43-51 | registers the interval in place of an earlier one with that name |
| FrameErrorRegistryModel.FrameErrorRegistry.RemoveErrorsUntil | include/datahandlinglibs/FrameErrorRegistry.hpp:53-65 | the loop removes exactly the intervals that end before ts, in whatever order it visits them, and keeps the others as they are |
| FrameErrorRegistryModel.SilenceIsSoundExactlyWhenUnbroken | include/datahandlinglibs/models/detail/DefaultRequestHandlerModel.hxx:390-390 | in every reachable state without MISSING_FRAMES the live buffer is equally spaced exactly when nothing between live elements was dropped |
| FrameErrorRegistryModel.SilenceIsSoundWithoutDrops | include/datahandlinglibs/FrameErrorRegistry.hpp:43-65 | while no write is dropped, absence of the error means an equally spaced live buffer, also after any cleanups |
| FrameErrorRegistryModel.ForgettingSilencesExactly | include/datahandlinglibs/models/detail/DefaultRequestHandlerModel.hxx:388-390 | in every run, right after a cleanup has forgotten old errors MISSING_FRAMES is registered exactly when there is a gap before the oldest live element or later |
| FrameErrorRegistryModel.FastPathExactlyWhenUnbroken | include/datahandlinglibs/models/detail/DefaultRequestHandlerModel.hxx:469-471 | the choice of the search by the registry is sound for all keys if and only if nothing between live elements was dropped |
| FrameErrorRegistryModel.SilenceLastsExactlyWhenUnbroken | include/datahandlinglibs/models/detail/DefaultRequestHandlerModel.hxx:443-475 | for a request that reads the newest timestamp, then a silent registry, and runs on while elements are preprocessed, written and dropped: the index arithmetic gives the linear position on the later buffer for all keys up to that timestamp if and only if nothing between the oldest element and it was dropped |
| FrameErrorRegistryModel.DropBreaksSilence | include/datahandlinglibs/models/detail/DefaultRequestHandlerModel.hxx:469-471 | a run with one dropped write that ends with a silent registry and a gap in the live buffer |
| RequestHandlerModel.RequestHandler.DataRequest | include/datahandlinglibs/models/detail/DefaultRequestHandlerModel.hxx:532-606 | the code, told from the stored timestamps, and the frames of the fragment with and without unregistered gaps, the error bits and which counters grew, also for an empty buffer |
| RequestHandlerModel.RequestHandler.CountResult | include/datahandlinglibs/models/detail/DefaultRequestHandlerModel.hxx:569-597 | found grows with Found and PartiallyOld, delayed with NotYet and Partial, oldWindow with TooOld and PartiallyOld, bad with TooOld, NotFound and kUnknown; and which error bits a code sets |
| RequestHandlerModel.RequestHandler.CheckWaitingRequests | include/datahandlinglibs/models/detail/DefaultRequestHandlerModel.hxx:404-435 | erasing in place, a request stays exactly when it has not expired and its window is not passed; every other is posted once, in order, because of data exactly when its window is passed; the expired whose window is not passed are counted as timed out and bad |
| RequestHandlerModel.Poppable | include/datahandlinglibs/models/detail/DefaultRequestHandlerModel.hxx:380-387 | the number popped: all of them below the watermark, and short of the fraction only at an element that is not |
| RequestHandlerModel.RequestHandler.PopOldElements | include/datahandlinglibs/models/detail/DefaultRequestHandlerModel.hxx:379-387 | the loop pops that number off the front, up to the whole buffer |
| RequestHandlerModel.RequestHandler.Cleanup | include/datahandlinglibs/models/detail/DefaultRequestHandlerModel.hxx:372-393 | above the limit the largest number of elements that is within the configured fraction and all older than what the recorder waits for is removed from the front, and none up to the limit; what is left in the registry, and the counters; and exactly when the front it dereferences is null |
| RequestHandlerModel.RequestHandler.CleanedUpIsLargest | include/datahandlinglibs/models/detail/DefaultRequestHandlerModel.hxx:377-387 | no larger number of elements is both within the fraction and older than the watermark |
| RequestHandlerModel.RequestHandler.WriteFrom | include/datahandlinglibs/models/detail/DefaultRequestHandlerModel.hxx:187-200 | from the found element on at most a thousand elements are written in order and the watermark moves behind the last |
| RequestHandlerModel.RequestHandler.RecordPass | include/datahandlinglibs/models/detail/DefaultRequestHandlerModel.hxx:164-203 | one pass writes the first thousand of the elements at or after the watermark, in order, or nothing when it lies before the front; and where the watermark moves |
| RequestLifecycle.PassKeepsTally | include/datahandlinglibs/models/detail/DefaultRequestHandlerModel.hxx:412-435 | a pass over the waiting list loses and duplicates no request |
| RequestLifecycle.PassLeaves | include/datahandlinglibs/models/detail/DefaultRequestHandlerModel.hxx:412-431 | a request stays on the waiting list exactly when it has not expired and the newest timestamp is not past its window |
| RequestLifecycle.PassPosts | include/datahandlinglibs/models/detail/DefaultRequestHandlerModel.hxx:412-431 | exactly the others are posted, as retries, because of data exactly when their window is passed |
| RequestLifecycle.PassTimesOut | include/datahandlinglibs/models/detail/DefaultRequestHandlerModel.hxx:417-431 | the timeouts a pass counts are the expired requests whose window is not passed |
| RequestLifecycle.RequestsAreConserved | include/datahandlinglibs/models/detail/DefaultRequestHandlerModel.hxx:228-279 | in every reachable state each issued request is in exactly one of pool, execution, waiting list and answers |
| RequestLifecycle.AtMostTwoExecutions | include/datahandlinglibs/models/detail/DefaultRequestHandlerModel.hxx:238-249 | data_request runs at most twice for a request, and twice only for a retry |
| RequestLifecycle.StatisticsAddUp | include/datahandlinglibs/models/detail/DefaultRequestHandlerModel.hxx:569-597 | found + delayed + bad = completed executions + timeouts |
| RequestLifecycle.CountersTellCodes | include/datahandlinglibs/models/detail/DefaultRequestHandlerModel.hxx:569-597 | over every run each counter is the number of executions that returned certain codes, and bad also counts the timeouts |
| RequestLifecycle.EarlyAnswersOnlyAfterTimeout | include/datahandlinglibs/models/detail/DefaultRequestHandlerModel.hxx:412-431 | with retries on, and whatever the searches find, an answer NotYet or Partial is one to a retry, and was given after the timeout if the window begins at most a tick after its end |
| RequestOutcomes.DataRetryIsDecisiveExactlyWhen | include/datahandlinglibs/models/detail/DefaultRequestHandlerModel.hxx:412-416 | for every window, whatever the searches find: some run answers a retry released by data NotYet or Partial if and only if the window begins more than a tick after its end |
| RequestOutcomes.WaitingStaysAfterStop | include/datahandlinglibs/models/detail/DefaultRequestHandlerModel.hxx:403-439 | once the run marker is cleared no run takes a request off the waiting list |
| RequestOutcomes.PoolCanFinish | include/datahandlinglibs/models/detail/DefaultRequestHandlerModel.hxx:228-279 | from every state the pool's own steps empty it, also after stop |
| RequestOutcomes.EveryRequestCanBeAnswered | include/datahandlinglibs/models/detail/DefaultRequestHandlerModel.hxx:228-439 | from every reachable running state steps of the pool and passes over the waiting list, without any new data, lead to one where every issued request is answered exactly once |
| RequestOutcomes.AnsweredOrLeftOver | include/datahandlinglibs/models/detail/DefaultRequestHandlerModel.hxx:126-140 | when the run is over each issued request is answered or left over, not both; what is left over ran once, with NotYet or Partial |
| RequestOutcomes.StopLeavesWaitingBehind | include/datahandlinglibs/models/detail/DefaultRequestHandlerModel.hxx:399-403 | from every stopped state the run can come to its end, with everything left over that waited at stop |
| RequestOutcomes.LeftOversExactlyWithRetries | include/datahandlinglibs/models/detail/DefaultRequestHandlerModel.hxx:399-403 | some run leaves a request over if and only if the request timeout is positive |
| RecordingProtocol.SearchFindsNext | include/datahandlinglibs/models/detail/DefaultRequestHandlerModel.hxx:179-179 | the recorder's search finds the next unwritten element, or nothing exactly for an empty sample or a front past the watermark |
| RecordingProtocol.GoodSeen | include/datahandlinglibs/models/IterableQueueModel.hpp:283-291 | what good() says when pops and pushes come between its two loads |
| RecordingProtocol.NextIsStoredIfGood | include/datahandlinglibs/models/IterableQueueModel.hpp:283-291 | even then it never takes the slot after the newest element for a stored one |
| RecordingProtocol.PopKeepsRecording | include/datahandlinglibs/models/detail/DefaultRequestHandlerModel.hxx:381-382 | popping below the watermark never takes an unwritten element, nor the ground from under the recorder's iterator |
| RecordingProtocol.IncrementKeepsRecording | include/datahandlinglibs/models/IterableQueueModel.hpp:267-272 | an increment, with both loads of its good() apart, goes to the next element or stays on the last, popped or not |
| RecordingProtocol.CheckKeepsRecording | include/datahandlinglibs/models/IterableQueueModel.hpp:273-276 | its second good() leaves the iterator there or moves it past the end, never to a reused slot |
| RecordingProtocol.StepKeepsInv | include/datahandlinglibs/models/detail/DefaultRequestHandlerModel.hxx:162-243 | every step of every thread keeps the invariants of ring, monitor, workers, cleanup and recorder |
| RecordingProtocol.FractionLeavesOne | include/datahandlinglibs/models/detail/DefaultRequestHandlerModel.hxx:377-377 | popping the configured fraction leaves an element exactly when the fraction is below one |
| RecordingTheorems.RecordingIsLossless | include/datahandlinglibs/models/detail/DefaultRequestHandlerModel.hxx:162-206 | for every interleaving the written elements are a gap-free, duplicate-free run of the pushed ones, and nothing from its start on is popped before it is written |
| RecordingTheorems.RecorderReadsNextOrLast | include/datahandlinglibs/models/detail/DefaultRequestHandlerModel.hxx:187-199 | what the recorder dereferences is the next element to write, which is live, or the one written last, live exactly when not popped and its slot not reused; only the next one is written |
| RecordingTheorems.MonitorIsSafe | include/datahandlinglibs/models/detail/DefaultRequestHandlerModel.hxx:215-243 | the counter equals the threads in the guarded region, at most one cleanup is active, requested exactly while there is one and waiting only above the limit, it works only while nobody is inside, and no null front is read |
| RecordingTheorems.CleanupTakesFraction | include/datahandlinglibs/models/detail/DefaultRequestHandlerModel.hxx:377-377 | in every reachable state a cleanup starts with the largest number of elements within the configured fraction of those stored |
| RecordingTheorems.IdleRecorderHoldsNothingBack | include/datahandlinglibs/models/detail/DefaultRequestHandlerModel.hxx:379-386 | in every reachable state without a recording a cleanup pops the next element |
| RecordingTheorems.CleanupPopsItsFraction | include/datahandlinglibs/models/detail/DefaultRequestHandlerModel.hxx:377-387 | in every run, from its start to its end a cleanup pops no more than its fraction of what was stored at its start, and less only when it met an element at or after the watermark |
| RecordingTheorems.PendingRunOnlyDrains | include/datahandlinglibs/models/detail/DefaultRequestHandlerModel.hxx:173-185 | along any run with a pending cleanup the set of running requests only shrinks, and the recorder does not get in |
| RecordingTheorems.PendingCleanupDrains | include/datahandlinglibs/models/detail/DefaultRequestHandlerModel.hxx:217-223 | in every reachable state with a waiting cleanup the threads inside can leave by their own steps, and then the cleanup can start |
| RecordingProgress.PendingCleanupCompletes | include/datahandlinglibs/models/detail/DefaultRequestHandlerModel.hxx:215-243 | and then to end: by the steps of the threads inside and its own alone, after which requests and the recorder can get in again |
| RecordingTheorems.RunningRequestsArePinned | include/datahandlinglibs/models/detail/DefaultRequestHandlerModel.hxx:232-243 | in every run, what was stored when a request was let in is live and unchanged in its slots until the request leaves |
| RecordingTheorems.RequestsSeeGrowingBuffer | include/datahandlinglibs/models/detail/DefaultRequestHandlerModel.hxx:232-243 | while a request runs, what is stored at one moment is a beginning of what is stored at any later one |
| RecordingTheorems.DataTriggeredRetryIsDecisive | include/datahandlinglibs/models/detail/DefaultRequestHandlerModel.hxx:412-416 | whatever is pushed and cleaned up before it runs and whatever its search finds, a retry whose window the data has passed is neither NotYet nor Partial, if the window begins at most a tick after its end |
| RecordingWitnesses.DecisiveExactlyWhen | include/datahandlinglibs/models/detail/DefaultRequestHandlerModel.hxx:412-416 | over all reachable states that holds for exactly those windows, and for windows no data can pass |
| RecordingTheorems.StalledStays | include/datahandlinglibs/models/detail/DefaultRequestHandlerModel.hxx:164-203 | with everything written popped and the front past the watermark, no step but the end of the recording changes that |
| RecordingWitnesses.StallIsReachableExactlyWhen | include/datahandlinglibs/models/detail/DefaultRequestHandlerModel.hxx:164-203 | for every configuration some run gets into that state if and only if the fewest elements a cleanup pops from are fewer than the slots and fit below the largest timestamp with one gap |
| RecordingTheorems.StallNeedsGap | include/datahandlinglibs/models/detail/DefaultRequestHandlerModel.hxx:164-203 | in such a state something was written, and a gap follows the last written element |
| RecordingTheorems.GapFreeNeverStalls | include/datahandlinglibs/models/detail/DefaultRequestHandlerModel.hxx:164-203 | a recording of elements without gaps never gets there |
| RecordingProgress.PassWritesWhatIsStored | include/datahandlinglibs/models/detail/DefaultRequestHandlerModel.hxx:162-203 | in every reachable state at the top of the loop that is not stalled and has no cleanup pending, the steps of the recorder alone lead to one where all that was stored and not written is written, in order, a thousand elements at most |
| RecordingProgress.RecordingGoesOnExactlyWhenNotStalled | include/datahandlinglibs/models/detail/DefaultRequestHandlerModel.hxx:162-203 | there, with something unwritten stored, some run writes more before the recording is stopped if and only if it is not stalled |
| RecordingWitnesses.PoppedElementIsDereferencedExactlyWhen | include/datahandlinglibs/models/detail/DefaultRequestHandlerModel.hxx:187-199 | for every configuration some run makes the recorder dereference an element that is no longer stored if and only if a cleanup of a full buffer can pop and as many elements as slots fit below the largest timestamp |
| RecordingWitnesses.NullFrontExactlyWhenWholeIsPopped | include/datahandlinglibs/models/detail/DefaultRequestHandlerModel.hxx:377-390 | for every configuration some run reads a null front if and only if the fraction to pop is the whole and the buffer can exceed the limit |
| ZeroCopyRecorder.ChunkNeverOvertakes | include/datahandlinglibs/models/detail/ZeroCopyRecordingRequestHandlerModel.hxx:153-179 | a turn stays behind the newest element around the wrap, writes nothing exactly when that is within a chunk ahead, and otherwise a whole chunk or what is left before the end of the buffer |
| ZeroCopyRecorder.TimestampIsOfSlot | include/datahandlinglibs/models/detail/ZeroCopyRecordingRequestHandlerModel.hxx:190-196 | the element whose timestamp becomes the watermark is the one in whose slot the pointer is |
| ZeroCopyRecorder.Recorder.Turn | include/datahandlinglibs/models/detail/ZeroCopyRecordingRequestHandlerModel.hxx:147-196 | writes the bytes the pointer moves over, never leaves the pointer at the end of the buffer, and takes the watermark from the element under it |
| ZeroCopyRecorder.Recorder.Turns | include/datahandlinglibs/models/detail/ZeroCopyRecordingRequestHandlerModel.hxx:143-197 | a hundred turns continue the file exactly where it stopped on the circular buffer, and either catch up to within a chunk or write at least 99 chunks |
| ZeroCopyRecorder.Recorder.Complete | include/datahandlinglibs/models/detail/ZeroCopyRecordingRequestHandlerModel.hxx:202-221 | the last write is the shortest that ends at an element boundary, inside the buffer |
| ZeroCopyProtocol.BacklogIsAhead | include/datahandlinglibs/models/detail/ZeroCopyRecordingRequestHandlerModel.hxx:153-162 | the two pointers compared by the code measure the unwritten bytes of the FIFO, wrapped or not |
| ZeroCopyProtocol.PopStaysBehindMark | include/datahandlinglibs/models/detail/DefaultRequestHandlerModel.hxx:381-386 | the watermark keeps the cleanup behind the element it was taken from |
| ZeroCopyProtocol.StepKeepsInv | include/datahandlinglibs/models/detail/ZeroCopyRecordingRequestHandlerModel.hxx:94-223 | every step of producer, cleanup and recorder keeps the invariant |
| ZeroCopyProtocol.FileIsRunOfElements | include/datahandlinglibs/models/detail/ZeroCopyRecordingRequestHandlerModel.hxx:146-197 | at every moment the file is whole consecutive elements and a beginning of the next, with no byte skipped or repeated at a wrap |
| ZeroCopyProtocol.RecordingIsWholeElements | include/datahandlinglibs/models/detail/ZeroCopyRecordingRequestHandlerModel.hxx:202-221 | a finished file is a concatenation of whole consecutive elements |
| ZeroCopyProtocol.PointerStaysOnLiveElement | include/datahandlinglibs/models/detail/ZeroCopyRecordingRequestHandlerModel.hxx:190-196 | the element under the pointer is live, the newest is not passed, and everything before the pointer is in the file |
| ZeroCopyProtocol.WatermarkFollowsPointer | include/datahandlinglibs/models/detail/ZeroCopyRecordingRequestHandlerModel.hxx:190-196 | between two turns, once anything is written, the watermark is the timestamp of the element under the pointer, and the cleanup can pop exactly when an element before it is stored |
| ZeroCopyProtocol.IdleRecorderHoldsNothingBack | include/datahandlinglibs/models/detail/ZeroCopyRecordingRequestHandlerModel.hxx:223-230 | before and after a recording the watermark is the one that holds nothing back |
| ZeroCopyProtocol.CopiesOnlyLiveElements | include/datahandlinglibs/models/detail/ZeroCopyRecordingRequestHandlerModel.hxx:153-178 | each byte copied is one of an element that is live at that moment |
| ZeroCopyAlignment.AlignmentFailsExactlyWhenNoneIsAligned | include/datahandlinglibs/models/detail/ZeroCopyRecordingRequestHandlerModel.hxx:126-138 | left alone, the search for an aligned element fails exactly when no stored element is aligned, and else ends on one |
| ZeroCopyAlignment.BeginsAtFirstAligned | include/datahandlinglibs/models/detail/ZeroCopyRecordingRequestHandlerModel.hxx:126-138 | in every reachable state in which the search stops it stops at the first aligned one of the elements stored when the recording began, and the pointer is put at its first byte |
| ZeroCopyAlignment.StuckForEver | include/datahandlinglibs/models/detail/ZeroCopyRecordingRequestHandlerModel.hxx:128-138 | a failed search never ends: nothing is written, the watermark stays 0, nothing is popped any more and the ring fills up |
| ZeroCopyAlignment.StuckIsReachableExactlyWhenMisaligned | include/datahandlinglibs/models/detail/ZeroCopyRecordingRequestHandlerModel.hxx:128-138 | some run gets stuck if and only if some slot is not aligned |
| ZeroCopyAlignment.PastTheEndIsMisaligned | include/datahandlinglibs/models/detail/ZeroCopyRecordingRequestHandlerModel.hxx:128-128 | the address the stuck loop looks at is not aligned either |
| ZeroCopyProtocol.IdleExactlyWhenCaughtUp | include/datahandlinglibs/models/detail/ZeroCopyRecordingRequestHandlerModel.hxx:153-179 | a turn writes nothing exactly when at most a chunk lies ahead without a wrap |
| PostProcessing.WindowIsBetweenBounds | include/datahandlinglibs/models/detail/DataHandlingModel.hxx:287-291 | between the two lower bounds lie exactly the elements of the half-open window |
| PostProcessing.PostProcessor.Pass | include/datahandlinglibs/models/detail/DataHandlingModel.hxx:274-297 | the stored elements not older than the watermark are processed exactly when they are more than the delay older than the newest, and the watermark moves to the delay behind the newest if that is past it |
| PostProcessing.AfterPassLags | include/datahandlinglibs/models/detail/DataHandlingModel.hxx:285-291 | the same of the effect of a pass, on every buffer |
| PostProcessingRuns.PassAddsWindow | include/datahandlinglibs/models/detail/DataHandlingModel.hxx:278-297 | a pass adds the stored elements between the old and the new watermark, and nothing twice |
| PostProcessingRuns.PassesPartition | include/datahandlinglibs/models/detail/DataHandlingModel.hxx:268-297 | over any run each tick from the first window's start to the watermark is in the window of exactly one pass, and what was processed is what the passes processed one after the other, each within its window |
| PostProcessingRuns.PassesRespectDelay | include/datahandlinglibs/models/detail/DataHandlingModel.hxx:285-291 | over any run each pass processed exactly what was stored then, not older than its start and more than the delay older than the newest, and ended the delay behind the newest unless that is not past its start |
| PostProcessingRuns.ProcessedOnlyAfterDelay | include/datahandlinglibs/models/detail/DataHandlingModel.hxx:285-291 | over any run nothing was processed by a pass that did not find an element more than the delay later stored |
| PostProcessingRuns.ProcessedOnceInOrder | include/datahandlinglibs/models/detail/DataHandlingModel.hxx:268-297 | over any run the processed elements are strictly ordered and lie between the first window's start and the watermark |
| PostProcessingRuns.OnTimeIsProcessedExactlyWhenPassed | include/datahandlinglibs/models/detail/DataHandlingModel.hxx:268-297 | an element that arrived at or above the watermark and was not removed before its turn is processed exactly when the watermark has passed it |
| PostProcessingRuns.OnlyLateArrivalsStayBehind | include/datahandlinglibs/models/detail/DataHandlingModel.hxx:268-297 | an unprocessed element behind the watermark arrived late |
| PostProcessingRuns.WatermarkNeverAheadOfNewest | include/datahandlinglibs/models/detail/DataHandlingModel.hxx:285-286 | the unsigned differences of a pass never wrap while the newest element is never removed |
| SkipListCleanup.SkipListRequestHandler.RemoveOld | include/datahandlinglibs/models/detail/DefaultSkipListRequestHandler.hxx:25-36 | the loop leaves exactly the recent elements, counts the removed ones, and always finds a head to look at |
| SkipListCleanup.SkipListRequestHandler.Cleanup | include/datahandlinglibs/models/detail/DefaultSkipListRequestHandler.hxx:8-44 | for an empty, a short and a long buffer: nothing is removed unless the newest is more than the limit later than the oldest, and otherwise exactly those at least the limit older than the newest, which are the first; and the counters |
| SkipListCleanup.CleanupKeepsExactlyRecent | include/datahandlinglibs/models/detail/DefaultSkipListRequestHandler.hxx:23-38 | an element stays exactly when the span is within the limit or it is less than the limit older than the newest |
| SkipListCleanup.CleanupRemovesOldestOnly | include/datahandlinglibs/models/detail/DefaultSkipListRequestHandler.hxx:23-38 | a proper beginning of the list is removed, exactly when the newest is more than the limit later than the oldest; afterwards it is not, and a second cleanup changes nothing |
| RateLimiterModel.RateLimiter.Limit | include/datahandlinglibs/utils/RateLimiter.hpp:73-95 | a call returns with the first reading at or past the deadline, and where the deadline moves to |
| RateLimiterModel.DeadlinesAdvance | include/datahandlinglibs/utils/RateLimiter.hpp:76-94 | deadlines advance by at least the periods of the calls |
| RateLimiterModel.DeadlineFollowsClock | include/datahandlinglibs/utils/RateLimiter.hpp:76-94 | the deadline is at most a period after the return and at least a period less 10 ms after the entry |
| RateLimiterModel.RateBound | include/datahandlinglibs/utils/RateLimiter.hpp:50-95 | from the entry of call k to the return of call k + n at least the sum of the n periods less 10 ms goes by |
| RateLimiterModel.RateBoundIsAttained | include/datahandlinglibs/utils/RateLimiter.hpp:76-94 | a run that attains the bound, for every period of 10 ms or more |
| RateLimiterModel.PunctualCallersAreExact | include/datahandlinglibs/utils/RateLimiter.hpp:78-94 | for callers never more than 10 ms late the deadlines are exactly the periods apart |
| ErrorBitGeneratorModel.ErrorBitGenerator.Next | include/datahandlinglibs/utils/ErrorBitGenerator.hpp:37-55 | the n-th call returns the word of the stretch that call n falls in, for all tables; indices stay in range |
| ErrorBitGeneratorModel.OutputIsWordOfStretch | include/datahandlinglibs/utils/ErrorBitGenerator.hpp:39-54 | stretches that give no error word alternate with stretches in which every call gives the same entry of the words, the next one each time, or none when the entry of the length table is zero |
| ErrorBitGeneratorModel.StretchLastsItsEntry | include/datahandlinglibs/utils/ErrorBitGenerator.hpp:39-52 | the stretches follow each other from the first call on, each as long as the entry of its table, or one call |
| ErrorBitGeneratorModel.StretchIsUnique | include/datahandlinglibs/utils/ErrorBitGenerator.hpp:39-52 | each call is in one stretch only |
| ErrorBitGeneratorModel.OutputsRepeat | include/datahandlinglibs/utils/ErrorBitGenerator.hpp:41-47 | the outputs are periodic, with the total length of a thousand stretches of each kind |

## Assumptions

- Timestamps are natural numbers below 2^64; `operator<` on elements is the order of timestamps. In the
  ordered set, elements with equal timestamps differ in rank, and the key searched for, default-constructed
  apart from its timestamp, has the smallest rank: the lower bound is the first element at or after it.
  Unsigned 64-bit subtraction and the 32-bit index arithmetic wrap as in the code; sums of a timestamp
  and a few elements' ticks are taken to stay below 2^64.
- Ring sizes are between 2 and 2^31 - 1, since the occupancy is computed in signed 32-bit integers.
- Atomics are sequentially consistent, with one producer and one consumer. One cleanup iteration,
  looking at the front and popping it, is one step, and so is a push where the recorder is concerned.
- The elements of one buffer have the same number of frames, a whole number of ticks apart, and arrive
  at least the ticks of one element apart where the windows, the registry or the recorder are concerned.
- `FixedRateQueueModel::lower_bound` is called on a non-empty buffer only, as its callers do.
- A gap is registered as MISSING_FRAMES, with an interval that ends at the element after it, when that
  element is preprocessed. The processors that do so are not part of this model.
- Zero-copy recording: writes are complete, an element's payload fills its slot, timestamps are positive
  and strictly increase, and one recording is made per open file.
- The buffer of the deferred post-processing is an ordered set from which the newest element is not
  removed, which `SkipListCleanup.CleanupRemovesOldestOnly` shows of its cleanup.
- The rate limiter's clock is monotone and reaches every deadline; a call's period is the one value it
  loads. The percentage to pop is a rational number.

## Left out

- Weak memory ordering, NUMA placement, alignment of allocations and page-fault threads: only indices, slot lifetimes and which slots are aligned are modelled.
- Files and streams: a file is the sequence of what was written to it; a failed or short write is not modelled.
- Folly's skip list: an ordered set with first, last, insert, remove and lower bound; a removal by another thread during the cleanup is not modelled.
- The classes run one method at a time. The interleavings are modelled on values, as state machines, where the update in place of fields by several threads is a step on the state.
- Inside the monitor, where nothing is popped, the reads of the recorder's search are one step after its two index loads; for zero-copy recording each look at the ring's indices is one step.
- A push during a recording is one step; that its own loads and stores refine one is `LockFreeRing.RingRefinesBoundedFifo`.
- The views of `RequestWhilePushing.dfy` are values; that a running request sees such views is `RecordingTheorems.RequestsSeeGrowingBuffer`.
- A stuck zero-copy recording is taken to stay in its inner loop, that is, the address of the past-the-end index is not aligned; `ZeroCopyAlignment.PastTheEndIsMisaligned` shows it for memory that starts aligned and alignments that divide 2^32.
- Configuration, start and stop apart from the run marker, the thread pool's scheduling, senders and receivers, logging, monitoring resets of the counters and time synchronisation: posting a request or sending a fragment is an append.
- Element pointers of a fragment are modelled by the frames they point at; their lifetime is what `RecordingTheorems.RunningRequestsArePinned` states.
- The nanosleep of the rate limiter is a second clock reading of any size; rates in kilohertz are given as periods.
- Random generation of the error tables, and the source emulator that reads them.
- `scrap`, `buffer_copy`, `dump_to_buffer`, the callback consumer and the small models around the core: none of the properties above depends on them.
