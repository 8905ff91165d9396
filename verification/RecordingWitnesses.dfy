/** Runs into the states where the shared buffer does less than one would expect, and exactly when
    there are such runs. */
module RecordingWitnesses {
  import opened Arithmetic
  import opened Elements
  import opened IterableQueueModel
  import opened RecordingProtocol
  import opened RecordingRuns
  import opened RecordingTheorems
  import opened RequestWindow

  // A data-triggered retry that is not decisive

  /** The condition on the window is exact: if it begins more than a tick after its end, an element just
      past the end releases the retry and the answer is "not yet" all the same. */
  lemma DecisiveExactlyWhen(begin: nat, end: nat, cfg: Config)
    requires LeavesOne(cfg)
    ensures (forall s | Reachable(s, cfg) && Occupancy(s.ring) >= 1 && end < Newest(s.ring) ::
               Decided(s, begin, end))
       <==> begin <= end + 1 || end + 1 + cfg.span >= MAX_TS
  {
    if begin <= end + 1 {
      forall s | Reachable(s, cfg) && Occupancy(s.ring) >= 1 && end < Newest(s.ring)
        ensures Decided(s, begin, end)
      {
        ReachableInv(s, cfg);
        assert Runs(s, [], s, cfg);
        forall found | s.ring.read < |s.ring.log|
          ensures var code := Answered(s, found, begin, end); code != NotYet && code != Partial
        {
          DataTriggeredRetryIsDecisive(s, [], s, begin, end, s.ring.log[s.ring.read].timestamp, found, cfg);
        }
      }
    } else if end + 1 + cfg.span < MAX_TS {
      var s := ReachInit(cfg);
      s := ReachNext(s, Push(Element(end + 1, [])), cfg);
      assert Answered(s, false, begin, end) == NotYet;
    } else {
      forall s | Reachable(s, cfg) && Occupancy(s.ring) >= 1 && end < Newest(s.ring)
        ensures Decided(s, begin, end)
      {
        ReachableInv(s, cfg);
      }
    }
  }

  /** The answer on the buffer of this moment, for what the search finds. */
  ghost function Answered(s: State, found: bool, begin: nat, end: nat): ResultCode
    requires 0 <= s.ring.read < |s.ring.log|
  {
    ClassifyFound(s.ring.log[s.ring.read].timestamp, Newest(s.ring), found, begin, end)
  }

  /** Whatever the search finds, the answer is neither "not yet" nor "partial". */
  ghost predicate Decided(s: State, begin: nat, end: nat) {
    0 <= s.ring.read < |s.ring.log| ==>
      forall found :: Answered(s, found, begin, end) != NotYet && Answered(s, found, begin, end) != Partial
  }

  // Where a cleanup pops at all

  /** A cleanup that starts on `n` elements pops at least one of them, if they are written. */
  predicate Pops(n: nat, cfg: Config) {
    n > cfg.popLimit && cfg.popNum * n >= cfg.popDen
  }

  lemma PopsMore(m: nat, n: nat, cfg: Config)
    requires Pops(m, cfg) && m <= n
    ensures Pops(n, cfg)
  {
    MulMonotone(m, n, cfg.popNum);
  }

  lemma SomeToPop(ring: Ring, cfg: Config)
    requires cfg.Valid() && Occupancy(ring) >= 0
    ensures ToPop(ring, cfg) > 0 <==> cfg.popNum * Occupancy(ring) >= cfg.popDen
  {
    FractionIsLargest(Occupancy(ring), cfg.popNum, cfg.popDen, 1);
  }

  /** Something was popped, or a cleanup is going to. */
  ghost predicate PopsSome(s: State) {
    s.ring.read > 0 || exists c :: c in s.monitor.cleaners && s.monitor.cleaners[c].PoppingFront?
                                   && s.monitor.cleaners[c].left > 0
  }

  /** Then so many elements were stored that it could. */
  ghost predicate PopInv(s: State, cfg: Config) {
    PopsSome(s) ==> cfg.size >= 1 && Pops(|s.ring.log|, cfg) && Pops(cfg.size - 1, cfg)
  }

  lemma StartKeepsPopInv(s: State, c: nat, cfg: Config)
    requires LeavesOne(cfg) && Inv(s, cfg) && PopInv(s, cfg) && Enabled(s, StartPopping(c), cfg)
    ensures PopInv(Apply(s, StartPopping(c), cfg), cfg)
  {
    OnlyCleaner(s.monitor, c);
    SomeToPop(s.ring, cfg);
    if Pops(Occupancy(s.ring), cfg) {
      PopsMore(Occupancy(s.ring), |s.ring.log|, cfg);
      PopsMore(Occupancy(s.ring), cfg.size - 1, cfg);
    }
  }

  lemma PushKeepsPopInv(s: State, e: Element, cfg: Config)
    requires LeavesOne(cfg) && Inv(s, cfg) && PopInv(s, cfg) && Enabled(s, Push(e), cfg)
    ensures PopInv(Apply(s, Push(e), cfg), cfg)
  {
    PushKeepsRing(s.ring, e, cfg);
    if PopsSome(s) {
      PopsMore(|s.ring.log|, |s.ring.log| + 1, cfg);
    }
  }

  lemma StepKeepsPopInv(s: State, a: Action, cfg: Config)
    requires LeavesOne(cfg) && Inv(s, cfg) && PopInv(s, cfg) && Enabled(s, a, cfg)
    ensures PopInv(Apply(s, a, cfg), cfg)
  {
    if a.Push? {
      PushKeepsPopInv(s, a.e, cfg);
    } else if a.StartPopping? {
      StartKeepsPopInv(s, a.c, cfg);
    }
  }

  lemma {:induction false} RunKeepsPopInv(s: State, actions: seq<Action>, t: State, cfg: Config)
    requires LeavesOne(cfg) && Inv(s, cfg) && PopInv(s, cfg) && Runs(s, actions, t, cfg)
    ensures PopInv(t, cfg)
    decreases |actions|
  {
    if actions != [] {
      StepKeepsInv(s, actions[0], cfg);
      StepKeepsPopInv(s, actions[0], cfg);
      RunKeepsPopInv(Apply(s, actions[0], cfg), actions[1..], t, cfg);
    }
  }

  lemma ReachablePopInv(s: State, cfg: Config)
    requires LeavesOne(cfg) && Reachable(s, cfg)
    ensures Inv(s, cfg) && PopInv(s, cfg)
  {
    ReachableInv(s, cfg);
    var actions :| Runs(Init(cfg), actions, s, cfg);
    RunKeepsPopInv(Init(cfg), actions, s, cfg);
  }

  // A recording that stalls

  /** The fewest elements on which a cleanup pops one. */
  function Fewest(cfg: Config): nat
    requires cfg.popNum >= 1
  {
    var least := DivideUp(cfg.popDen, cfg.popNum);
    if least > cfg.popLimit then least else cfg.popLimit + 1
  }

  lemma FewestIsLeast(n: nat, cfg: Config)
    requires cfg.popNum >= 1
    ensures Pops(n, cfg) <==> n >= Fewest(cfg)
  {
    DivideUpReaches(cfg.popDen, cfg.popNum, n);
  }

  /** There is room for as many elements and one gap, in the ring and below the largest timestamp. */
  predicate CanStall(cfg: Config) {
    cfg.popNum >= 1 && Fewest(cfg) < cfg.size && Fewest(cfg) * cfg.span + 1 < MAX_TS
  }

  /** One element is written, and the next one comes after a gap. */
  lemma RunMeetsGap(n: nat, cfg: Config) returns (s: State)
    requires LeavesOne(cfg) && 2 <= n < cfg.size && n * cfg.span + 1 < MAX_TS
    ensures Holds(s, Steps(n, cfg.span, 1), 0,
                  Recording(Scanning(END_INDEX, 1), cfg.span, 0, [Stamped(0, cfg.span, 1)]), QUIET, cfg)
  {
    var one := Steps(1, cfg.span, 1);
    MulMonotone(1, n, cfg.span);
    s := RunInit(cfg);
    assert Steps(0, cfg.span, 1) == [];
    s := RunPushes(s, 0, 1, 1, IDLE, cfg);
    s := RunBegins(s, one, cfg);
    s := RunSearches(s, one, cfg);
    s := RunWrites(s, one, 0, 0, Recording(Scanning(0, 0), 0, 0, []), cfg);
    s := RunIncrements(s, one, 0, 1, Recording(Incrementing(0, 1), cfg.span, 0, [one[0]]), cfg);
    s := RunPushes(s, 1, n, 1, Recording(Scanning(END_INDEX, 1), cfg.span, 0, [one[0]]), cfg);
  }

  /** The cleanup pops the written element: from then on the search key lies before the front, and the
      search answers nothing. */
  lemma StallIsReachable(cfg: Config) returns (s: State)
    requires LeavesOne(cfg) && CanStall(cfg)
    ensures Reachable(s, cfg) && Stalled(s)
  {
    var n := Fewest(cfg);
    var log, rec := Steps(n, cfg.span, 1), Recording(Scanning(END_INDEX, 1), cfg.span, 0, [Stamped(0, cfg.span, 1)]);
    FewestIsLeast(n, cfg);
    PopsTakesTwo(n, cfg);
    s := RunMeetsGap(n, cfg);
    SomeToPop(s.ring, cfg);
    var left := ToPop(s.ring, cfg);
    s := RunStartsCleanup(s, log, 0, rec, cfg);
    s := RunPops(s, log, 0, rec, left, cfg);
    assert log[1] == Stamped(1, cfg.span, 1);
  }

  lemma PopsTakesTwo(n: nat, cfg: Config)
    requires LeavesOne(cfg) && Pops(n, cfg)
    ensures n >= 2
  {
    assert cfg.popNum * 1 == cfg.popNum;
  }

  /** Behind a gap spaced timestamps are ahead of their positions. */
  lemma {:induction false} SpacedGrowsBehind(log: seq<Element>, span: nat, p: nat, i: nat)
    requires Spaced(log, span) && 1 <= p <= i < |log| && log[p].timestamp > log[p - 1].timestamp + span
    ensures log[i].timestamp >= i * span + 1
    decreases i
  {
    MulSuccessor(i - 1, span);
    if i > p {
      SpacedGrowsBehind(log, span, p, i - 1);
      assert log[i - 1].timestamp + span <= log[i].timestamp;
    } else {
      SpacedGrows(log, span, p - 1);
    }
  }

  lemma StallTakesRoom(s: State, cfg: Config)
    requires LeavesOne(cfg) && Reachable(s, cfg) && Stalled(s)
    ensures CanStall(cfg)
  {
    var log, next := s.ring.log, s.recording.Next();
    StallNeedsGap(s, cfg);
    ReachablePopInv(s, cfg);
    PopsSomePositive(cfg);
    FewestIsLeast(|log|, cfg);
    FewestIsLeast(cfg.size - 1, cfg);
    SpacedGrowsBehind(log, cfg.span, next, |log| - 1);
    MulSuccessor(|log| - 1, cfg.span);
    MulMonotone(Fewest(cfg), |log|, cfg.span);
  }

  lemma PopsSomePositive(cfg: Config)
    requires cfg.Valid() && Pops(cfg.size - 1, cfg)
    ensures cfg.popNum >= 1
  {
    assert 0 * (cfg.size - 1) == 0;
  }

  /** Some run stalls the recording exactly when a cleanup can pop at all and there is room for a gap. */
  lemma StallIsReachableExactlyWhen(cfg: Config)
    requires LeavesOne(cfg)
    ensures (exists s :: Reachable(s, cfg) && Stalled(s)) <==> CanStall(cfg)
  {
    if CanStall(cfg) {
      var s := StallIsReachable(cfg);
    } else {
      forall s | Reachable(s, cfg) ensures !Stalled(s) {
        if Stalled(s) {
          StallTakesRoom(s, cfg);
        }
      }
    }
  }

  // A recorder that dereferences a popped element

  /** The recorder is about to dereference an element that is no longer stored; by
      RecorderReadsNextOrLast that is the one it wrote last. */
  ghost predicate DereferencesPopped(s: State) {
    s.recording.pc.Dereferencing? && !GoodIndex(s.recording.pc.index, s.ring.readIndex, s.ring.writeIndex)
  }

  /** A cleanup can pop at all, and as many elements as there are slots fit below the largest
      timestamp. */
  predicate CanComeAround(cfg: Config) {
    cfg.size >= 1 && Pops(cfg.size - 1, cfg) && cfg.size * cfg.span < MAX_TS
  }

  /** The usable slots are full, and a recording has begun. */
  lemma RingIsFull(cfg: Config) returns (s: State)
    requires cfg.Valid() && cfg.size >= 3 && cfg.size * cfg.span < MAX_TS
    ensures Holds(s, Steps(cfg.size - 1, cfg.span, 0), 0, Recording(Scanning(0, 0), 0, 0, []), QUIET, cfg)
  {
    var n, log := cfg.size - 1, Steps(cfg.size - 1, cfg.span, 0);
    MulSuccessor(n, cfg.span);
    s := RunInit(cfg);
    assert Steps(0, cfg.span, 0) == [];
    s := RunPushes(s, 0, n, 0, IDLE, cfg);
    s := RunBegins(s, log, cfg);
    s := RunSearches(s, log, cfg);
  }

  lemma OneIsWritten(cfg: Config) returns (s: State)
    requires cfg.Valid() && cfg.size >= 3 && cfg.size * cfg.span < MAX_TS
    ensures var log := Steps(cfg.size - 1, cfg.span, 0);
            Holds(s, log, 0, Recording(Scanning(1, 1), cfg.span, 0, [log[0]]), QUIET, cfg)
  {
    var log := Steps(cfg.size - 1, cfg.span, 0);
    s := RingIsFull(cfg);
    s := RunWrites(s, log, 0, 0, Recording(Scanning(0, 0), 0, 0, []), cfg);
    s := RunIncrements(s, log, 0, 1, Recording(Incrementing(0, 1), cfg.span, 0, [log[0]]), cfg);
  }

  /** Two elements are written, and the recorder is about to increment. */
  lemma TwoAreWritten(cfg: Config) returns (s: State)
    requires cfg.Valid() && cfg.size >= 3 && cfg.size * cfg.span < MAX_TS
    ensures var log := Steps(cfg.size - 1, cfg.span, 0);
            Holds(s, log, 0, Recording(Incrementing(1, 2), 2 * cfg.span, 0, [log[0], log[1]]), QUIET, cfg)
  {
    var log := Steps(cfg.size - 1, cfg.span, 0);
    s := OneIsWritten(cfg);
    assert log[1].timestamp == cfg.span && [log[0]] + [log[1]] == [log[0], log[1]];
    s := RunWrites(s, log, 1, 1, Recording(Scanning(1, 1), cfg.span, 0, [log[0]]), cfg);
  }

  /** The read index is loaded, then a cleanup starts and pops the oldest element. */
  lemma OldestIsPopped(cfg: Config) returns (s: State, left: nat)
    requires LeavesOne(cfg) && CanComeAround(cfg)
    ensures cfg.size >= 3
    ensures var log := Steps(cfg.size - 1, cfg.span, 0);
            Holds(s, log, 1, Recording(IncrementingFrom(1, 2, 0), 2 * cfg.span, 0, [log[0], log[1]]),
                  Popping(left), cfg)
  {
    PopsTakesTwo(cfg.size - 1, cfg);
    var log := Steps(cfg.size - 1, cfg.span, 0);
    var written := [log[0], log[1]];
    var rec := Recording(IncrementingFrom(1, 2, 0), 2 * cfg.span, 0, written);
    s := TwoAreWritten(cfg);
    s := RunRecorder(s, log, 0, Recording(Incrementing(1, 2), 2 * cfg.span, 0, written), QUIET, SampleRead, cfg);
    SomeToPop(s.ring, cfg);
    left := ToPop(s.ring, cfg);
    s := RunStartsCleanup(s, log, 0, rec, cfg);
    s := RunPops(s, log, 0, rec, left, cfg);
    left := left - 1;
  }

  /** The write index comes around to the loaded read index. */
  lemma WriteComesAround(cfg: Config) returns (s: State, left: nat)
    requires LeavesOne(cfg) && CanComeAround(cfg)
    ensures cfg.size >= 3
    ensures var log := Steps(cfg.size, cfg.span, 0);
            Holds(s, log, 1, Recording(IncrementingFrom(1, 2, 0), 2 * cfg.span, 0, [log[0], log[1]]),
                  Popping(left), cfg)
  {
    s, left := OldestIsPopped(cfg);
    var n, log := cfg.size - 1, Steps(cfg.size - 1, cfg.span, 0);
    MulSuccessor(n, cfg.span);
    MulSuccessor(n - 1, cfg.span);
    s := RunPush(s, log, 1, Recording(IncrementingFrom(1, 2, 0), 2 * cfg.span, 0, [log[0], log[1]]), Popping(left),
                 Stamped(n, cfg.span, 0), cfg);
    assert log + [Stamped(n, cfg.span, 0)] == Steps(cfg.size, cfg.span, 0);
  }

  /** So the iterator does not move; but the element it is on is stored, and the loop goes on with it. */
  lemma IteratorStays(s: State, log: seq<Element>, rec: Recording, m: Monitor, cfg: Config) returns (t: State)
    requires cfg.size >= 3 && |log| == cfg.size && rec.pc == IncrementingFrom(1, 2, 0)
    requires Holds(s, log, 1, rec, m, cfg)
    ensures Holds(t, log, 1, rec.(pc := Dereferencing(1, 2)), m, cfg)
  {
    t := RunRecorder(s, log, 1, rec, m, IncrementIndex, cfg);
    t := RunRecorder(t, log, 1, rec.(pc := Incremented(1, 2)), m, SampleRead, cfg);
    t := RunRecorder(t, log, 1, rec.(pc := IncrementedFrom(1, 2, 1)), m, CheckIncremented, cfg);
    t := RunRecorder(t, log, 1, rec.(pc := Scanning(1, 2)), m, SampleRead, cfg);
    t := RunRecorder(t, log, 1, rec.(pc := ScanningFrom(1, 2, 1)), m, CheckGood, cfg);
  }

  /** A second cleanup, if the first has nothing more to pop. */
  lemma RunHasToPop(s: State, log: seq<Element>, rec: Recording, left: nat, cfg: Config) returns (t: State, more: nat)
    requires LeavesOne(cfg) && CanComeAround(cfg) && |log| == cfg.size >= 3
    requires Holds(s, log, 1, rec, Popping(left), cfg) && !rec.InsideMonitor()
    ensures more > 0 && Holds(t, log, 1, rec, Popping(more), cfg)
  {
    t, more := s, left;
    if left == 0 {
      t := RunEndsCleanup(t, log, 1, rec, cfg);
      SomeToPop(t.ring, cfg);
      more := ToPop(t.ring, cfg);
      t := RunStartsCleanup(t, log, 1, rec, cfg);
    }
  }

  /** And the cleanup pops it before the recorder looks at it again. */
  lemma PoppedElementIsDereferenced(cfg: Config) returns (s: State)
    requires LeavesOne(cfg) && CanComeAround(cfg)
    ensures Reachable(s, cfg) && DereferencesPopped(s)
  {
    var left;
    s, left := WriteComesAround(cfg);
    var log := Steps(cfg.size, cfg.span, 0);
    var rec := Recording(IncrementingFrom(1, 2, 0), 2 * cfg.span, 0, [log[0], log[1]]);
    s := IteratorStays(s, log, rec, Popping(left), cfg);
    rec := rec.(pc := Dereferencing(1, 2));
    s, left := RunHasToPop(s, log, rec, left, cfg);
    assert log[1] == Stamped(1, cfg.span, 0);
    s := RunPops(s, log, 1, rec, left, cfg);
  }

  /** As long as fewer elements were pushed than there are slots, the indices do not wrap, and neither do
      the comparisons of good(). */
  ghost predicate Unwrapped(ring: Ring, size: nat) {
    ring.readIndex == ring.read && ring.writeIndex == |ring.log| < size == |ring.slots|
  }

  /** Then the iterator is on the next element to write whenever the loop looks at it. */
  ghost predicate OnNextWhenLooked(ring: Ring, rec: Recording) {
    match rec.pc
    case Searched(index) => index == END_INDEX || index == rec.Next()
    case Scanning(index, _) => index == END_INDEX || index == rec.Next()
    case ScanningFrom(index, _, _) => index == rec.Next()
    case Dereferencing(index, _) => index == rec.Next()
    case Bumping(index, _, _) => index + 1 == rec.Next()
    case Incrementing(index, _) => index + 1 == rec.Next()
    case IncrementingFrom(index, _, r) => index + 1 == rec.Next() && r <= ring.read
    case Incremented(index, _) => index == rec.Next() || (index + 1 == rec.Next() && ring.read == rec.Next())
    case IncrementedFrom(index, _, r) =>
      index == rec.Next() || (index + 1 == rec.Next() && ring.read == rec.Next() == r)
    case _ => true
  }

  ghost predicate LapInv(s: State, cfg: Config) {
    |s.ring.log| < cfg.size ==> Unwrapped(s.ring, cfg.size) && OnNextWhenLooked(s.ring, s.recording)
  }

  lemma SearchKeepsOnNext(ring: Ring, rec: Recording, cfg: Config)
    requires cfg.Valid() && RingInv(ring, cfg) && LogInv(ring.log, cfg) && RecordingInv(ring, rec, cfg)
    requires RecorderEnabled(ring, rec, Search) && Unwrapped(ring, cfg.size)
    ensures OnNextWhenLooked(ring, ApplyRecorder(ring, false, rec, Search, cfg))
  {
    SearchFindsNext(ring, rec, cfg);
  }

  lemma WriteKeepsOnNext(ring: Ring, rec: Recording, cfg: Config)
    requires cfg.Valid() && RingInv(ring, cfg) && LogInv(ring.log, cfg) && RecordingInv(ring, rec, cfg)
    requires RecorderEnabled(ring, rec, WriteElement) && Unwrapped(ring, cfg.size) && OnNextWhenLooked(ring, rec)
    ensures OnNextWhenLooked(ring, ApplyRecorder(ring, false, rec, WriteElement, cfg))
  {
    DereferencedElement(ring, rec, cfg);
  }

  lemma RecorderKeepsLapInv(ring: Ring, rec: Recording, a: Action, requested: bool, cfg: Config)
    requires cfg.Valid() && RingInv(ring, cfg) && LogInv(ring.log, cfg) && RecordingInv(ring, rec, cfg)
    requires RecorderEnabled(ring, rec, a) && Unwrapped(ring, cfg.size) && OnNextWhenLooked(ring, rec)
    ensures OnNextWhenLooked(ring, ApplyRecorder(ring, requested, rec, a, cfg))
  {
    if a.Search? {
      SearchKeepsOnNext(ring, rec, cfg);
    } else if a.WriteElement? {
      WriteKeepsOnNext(ring, rec, cfg);
    }
  }

  lemma PushKeepsUnwrapped(ring: Ring, e: Element, size: nat)
    requires Unwrapped(ring, size) && 0 <= ring.read <= |ring.log| && |PushRing(ring, e).log| < size
    ensures |ring.log| < size && Unwrapped(PushRing(ring, e), size) && PushRing(ring, e).read == ring.read
  {
  }

  lemma PushKeepsLapInv(s: State, e: Element, cfg: Config)
    requires LeavesOne(cfg) && Inv(s, cfg) && LapInv(s, cfg) && Enabled(s, Push(e), cfg)
    ensures LapInv(Apply(s, Push(e), cfg), cfg)
  {
    PushKeepsRing(s.ring, e, cfg);
    if |PushRing(s.ring, e).log| < cfg.size {
      PushKeepsUnwrapped(s.ring, e, cfg.size);
    }
  }

  lemma PopKeepsLapInv(s: State, c: nat, cfg: Config)
    requires LeavesOne(cfg) && Inv(s, cfg) && LapInv(s, cfg) && Enabled(s, PopOne(c), cfg)
    ensures LapInv(Apply(s, PopOne(c), cfg), cfg)
  {
    if s.ring.slots[s.ring.readIndex].timestamp < s.recording.watermark {
      assert s.ring.slots[Hop(s.ring.readIndex, 0, cfg.size)] == s.ring.log[s.ring.read + 0];
      if !s.recording.pc.Idle? {
        WatermarkSeparates(s.ring, s.recording, cfg, s.ring.read);
      }
    }
  }

  lemma StepKeepsLapInv(s: State, a: Action, cfg: Config)
    requires LeavesOne(cfg) && Inv(s, cfg) && LapInv(s, cfg) && Enabled(s, a, cfg)
    ensures LapInv(Apply(s, a, cfg), cfg)
  {
    if a.Push? {
      PushKeepsLapInv(s, a.e, cfg);
    } else if a.PopOne? {
      PopKeepsLapInv(s, a.c, cfg);
    } else if !IsMonitorStep(a) {
      RecorderStepEnabled(s, a, cfg);
      RecorderStepIs(s, a, cfg);
      if |s.ring.log| < cfg.size {
        RecorderKeepsLapInv(s.ring, s.recording, a, s.monitor.cleanupRequested, cfg);
      }
    }
  }

  lemma {:induction false} RunKeepsLapInv(s: State, actions: seq<Action>, t: State, cfg: Config)
    requires LeavesOne(cfg) && Inv(s, cfg) && LapInv(s, cfg) && Runs(s, actions, t, cfg)
    ensures LapInv(t, cfg)
    decreases |actions|
  {
    if actions != [] {
      StepKeepsInv(s, actions[0], cfg);
      StepKeepsLapInv(s, actions[0], cfg);
      RunKeepsLapInv(Apply(s, actions[0], cfg), actions[1..], t, cfg);
    }
  }

  lemma FirstLapReadsNext(s: State, cfg: Config)
    requires LeavesOne(cfg) && Reachable(s, cfg) && |s.ring.log| < cfg.size
    ensures !DereferencesPopped(s)
  {
    ReachableInv(s, cfg);
    var actions :| Runs(Init(cfg), actions, s, cfg);
    RunKeepsLapInv(Init(cfg), actions, s, cfg);
    if s.recording.pc.Dereferencing? {
      RecorderReadsNextOrLast(s, cfg);
    }
  }

  lemma DereferencingTakesRoom(s: State, cfg: Config)
    requires LeavesOne(cfg) && Reachable(s, cfg) && DereferencesPopped(s)
    ensures CanComeAround(cfg)
  {
    ReachablePopInv(s, cfg);
    RecorderReadsNextOrLast(s, cfg);
    if |s.ring.log| < cfg.size {
      FirstLapReadsNext(s, cfg);
    } else {
      SpacedGrows(s.ring.log, cfg.span, cfg.size - 1);
      MulSuccessor(cfg.size - 1, cfg.span);
    }
  }

  /** Some run makes the recorder dereference a popped element exactly when a cleanup can pop at all and
      the write index can come around: while the two loads of one good() are under way it does, the
      iterator stays on the element just written, and the cleanup pops that. */
  lemma PoppedElementIsDereferencedExactlyWhen(cfg: Config)
    requires LeavesOne(cfg)
    ensures (exists s :: Reachable(s, cfg) && DereferencesPopped(s)) <==> CanComeAround(cfg)
  {
    if CanComeAround(cfg) {
      var s := PoppedElementIsDereferenced(cfg);
    } else {
      forall s | Reachable(s, cfg) ensures !DereferencesPopped(s) {
        if DereferencesPopped(s) {
          DereferencingTakesRoom(s, cfg);
        }
      }
    }
  }

  // Where the cleanup reads a null front

  /** Spaced timestamps grow at least with their positions. */
  lemma {:induction false} SpacedGrows(log: seq<Element>, span: nat, i: nat)
    requires Spaced(log, span) && i < |log|
    ensures log[i].timestamp >= i * span
  {
    if i > 0 {
      SpacedGrows(log, span, i - 1);
      assert log[i - 1].timestamp + span <= log[i].timestamp;
      MulSuccessor(i - 1, span);
    }
  }

  /** There is room above the limit: in the ring, and below the largest timestamp. */
  ghost predicate CanExceedLimit(cfg: Config) {
    cfg.popLimit + 1 < cfg.size && (cfg.popLimit + 1) * cfg.span < MAX_TS
  }

  /** What holds as long as no cleanup was ever requested. */
  ghost predicate NeverCleaned(s: State, cfg: Config) {
    RingInv(s.ring, cfg) && LogInv(s.ring.log, cfg) && s.monitor.cleaners == map[] && !s.fault
  }

  lemma LimitIsNotExceeded(s: State, cfg: Config)
    requires cfg.Valid() && !CanExceedLimit(cfg) && RingInv(s.ring, cfg) && LogInv(s.ring.log, cfg)
    ensures Occupancy(s.ring) <= cfg.popLimit
  {
    if cfg.popLimit + 1 < cfg.size && cfg.popLimit < |s.ring.log| {
      SpacedGrows(s.ring.log, cfg.span, cfg.popLimit);
      MulSuccessor(cfg.popLimit, cfg.span);
    }
  }

  lemma StepKeepsNeverCleaned(s: State, a: Action, cfg: Config)
    requires cfg.Valid() && !CanExceedLimit(cfg) && NeverCleaned(s, cfg) && Enabled(s, a, cfg)
    ensures NeverCleaned(Apply(s, a, cfg), cfg)
  {
    LimitIsNotExceeded(s, cfg);
    if a.Push? {
      PushKeepsRing(s.ring, a.e, cfg);
      PushKeepsLog(s.ring.log, a.e, cfg);
    }
  }

  lemma {:induction false} RunKeepsNeverCleaned(s: State, actions: seq<Action>, t: State, cfg: Config)
    requires cfg.Valid() && !CanExceedLimit(cfg) && NeverCleaned(s, cfg) && Runs(s, actions, t, cfg)
    ensures NeverCleaned(t, cfg)
    decreases |actions|
  {
    if actions != [] {
      StepKeepsNeverCleaned(s, actions[0], cfg);
      RunKeepsNeverCleaned(Apply(s, actions[0], cfg), actions[1..], t, cfg);
    }
  }

  /** A cleanup pops all the elements of the log from `read` on, and then looks at the front. */
  lemma {:induction false} RunEmpties(s: State, log: seq<Element>, read: nat, cfg: Config) returns (t: State)
    requires read <= |log| < cfg.size && forall i | 0 <= i < |log| :: log[i].timestamp < MAX_TS
    requires Holds(s, log, read, IDLE, Popping(|log| - read), cfg)
    ensures Reachable(t, cfg) && t.fault
    decreases |log| - read
  {
    if read < |log| {
      t := RunPops(s, log, read, IDLE, |log| - read, cfg);
      t := RunEmpties(t, log, read + 1, cfg);
    } else {
      t := ReachNext(s, PopOne(0), cfg);
      t := ReachNext(t, FinishCleanup(0), cfg);
    }
  }

  lemma PopTheWhole(cfg: Config) returns (s: State)
    requires cfg.Valid() && cfg.popNum == cfg.popDen && CanExceedLimit(cfg)
    ensures Reachable(s, cfg) && s.fault
  {
    var n, log := cfg.popLimit + 1, Steps(cfg.popLimit + 1, cfg.span, 0);
    s := RunInit(cfg);
    assert Steps(0, cfg.span, 0) == [];
    s := RunPushes(s, 0, n, 0, IDLE, cfg);
    FractionLeavesOne(s.ring, cfg);
    s := RunStartsCleanup(s, log, 0, IDLE, cfg);
    forall i | 0 <= i < n ensures log[i].timestamp < MAX_TS {
      MulMonotone(i, n, cfg.span);
    }
    s := RunEmpties(s, log, 0, cfg);
  }

  /** Some run makes the cleanup dereference the front of an empty buffer exactly when the configured
      fraction is the whole and the buffer can exceed the limit at all. */
  lemma NullFrontExactlyWhenWholeIsPopped(cfg: Config)
    requires cfg.Valid()
    ensures (exists s :: Reachable(s, cfg) && s.fault) <==> cfg.popNum == cfg.popDen && CanExceedLimit(cfg)
  {
    if cfg.popNum < cfg.popDen {
      forall s | Reachable(s, cfg) ensures !s.fault {
        ReachableInv(s, cfg);
      }
    } else if CanExceedLimit(cfg) {
      var s := PopTheWhole(cfg);
    } else {
      forall s | Reachable(s, cfg) ensures !s.fault {
        var actions :| Runs(Init(cfg), actions, s, cfg);
        RunKeepsNeverCleaned(Init(cfg), actions, s, cfg);
      }
    }
  }
}
