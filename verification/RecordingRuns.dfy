/** Runs of the threads that share the latency buffer, put together step by step: what a push, a pass of
    the recorder and a cleanup make of a ring that was not filled twice. */
module RecordingRuns {
  import opened Arithmetic
  import opened Elements
  import opened IterableQueueModel
  import opened RecordingProtocol
  import opened RecordingTheorems

  lemma {:induction false} RunsThenStep(s: State, actions: seq<Action>, t: State, a: Action, cfg: Config)
    requires cfg.Valid() && Runs(s, actions, t, cfg) && Enabled(t, a, cfg)
    ensures Runs(s, actions + [a], Apply(t, a, cfg), cfg)
    decreases |actions|
  {
    if actions == [] {
      assert [a][1..] == [];
      assert Runs(Apply(s, a, cfg), [a][1..], Apply(t, a, cfg), cfg);
    } else {
      RunsThenStep(Apply(s, actions[0], cfg), actions[1..], t, a, cfg);
      assert (actions + [a])[1..] == actions[1..] + [a];
    }
  }

  lemma ReachNext(s: State, a: Action, cfg: Config) returns (t: State)
    requires cfg.Valid() && Reachable(s, cfg) && Enabled(s, a, cfg)
    ensures Reachable(t, cfg) && t == Apply(s, a, cfg)
  {
    var actions :| Runs(Init(cfg), actions, s, cfg);
    RunsThenStep(Init(cfg), actions, s, a, cfg);
    t := Apply(s, a, cfg);
  }

  lemma ReachInit(cfg: Config) returns (s: State)
    requires cfg.Valid()
    ensures Reachable(s, cfg) && s == Init(cfg)
  {
    s := Init(cfg);
    assert Runs(s, [], s, cfg);
  }

  /** Nobody is inside, and no cleanup is pending. */
  const QUIET := Monitor(false, 0, map[], map[])

  /** A cleanup has `left` elements to pop. */
  function Popping(left: nat): Monitor {
    Monitor(true, 0, map[0 := PoppingFront(left)], map[])
  }

  const IDLE := Recording(Idle, MAX_TS, 0, [])

  /** The ring was not filled twice: position i of the log is slot i. */
  ghost predicate FirstRound(ring: Ring, log: seq<Element>, read: nat, size: nat) {
    && |log| <= size && |ring.slots| == size && ring.log == log
    && (forall i | 0 <= i < |log| :: ring.slots[i] == log[i])
    && ring.read == ring.readIndex == read <= |log| && read < size
    && ring.writeIndex == (if |log| == size then 0 else |log|)
  }

  ghost predicate Holds(s: State, log: seq<Element>, read: nat, rec: Recording, m: Monitor, cfg: Config) {
    && cfg.Valid() && Reachable(s, cfg) && FirstRound(s.ring, log, read, cfg.size)
    && s.recording == rec && s.monitor == m && !s.fault
  }

  lemma RunInit(cfg: Config) returns (s: State)
    requires cfg.Valid()
    ensures Holds(s, [], 0, IDLE, QUIET, cfg)
  {
    s := ReachInit(cfg);
  }

  // The producer

  lemma PushKeepsRound(ring: Ring, log: seq<Element>, read: nat, e: Element, size: nat)
    requires FirstRound(ring, log, read, size)
    requires |log| < size && (|log| + 1 < size || read > 0)
    ensures FirstRound(PushRing(ring, e), log + [e], read, size)
  {
  }

  lemma RunPush(s: State, log: seq<Element>, read: nat, rec: Recording, m: Monitor, e: Element, cfg: Config)
    returns (t: State)
    requires Holds(s, log, read, rec, m, cfg) && |log| < cfg.size && (|log| + 1 < cfg.size || read > 0)
    requires e.timestamp + cfg.span < MAX_TS && (log != [] ==> log[|log| - 1].timestamp + cfg.span <= e.timestamp)
    ensures Holds(t, log + [e], read, rec, m, cfg)
  {
    t := ReachNext(s, Push(e), cfg);
    PushKeepsRound(s.ring, log, read, e, cfg.size);
  }

  /** The i-th element of a log with one span from each element to the next, and `gap` ticks more behind
      the first. */
  function Stamped(i: nat, span: nat, gap: nat): Element {
    Element(if i == 0 then 0 else i * span + gap, [])
  }

  function Steps(n: nat, span: nat, gap: nat): seq<Element> {
    seq(n, i requires 0 <= i < n => Stamped(i, span, gap))
  }

  lemma {:induction false} RunPushes(s: State, m: nat, n: nat, gap: nat, rec: Recording, cfg: Config)
    returns (t: State)
    requires Holds(s, Steps(m, cfg.span, gap), 0, rec, QUIET, cfg)
    requires m <= n < cfg.size && n * cfg.span + gap < MAX_TS
    ensures Holds(t, Steps(n, cfg.span, gap), 0, rec, QUIET, cfg)
    decreases n - m
  {
    t := s;
    if m < n {
      MulMonotone(m + 1, n, cfg.span);
      MulSuccessor(m, cfg.span);
      MulSuccessor(m - 1, cfg.span);
      t := RunPush(t, Steps(m, cfg.span, gap), 0, rec, QUIET, Stamped(m, cfg.span, gap), cfg);
      assert Steps(m, cfg.span, gap) + [Stamped(m, cfg.span, gap)] == Steps(m + 1, cfg.span, gap);
      t := RunPushes(t, m + 1, n, gap, rec, cfg);
    }
  }

  // The recorder

  /** A step of the recorder, other than in and out of its guarded region. */
  lemma RunRecorder(s: State, log: seq<Element>, read: nat, rec: Recording, m: Monitor, a: Action, cfg: Config)
    returns (t: State)
    requires Holds(s, log, read, rec, m, cfg) && RecorderEnabled(s.ring, rec, a)
    requires !a.EnterRecorder? && !a.LeaveRecorder?
    ensures Holds(t, log, read, ApplyRecorder(s.ring, m.cleanupRequested, rec, a, cfg), m, cfg) && t.ring == s.ring
  {
    t := ReachNext(s, a, cfg);
  }

  /** A recording begins at the oldest element. */
  lemma RunBegins(s: State, log: seq<Element>, cfg: Config) returns (t: State)
    requires Holds(s, log, 0, IDLE, QUIET, cfg) && 0 < |log| < cfg.size
    ensures Holds(t, log, 0, Recording(Entering, log[0].timestamp, 0, []), QUIET, cfg)
  {
    t := RunRecorder(s, log, 0, IDLE, QUIET, StartRecording, cfg);
    t := RunRecorder(t, log, 0, Recording(LoopTop, 0, 0, []), QUIET, Poll, cfg);
    t := RunRecorder(t, log, 0, Recording(LoadingFront, 0, 0, []), QUIET, SampleRead, cfg);
    t := RunRecorder(t, log, 0, Recording(FrontSampled(0), 0, 0, []), QUIET, LoadFront, cfg);
    t := RunRecorder(t, log, 0, Recording(FrontLoaded(0), 0, 0, []), QUIET, SetWatermark, cfg);
  }

  lemma SearchFindsFront(ring: Ring, log: seq<Element>, size: nat)
    requires FirstRound(ring, log, 0, size) && 0 < |log| < size
    ensures SearchIndex(ring.slots, 0, |log|, log[0].timestamp) == 0
  {
    assert Stretch(ring.slots, 0, |log|)[0] == log[0];
  }

  /** Inside the guarded region its first search finds that. */
  lemma RunFindsFront(s: State, log: seq<Element>, rec: Recording, m: Monitor, cfg: Config) returns (t: State)
    requires 0 < |log| < cfg.size && rec.watermark == log[0].timestamp && rec.pc == Admitted
    requires Holds(s, log, 0, rec, m, cfg)
    ensures Holds(t, log, 0, rec.(pc := Searched(0)), m, cfg)
  {
    t := RunRecorder(s, log, 0, rec, m, SampleRead, cfg);
    t := RunRecorder(t, log, 0, rec.(pc := ReadSampled(0)), m, SampleWrite, cfg);
    SearchFindsFront(t.ring, log, cfg.size);
    t := RunRecorder(t, log, 0, rec.(pc := Sampled(0, |log|)), m, Search, cfg);
  }

  lemma RunSearches(s: State, log: seq<Element>, cfg: Config) returns (t: State)
    requires 0 < |log| < cfg.size && Holds(s, log, 0, Recording(Entering, log[0].timestamp, 0, []), QUIET, cfg)
    ensures Holds(t, log, 0, Recording(Scanning(0, 0), log[0].timestamp, 0, []), QUIET, cfg)
  {
    var rec := Recording(Admitted, log[0].timestamp, 0, []);
    t := ReachNext(s, EnterRecorder, cfg);
    t := RunFindsFront(t, log, rec, QUIET.(requestsRunning := 1), cfg);
    t := ReachNext(t, LeaveRecorder, cfg);
  }

  /** The iterator is good on a stored element. */
  lemma RunLooks(s: State, log: seq<Element>, i: nat, n: nat, rec: Recording, cfg: Config) returns (t: State)
    requires Holds(s, log, 0, rec, QUIET, cfg) && rec.pc == Scanning(i, n) && i < |log| < cfg.size && n < MAX_CHUNKS
    ensures Holds(t, log, 0, rec.(pc := Dereferencing(i, n)), QUIET, cfg)
  {
    t := RunRecorder(s, log, 0, rec, QUIET, SampleRead, cfg);
    t := RunRecorder(t, log, 0, rec.(pc := ScanningFrom(i, n, 0)), QUIET, CheckGood, cfg);
  }

  lemma RunDereferences(s: State, log: seq<Element>, i: nat, n: nat, rec: Recording, cfg: Config) returns (t: State)
    requires Holds(s, log, 0, rec, QUIET, cfg) && rec.pc == Dereferencing(i, n) && i < |log|
    requires log[i].timestamp >= rec.watermark
    ensures Holds(t, log, 0, Recording(Incrementing(i, n + 1), log[i].timestamp + cfg.span, rec.from,
                                       rec.recorded + [log[i]]), QUIET, cfg)
  {
    var bumping := rec.(pc := Bumping(i, n + 1, log[i].timestamp + cfg.span), recorded := rec.recorded + [log[i]]);
    t := RunRecorder(s, log, 0, rec, QUIET, WriteElement, cfg);
    t := RunRecorder(t, log, 0, bumping, QUIET, BumpWatermark, cfg);
  }

  /** A stored element is written, and the watermark moves behind it. */
  lemma RunWrites(s: State, log: seq<Element>, i: nat, n: nat, rec: Recording, cfg: Config) returns (t: State)
    requires Holds(s, log, 0, rec, QUIET, cfg) && rec.pc == Scanning(i, n) && i < |log| < cfg.size && n < MAX_CHUNKS
    requires log[i].timestamp >= rec.watermark
    ensures Holds(t, log, 0, Recording(Incrementing(i, n + 1), log[i].timestamp + cfg.span, rec.from,
                                       rec.recorded + [log[i]]), QUIET, cfg)
  {
    t := RunLooks(s, log, i, n, rec, cfg);
    t := RunDereferences(t, log, i, n, rec.(pc := Dereferencing(i, n)), cfg);
  }

  /** The iterator goes on, past the end from the newest element. */
  lemma RunIncrements(s: State, log: seq<Element>, i: nat, n: nat, rec: Recording, cfg: Config) returns (t: State)
    requires Holds(s, log, 0, rec, QUIET, cfg) && rec.pc == Incrementing(i, n) && i < |log| < cfg.size
    ensures var next := if i + 1 < |log| then i + 1 else END_INDEX;
            Holds(t, log, 0, rec.(pc := Scanning(next, n)), QUIET, cfg)
  {
    t := RunRecorder(s, log, 0, rec, QUIET, SampleRead, cfg);
    t := RunRecorder(t, log, 0, rec.(pc := IncrementingFrom(i, n, 0)), QUIET, IncrementIndex, cfg);
    t := RunRecorder(t, log, 0, rec.(pc := Incremented(i + 1, n)), QUIET, SampleRead, cfg);
    t := RunRecorder(t, log, 0, rec.(pc := IncrementedFrom(i + 1, n, 0)), QUIET, CheckIncremented, cfg);
  }

  // The cleanup

  lemma RunStartsCleanup(s: State, log: seq<Element>, read: nat, rec: Recording, cfg: Config) returns (t: State)
    requires Holds(s, log, read, rec, QUIET, cfg) && |log| - read > cfg.popLimit
    ensures Holds(t, log, read, rec, Popping(ToPop(s.ring, cfg)), cfg) && t.ring == s.ring
  {
    t := ReachNext(s, RequestCleanup(0), cfg);
    t := ReachNext(t, StartPopping(0), cfg);
    var left := ToPop(s.ring, cfg);
    assert map[0 := AwaitingDrain][0 := PoppingFront(left)] == map[0 := PoppingFront(left)];
  }

  /** It pops the oldest element, if that is written. */
  lemma RunPops(s: State, log: seq<Element>, read: nat, rec: Recording, left: nat, cfg: Config) returns (t: State)
    requires Holds(s, log, read, rec, Popping(left), cfg) && left > 0 && read < |log| && read + 1 < cfg.size
    requires |log| - read < cfg.size && log[read].timestamp < rec.watermark
    ensures Holds(t, log, read + 1, rec, Popping(left - 1), cfg)
  {
    t := ReachNext(s, PopOne(0), cfg);
    assert map[0 := PoppingFront(left)][0 := PoppingFront(left - 1)] == map[0 := PoppingFront(left - 1)];
  }

  lemma RunEndsCleanup(s: State, log: seq<Element>, read: nat, rec: Recording, cfg: Config) returns (t: State)
    requires Holds(s, log, read, rec, Popping(0), cfg) && read < |log| && |log| - read < cfg.size
    ensures Holds(t, log, read, rec, QUIET, cfg)
  {
    t := ReachNext(s, PopOne(0), cfg);
    t := ReachNext(t, FinishCleanup(0), cfg);
    assert t.monitor.cleaners == map[];
  }
}
