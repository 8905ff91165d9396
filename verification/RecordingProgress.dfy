/** How far the threads that share the latency buffer get: a pending cleanup can always be brought to its
    end, and a recorder that is not stalled writes what is stored. */
module RecordingProgress {
  import opened Arithmetic
  import opened Elements
  import opened IterableQueueModel
  import opened RecordingProtocol
  import opened RecordingRuns
  import opened RecordingTheorems

  // The cleanup

  /** The steps of the cleanup `c`, and those by which the threads inside get out of its way. */
  predicate BringsToEnd(a: Action, c: nat) {
    GetsOut(a) || a == StartPopping(c) || a == PopOne(c) || a == FinishCleanup(c)
  }

  /** What is to be done before the cleanup `c` is at its end: its phase, and the rest of that. */
  ghost function Phase(m: Monitor, c: nat): nat {
    if c !in m.cleaners then 0
    else match m.cleaners[c]
         case AwaitingDrain => 3
         case PoppingFront(_) => 2
         case ForgettingErrors => 1
  }

  ghost function Rest(s: State, c: nat): nat {
    if c !in s.monitor.cleaners then 0
    else match s.monitor.cleaners[c]
         case AwaitingDrain => StepsInside(s.recording.pc) + |s.monitor.workers.Keys|
         case PoppingFront(left) => left
         case ForgettingErrors => 0
  }

  ghost predicate Nearer(s: State, t: State, c: nat) {
    || Phase(t.monitor, c) < Phase(s.monitor, c)
    || (Phase(t.monitor, c) == Phase(s.monitor, c) && Rest(t, c) < Rest(s, c))
  }

  lemma CleanupComesNearer(s: State, c: nat, cfg: Config) returns (a: Action)
    requires LeavesOne(cfg) && Inv(s, cfg) && c in s.monitor.cleaners
    ensures BringsToEnd(a, c) && Enabled(s, a, cfg) && Nearer(s, Apply(s, a, cfg), c)
    ensures Apply(s, a, cfg).monitor.cleaners.Keys <= {c}
  {
    OnlyCleaner(s.monitor, c);
    match s.monitor.cleaners[c]
    case AwaitingDrain =>
      if s.monitor.requestsRunning == 0 {
        a := StartPopping(c);
      } else {
        a := SomeoneGetsOut(s, cfg);
      }
    case PoppingFront(_) => a := PopOne(c);
    case ForgettingErrors => a := FinishCleanup(c);
  }

  lemma {:induction false} CleanupRunsToEnd(s: State, c: nat, cfg: Config) returns (actions: seq<Action>, t: State)
    requires LeavesOne(cfg) && Inv(s, cfg) && s.monitor.cleaners.Keys <= {c}
    ensures (forall a | a in actions :: BringsToEnd(a, c)) && Runs(s, actions, t, cfg)
    ensures Inv(t, cfg) && t.monitor.cleaners == map[]
    decreases Phase(s.monitor, c), Rest(s, c)
  {
    actions, t := [], s;
    if c in s.monitor.cleaners {
      var a, next := StepToEnd(s, c, cfg);
      var rest;
      rest, t := CleanupRunsToEnd(next, c, cfg);
      actions := [a] + rest;
      assert actions[1..] == rest;
    }
  }

  lemma StepToEnd(s: State, c: nat, cfg: Config) returns (a: Action, t: State)
    requires LeavesOne(cfg) && Inv(s, cfg) && c in s.monitor.cleaners
    ensures BringsToEnd(a, c) && Enabled(s, a, cfg) && t == Apply(s, a, cfg)
    ensures Nearer(s, t, c) && Inv(t, cfg) && t.monitor.cleaners.Keys <= {c}
  {
    a := CleanupComesNearer(s, c, cfg);
    StepKeepsInv(s, a, cfg);
    t := Apply(s, a, cfg);
  }

  /** No cleanup is pending, and whoever is outside can get in. */
  ghost predicate IsOpen(s: State, cfg: Config) {
    && s.monitor.cleaners == map[] && (forall w | w !in s.monitor.workers :: Enabled(s, EnterWorker(w), cfg))
    && (s.recording.pc.Entering? ==> Enabled(s, EnterRecorder, cfg))
  }

  lemma OpenWithoutCleanup(s: State, cfg: Config)
    requires MonitorInv(s.monitor, s.recording.InsideMonitor()) && s.monitor.cleaners == map[]
    ensures IsOpen(s, cfg)
  {
  }

  /** A pending cleanup need not wait for anything but the threads inside: they leave, it pops and forgets,
      and then whoever is outside can get in again. */
  lemma PendingCleanupCompletes(s: State, c: nat, cfg: Config)
    requires LeavesOne(cfg) && Reachable(s, cfg) && c in s.monitor.cleaners
    ensures exists actions, t ::
              (forall a | a in actions :: BringsToEnd(a, c)) && Runs(s, actions, t, cfg) && IsOpen(t, cfg)
  {
    ReachableInv(s, cfg);
    OnlyCleaner(s.monitor, c);
    var actions, t := CleanupRunsToEnd(s, c, cfg);
    OpenWithoutCleanup(t, cfg);
  }

  // The recorder

  /** The recorder goes on with its loop. */
  predicate GoesOn(a: Action) {
    !a.Push? && !IsMonitorStep(a) && !a.StartRecording? && !a.StopRecording?
  }

  /** What a sequence of its steps makes of the recorder while nobody else takes one. */
  ghost predicate RunsAlone(ring: Ring, rec: Recording, actions: seq<Action>, t: Recording, cfg: Config)
    decreases |actions|
  {
    if actions == [] then
      rec == t
    else
      && GoesOn(actions[0]) && RecorderEnabled(ring, rec, actions[0])
      && RunsAlone(ring, ApplyRecorder(ring, false, rec, actions[0], cfg), actions[1..], t, cfg)
  }

  lemma {:induction false} RunsAloneThen(ring: Ring, rec: Recording, actions: seq<Action>, t: Recording, a: Action,
                                         cfg: Config)
    requires RunsAlone(ring, rec, actions, t, cfg) && GoesOn(a) && RecorderEnabled(ring, t, a)
    ensures RunsAlone(ring, rec, actions + [a], ApplyRecorder(ring, false, t, a, cfg), cfg)
    decreases |actions|
  {
    if actions == [] {
      assert [a][1..] == [];
      assert RunsAlone(ring, ApplyRecorder(ring, false, t, a, cfg), [], ApplyRecorder(ring, false, t, a, cfg), cfg);
    } else {
      RunsAloneThen(ring, ApplyRecorder(ring, false, rec, actions[0], cfg), actions[1..], t, a, cfg);
      assert (actions + [a])[1..] == actions[1..] + [a];
    }
  }

  /** From `from` on the recorder alone comes to `rec`. */
  ghost predicate Comes(ring: Ring, from: Recording, rec: Recording, cfg: Config) {
    && cfg.Valid() && RingInv(ring, cfg) && LogInv(ring.log, cfg) && RecordingInv(ring, rec, cfg)
    && exists actions :: RunsAlone(ring, from, actions, rec, cfg)
  }

  lemma Step(ring: Ring, from: Recording, rec: Recording, a: Action, cfg: Config) returns (t: Recording)
    requires Comes(ring, from, rec, cfg) && GoesOn(a) && RecorderEnabled(ring, rec, a)
    ensures Comes(ring, from, t, cfg) && t == ApplyRecorder(ring, false, rec, a, cfg)
  {
    var actions :| RunsAlone(ring, from, actions, rec, cfg);
    RunsAloneThen(ring, from, actions, rec, a, cfg);
    RecorderStepKeepsRecording(ring, rec, a, false, cfg);
    t := ApplyRecorder(ring, false, rec, a, cfg);
  }

  /** Something is stored that is not written yet, and its front is not past the watermark. */
  ghost predicate HasNext(ring: Ring, rec: Recording) {
    && rec.Next() < |ring.log|
    && (ring.read == rec.Next() ==> ring.log[rec.Next()].timestamp <= rec.watermark)
  }

  lemma StoredMeansIndicesDiffer(ring: Ring, cfg: Config)
    requires cfg.Valid() && RingInv(ring, cfg) && Occupancy(ring) > 0
    ensures ring.writeIndex != ring.readIndex && ring.writeIndex < cfg.size
    ensures ring.slots[ring.readIndex] == ring.log[ring.read]
  {
    assert ring.slots[Hop(ring.readIndex, 0, cfg.size)] == ring.log[ring.read + 0];
  }

  /** With no watermark yet, it takes the timestamp of the front. */
  lemma TakesFront(ring: Ring, from: Recording, rec: Recording, cfg: Config) returns (t: Recording)
    requires Comes(ring, from, rec, cfg) && rec.pc.LoopTop? && rec.watermark == 0 && rec.Next() < |ring.log|
    ensures Comes(ring, from, t, cfg) && HasNext(ring, t)
    ensures t == rec.(pc := Entering, watermark := ring.log[rec.Next()].timestamp)
  {
    StoredMeansIndicesDiffer(ring, cfg);
    t := Step(ring, from, rec, Poll, cfg);
    t := Step(ring, from, t, SampleRead, cfg);
    t := Step(ring, from, t, LoadFront, cfg);
    t := Step(ring, from, t, SetWatermark, cfg);
  }

  /** The scan stands on the next element to write, or past the end if none is stored. */
  ghost predicate ScansNext(ring: Ring, rec: Recording, size: nat) {
    && rec.pc.Scanning? && rec.Next() <= |ring.log|
    && if rec.Next() < |ring.log| then OnNext(ring, rec, rec.pc.index, size) else rec.pc.index == END_INDEX
  }

  lemma Samples(ring: Ring, from: Recording, rec: Recording, cfg: Config) returns (t: Recording)
    requires Comes(ring, from, rec, cfg) && rec.pc.Entering?
    ensures Comes(ring, from, t, cfg) && t == rec.(pc := Sampled(ring.readIndex, ring.writeIndex))
  {
    t := Step(ring, from, rec, EnterRecorder, cfg);
    t := Step(ring, from, t, SampleRead, cfg);
    t := Step(ring, from, t, SampleWrite, cfg);
  }

  lemma Finds(ring: Ring, rec: Recording, cfg: Config) returns (index: nat)
    requires cfg.Valid() && RingInv(ring, cfg) && LogInv(ring.log, cfg) && RecordingInv(ring, rec, cfg)
    requires rec.pc == Sampled(ring.readIndex, ring.writeIndex) && HasNext(ring, rec)
    ensures RecorderEnabled(ring, rec, Search)
    ensures ApplyRecorder(ring, false, rec, Search, cfg) == rec.(pc := Searched(index))
    ensures OnNext(ring, rec, index, cfg.size)
  {
    StoredMeansIndicesDiffer(ring, cfg);
    SearchFindsNext(ring, rec, cfg);
    index := SearchIndex(ring.slots, rec.pc.readSample, rec.pc.writeSample, rec.watermark);
  }

  lemma SearchesInside(ring: Ring, from: Recording, rec: Recording, cfg: Config)
    returns (t: Recording, index: nat)
    requires Comes(ring, from, rec, cfg) && rec.pc.Entering? && HasNext(ring, rec)
    ensures Comes(ring, from, t, cfg) && t == rec.(pc := Searched(index)) && OnNext(ring, t, index, cfg.size)
  {
    t := Samples(ring, from, rec, cfg);
    index := Finds(ring, t, cfg);
    t := Step(ring, from, t, Search, cfg);
  }

  lemma Searches(ring: Ring, from: Recording, rec: Recording, cfg: Config) returns (t: Recording)
    requires Comes(ring, from, rec, cfg) && rec.pc.Entering? && HasNext(ring, rec)
    ensures Comes(ring, from, t, cfg) && ScansNext(ring, t, cfg.size) && t.pc.n == 0
    ensures t.from == rec.from && t.recorded == rec.recorded
  {
    var searched, index := SearchesInside(ring, from, rec, cfg);
    t := Step(ring, from, searched, LeaveRecorder, cfg);
  }

  lemma Looks(ring: Ring, from: Recording, rec: Recording, cfg: Config) returns (t: Recording)
    requires Comes(ring, from, rec, cfg) && rec.pc.Scanning? && rec.pc.n < MAX_CHUNKS
    requires OnNext(ring, rec, rec.pc.index, cfg.size) && rec.Next() < |ring.log|
    ensures Comes(ring, from, t, cfg) && t == rec.(pc := Dereferencing(rec.pc.index, rec.pc.n))
    ensures OnNext(ring, t, rec.pc.index, cfg.size)
  {
    GoodIsLive(ring, rec.Next() - ring.read, cfg.size);
    t := Step(ring, from, rec, SampleRead, cfg);
    t := Step(ring, from, t, CheckGood, cfg);
  }

  /** The next element is written, and the watermark moves behind it. */
  lemma Writes(ring: Ring, from: Recording, rec: Recording, cfg: Config) returns (t: Recording)
    requires Comes(ring, from, rec, cfg) && rec.pc.Dereferencing? && OnNext(ring, rec, rec.pc.index, cfg.size)
    ensures Comes(ring, from, t, cfg) && rec.Next() < |ring.log| && t.recorded == rec.recorded + [ring.log[rec.Next()]]
    ensures t.pc == Incrementing(rec.pc.index, rec.pc.n + 1) && t.from == rec.from
    ensures OnLast(ring, t, rec.pc.index, cfg.size)
  {
    DereferencedElement(ring, rec, cfg);
    t := Step(ring, from, rec, WriteElement, cfg);
    t := Step(ring, from, t, BumpWatermark, cfg);
  }

  lemma Moves(ring: Ring, from: Recording, rec: Recording, cfg: Config) returns (t: Recording)
    requires Comes(ring, from, rec, cfg) && rec.pc.Incrementing? && OnLast(ring, rec, rec.pc.index, cfg.size)
    requires ring.read < rec.Next()
    ensures Comes(ring, from, t, cfg) && t.pc.Incremented? && t == rec.(pc := Incremented(t.pc.index, rec.pc.n))
    ensures OnNext(ring, t, t.pc.index, cfg.size)
  {
    GoodIsLive(ring, rec.Next() - 1 - ring.read, cfg.size);
    t := Step(ring, from, rec, SampleRead, cfg);
    t := Step(ring, from, t, IncrementIndex, cfg);
  }

  lemma Checks(ring: Ring, from: Recording, rec: Recording, cfg: Config) returns (t: Recording)
    requires Comes(ring, from, rec, cfg) && rec.pc.Incremented? && OnNext(ring, rec, rec.pc.index, cfg.size)
    ensures Comes(ring, from, t, cfg) && t.pc.Scanning? && t == rec.(pc := Scanning(t.pc.index, rec.pc.n))
    ensures if rec.Next() < |ring.log| then OnNext(ring, t, t.pc.index, cfg.size) else t.pc.index == END_INDEX
  {
    if rec.Next() - ring.read < cfg.size {
      GoodIsLive(ring, rec.Next() - ring.read, cfg.size);
    }
    t := Step(ring, from, rec, SampleRead, cfg);
    t := Step(ring, from, t, CheckIncremented, cfg);
  }

  /** The iterator moves on to the element after it, or past the end if none is stored. */
  lemma Increments(ring: Ring, from: Recording, rec: Recording, cfg: Config) returns (t: Recording)
    requires Comes(ring, from, rec, cfg) && rec.pc.Incrementing? && OnLast(ring, rec, rec.pc.index, cfg.size)
    requires ring.read < rec.Next()
    ensures Comes(ring, from, t, cfg) && t.pc.Scanning? && t == rec.(pc := Scanning(t.pc.index, rec.pc.n))
    ensures if rec.Next() < |ring.log| then OnNext(ring, t, t.pc.index, cfg.size) else t.pc.index == END_INDEX
  {
    t := Moves(ring, from, rec, cfg);
    t := Checks(ring, from, t, cfg);
  }

  lemma Ends(ring: Ring, from: Recording, rec: Recording, cfg: Config) returns (t: Recording)
    requires Comes(ring, from, rec, cfg) && rec.pc.Scanning? && (rec.pc.index == END_INDEX || rec.pc.n >= MAX_CHUNKS)
    ensures Comes(ring, from, t, cfg) && t == rec.(pc := LoopTop)
  {
    t := Step(ring, from, rec, SampleRead, cfg);
    if rec.pc.index != END_INDEX {
      t := Step(ring, from, t, CheckGood, cfg);
    }
  }

  function PassLength(n: nat, unwritten: nat): nat
    requires n <= MAX_CHUNKS
  {
    if unwritten <= MAX_CHUNKS - n then unwritten else MAX_CHUNKS - n
  }

  /** From `rec` to `t` the next `k` stored elements were written. */
  ghost predicate Wrote(log: seq<Element>, rec: Recording, t: Recording, k: nat) {
    t.from == rec.from && rec.Next() + k <= |log| && t.recorded == rec.recorded + log[rec.Next()..rec.Next() + k]
  }

  lemma WroteMore(log: seq<Element>, rec: Recording, next: Recording, t: Recording, j: nat, k: nat)
    requires Wrote(log, rec, next, j) && Wrote(log, next, t, k)
    ensures Wrote(log, rec, t, j + k)
  {
    var p := rec.Next();
    assert log[p..p + j + k] == log[p..p + j] + log[p + j..p + j + k];
  }

  lemma LooksAndWrites(ring: Ring, from: Recording, rec: Recording, cfg: Config) returns (t: Recording)
    requires Comes(ring, from, rec, cfg) && ScansNext(ring, rec, cfg.size) && rec.pc.n < MAX_CHUNKS
    requires rec.Next() < |ring.log|
    ensures Comes(ring, from, t, cfg) && Wrote(ring.log, rec, t, 1) && ring.read < t.Next()
    ensures t.pc == Incrementing(rec.pc.index, rec.pc.n + 1) && OnLast(ring, t, rec.pc.index, cfg.size)
  {
    t := Looks(ring, from, rec, cfg);
    t := Writes(ring, from, t, cfg);
  }

  lemma WritesOne(ring: Ring, from: Recording, rec: Recording, cfg: Config) returns (t: Recording)
    requires Comes(ring, from, rec, cfg) && ScansNext(ring, rec, cfg.size) && rec.pc.n < MAX_CHUNKS
    requires rec.Next() < |ring.log|
    ensures Comes(ring, from, t, cfg) && Wrote(ring.log, rec, t, 1)
    ensures ScansNext(ring, t, cfg.size) && t.pc.n == rec.pc.n + 1
  {
    var written := LooksAndWrites(ring, from, rec, cfg);
    t := Increments(ring, from, written, cfg);
  }

  /** From the next element on the scan writes what is stored, up to the limit of a pass. */
  lemma {:induction false} ScansToEnd(ring: Ring, from: Recording, rec: Recording, cfg: Config) returns (t: Recording)
    requires Comes(ring, from, rec, cfg) && ScansNext(ring, rec, cfg.size) && rec.pc.n <= MAX_CHUNKS
    ensures Comes(ring, from, t, cfg) && t.pc.LoopTop?
    ensures Wrote(ring.log, rec, t, PassLength(rec.pc.n, |ring.log| - rec.Next()))
    decreases |ring.log| - rec.Next()
  {
    if rec.Next() == |ring.log| || rec.pc.n == MAX_CHUNKS {
      t := Ends(ring, from, rec, cfg);
    } else {
      var next := WritesOne(ring, from, rec, cfg);
      t := ScansToEnd(ring, from, next, cfg);
      WroteMore(ring.log, rec, next, t, 1, PassLength(next.pc.n, |ring.log| - next.Next()));
    }
  }

  lemma StartsAt(ring: Ring, rec: Recording, cfg: Config)
    requires cfg.Valid() && RingInv(ring, cfg) && LogInv(ring.log, cfg) && RecordingInv(ring, rec, cfg)
    ensures Comes(ring, rec, rec, cfg)
  {
    assert RunsAlone(ring, rec, [], rec, cfg);
  }

  /** From the top of its loop, with something to write that its search does not miss, the recorder comes
      to the search. */
  lemma Enters(ring: Ring, rec: Recording, cfg: Config) returns (t: Recording)
    requires cfg.Valid() && RingInv(ring, cfg) && LogInv(ring.log, cfg) && RecordingInv(ring, rec, cfg)
    requires rec.pc.LoopTop? && (HasNext(ring, rec) || (rec.watermark == 0 && rec.Next() < |ring.log|))
    ensures Comes(ring, rec, t, cfg) && t.pc.Entering? && HasNext(ring, t)
    ensures t.from == rec.from && t.recorded == rec.recorded
  {
    StartsAt(ring, rec, cfg);
    if rec.watermark == 0 {
      t := TakesFront(ring, rec, rec, cfg);
    } else {
      t := Step(ring, rec, rec, Poll, cfg);
    }
  }

  lemma BeginsScan(ring: Ring, rec: Recording, cfg: Config) returns (t: Recording)
    requires cfg.Valid() && RingInv(ring, cfg) && LogInv(ring.log, cfg) && RecordingInv(ring, rec, cfg)
    requires rec.pc.LoopTop? && (HasNext(ring, rec) || (rec.watermark == 0 && rec.Next() < |ring.log|))
    ensures Comes(ring, rec, t, cfg) && ScansNext(ring, t, cfg.size) && t.pc.n == 0
    ensures t.from == rec.from && t.recorded == rec.recorded
  {
    t := Enters(ring, rec, cfg);
    t := Searches(ring, rec, t, cfg);
  }

  lemma PassesAlone(ring: Ring, rec: Recording, cfg: Config) returns (t: Recording)
    requires cfg.Valid() && RingInv(ring, cfg) && LogInv(ring.log, cfg) && RecordingInv(ring, rec, cfg)
    requires rec.pc.LoopTop? && (HasNext(ring, rec) || (rec.watermark == 0 && rec.Next() < |ring.log|))
    ensures Comes(ring, rec, t, cfg) && t.pc.LoopTop?
    ensures Wrote(ring.log, rec, t, PassLength(0, |ring.log| - rec.Next()))
  {
    var scan := BeginsScan(ring, rec, cfg);
    t := ScansToEnd(ring, rec, scan, cfg);
    WroteSince(ring.log, rec, scan, t, PassLength(0, |ring.log| - rec.Next()));
  }

  lemma WroteSince(log: seq<Element>, rec: Recording, next: Recording, t: Recording, k: nat)
    requires next.from == rec.from && next.recorded == rec.recorded && Wrote(log, next, t, k)
    ensures Wrote(log, rec, t, k)
  {
  }

  /** While no cleanup is pending, the recorder may take its steps in the shared state. */
  lemma {:induction false} RunsInShared(s: State, actions: seq<Action>, rec: Recording, cfg: Config) returns (t: State)
    requires LeavesOne(cfg) && Inv(s, cfg) && !s.monitor.cleanupRequested
    requires RunsAlone(s.ring, s.recording, actions, rec, cfg)
    ensures Runs(s, actions, t, cfg) && (forall a | a in actions :: GoesOn(a)) && Inv(t, cfg)
    ensures t.ring == s.ring && t.recording == rec
    ensures t.monitor == s.monitor.(requestsRunning := t.monitor.requestsRunning)
    decreases |actions|
  {
    t := s;
    if actions != [] {
      t := StepInShared(s, actions[0], cfg);
      t := RunsInShared(t, actions[1..], rec, cfg);
    }
  }

  lemma StepInShared(s: State, a: Action, cfg: Config) returns (t: State)
    requires LeavesOne(cfg) && Inv(s, cfg) && !s.monitor.cleanupRequested
    requires GoesOn(a) && RecorderEnabled(s.ring, s.recording, a)
    ensures Enabled(s, a, cfg) && t == Apply(s, a, cfg) && Inv(t, cfg) && t.ring == s.ring
    ensures t.recording == ApplyRecorder(s.ring, false, s.recording, a, cfg)
    ensures t.monitor == s.monitor.(requestsRunning := t.monitor.requestsRunning)
  {
    t := Apply(s, a, cfg);
    StepKeepsInv(s, a, cfg);
  }

  lemma PassInShared(s: State, cfg: Config) returns (actions: seq<Action>, t: State)
    requires LeavesOne(cfg) && Inv(s, cfg) && s.recording.pc.LoopTop? && !s.monitor.cleanupRequested
    requires s.recording.Next() < |s.ring.log| && !Stalled(s)
    ensures Runs(s, actions, t, cfg) && (forall a | a in actions :: GoesOn(a))
    ensures t.ring == s.ring && t.monitor == s.monitor && t.recording.pc.LoopTop?
    ensures Wrote(s.ring.log, s.recording, t.recording, PassLength(0, |s.ring.log| - s.recording.Next()))
  {
    var rec := PassesAlone(s.ring, s.recording, cfg);
    actions :| RunsAlone(s.ring, s.recording, actions, rec, cfg);
    t := RunsInShared(s, actions, rec, cfg);
  }

  /** A pass that is not interrupted: unless the recording is stalled, the recorder writes all that is
      stored and not written yet, a thousand elements at most, and is at the top of its loop again. */
  lemma PassWritesWhatIsStored(s: State, cfg: Config)
    requires LeavesOne(cfg) && Reachable(s, cfg) && s.recording.pc.LoopTop? && !s.monitor.cleanupRequested
    requires s.recording.Next() < |s.ring.log| && !Stalled(s)
    ensures exists actions, t ::
              && (forall a | a in actions :: GoesOn(a)) && Runs(s, actions, t, cfg)
              && t.ring == s.ring && t.monitor == s.monitor && t.recording.pc.LoopTop?
              && t.recording.recorded == s.recording.recorded + FirstOf(s.ring.log[s.recording.Next()..], 1000)
  {
    ReachableInv(s, cfg);
    var actions, t := PassInShared(s, cfg);
    FirstOfIs(s.ring.log, s.recording.Next());
  }

  lemma FirstOfIs(log: seq<Element>, p: nat)
    requires p <= |log|
    ensures FirstOf(log[p..], 1000) == log[p..p + PassLength(0, |log| - p)]
  {
  }

  function FirstOf(log: seq<Element>, n: nat): seq<Element> {
    if |log| <= n then log else log[..n]
  }

  lemma {:induction false} StalledRun(s: State, actions: seq<Action>, t: State, cfg: Config)
    requires LeavesOne(cfg) && Reachable(s, cfg) && Stalled(s) && Runs(s, actions, t, cfg)
    requires StopRecording !in actions
    ensures t.recording.recorded == s.recording.recorded
    decreases |actions|
  {
    if actions != [] {
      var next := ReachNext(s, actions[0], cfg);
      StalledStays(s, actions[0], cfg);
      StalledRun(next, actions[1..], t, cfg);
    }
  }

  /** At the top of the loop with something unwritten stored and no cleanup pending, the recording can go
      on if and only if it is not stalled: otherwise no run writes anything more before it is stopped. */
  lemma RecordingGoesOnExactlyWhenNotStalled(s: State, cfg: Config)
    requires LeavesOne(cfg) && Reachable(s, cfg) && s.recording.pc.LoopTop? && !s.monitor.cleanupRequested
    requires s.recording.Next() < |s.ring.log|
    ensures (exists actions, t ::
               && Runs(s, actions, t, cfg) && StopRecording !in actions
               && t.recording.recorded != s.recording.recorded) <==> !Stalled(s)
  {
    if Stalled(s) {
      forall actions, t | Runs(s, actions, t, cfg) && StopRecording !in actions
        ensures t.recording.recorded == s.recording.recorded
      {
        StalledRun(s, actions, t, cfg);
      }
    } else {
      PassWritesWhatIsStored(s, cfg);
    }
  }
}
