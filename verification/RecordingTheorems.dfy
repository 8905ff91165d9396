/** What holds in every run of the threads that share the latency buffer. */
module RecordingTheorems {
  import opened Arithmetic
  import opened Elements
  import opened IterableQueueModel
  import opened RecordingProtocol
  import opened RequestWindow

  /** `t` is what a sequence of steps, of any threads in any order, makes of `s`. */
  ghost predicate Runs(s: State, actions: seq<Action>, t: State, cfg: Config)
    requires cfg.Valid()
    decreases |actions|
  {
    if actions == [] then
      s == t
    else
      Enabled(s, actions[0], cfg) && Runs(Apply(s, actions[0], cfg), actions[1..], t, cfg)
  }

  /** A fraction below one is popped at a time. */
  ghost predicate LeavesOne(cfg: Config) {
    cfg.Valid() && cfg.popNum < cfg.popDen
  }

  lemma {:induction false} RunKeepsInv(s: State, actions: seq<Action>, t: State, cfg: Config)
    requires LeavesOne(cfg) && Inv(s, cfg) && Runs(s, actions, t, cfg)
    ensures Inv(t, cfg)
    decreases |actions|
  {
    if actions != [] {
      StepKeepsInv(s, actions[0], cfg);
      RunKeepsInv(Apply(s, actions[0], cfg), actions[1..], t, cfg);
    }
  }

  /** Some run of the threads from the start leads to `s`. */
  ghost predicate Reachable(s: State, cfg: Config)
    requires cfg.Valid()
  {
    exists actions :: Runs(Init(cfg), actions, s, cfg)
  }

  lemma ReachableInv(t: State, cfg: Config)
    requires LeavesOne(cfg) && Reachable(t, cfg)
    ensures Inv(t, cfg)
  {
    var actions :| Runs(Init(cfg), actions, t, cfg);
    RunKeepsInv(Init(cfg), actions, t, cfg);
  }

  /** Recording is lossless under every interleaving: what was written is a run of the pushed
      elements without gap, repetition or reordering, from the element that was the oldest when the
      recording began; and while it goes on, nothing from there on is popped before it is written. */
  lemma RecordingIsLossless(t: State, cfg: Config)
    requires LeavesOne(cfg) && Reachable(t, cfg)
    ensures var rec, log := t.recording, t.ring.log;
            && rec.Next() <= |log| && rec.recorded == log[rec.from..rec.Next()]
            && (!rec.pc.Idle? ==>
                  forall p | rec.from <= p < t.ring.read :: p < rec.Next() && log[p] == rec.recorded[p - rec.from])
  {
    ReachableInv(t, cfg);
  }

  /** What the recorder dereferences is the next element to write, which is then live, or the one it
      wrote last, whose slot was not reused even if it has been popped meanwhile. The watermark tells
      them apart, and only the next one is written. */
  lemma RecorderReadsNextOrLast(t: State, cfg: Config)
    requires LeavesOne(cfg) && Reachable(t, cfg) && t.recording.pc.Dereferencing?
    ensures t.recording.pc.index < |t.ring.slots| && ReadsNextOrLast(t.ring, t.recording)
    ensures AfterElement(t.recording, t.ring.slots[t.recording.pc.index], cfg.span).recorded
         == t.recording.recorded + if ReadsNext(t.ring, t.recording) then [t.ring.slots[t.recording.pc.index]] else []
  {
    ReachableInv(t, cfg);
    DereferencedIs(t.ring, t.recording, cfg);
  }

  lemma DereferencedIs(ring: Ring, rec: Recording, cfg: Config)
    requires cfg.Valid() && RingInv(ring, cfg) && LogInv(ring.log, cfg) && RecordingInv(ring, rec, cfg)
    requires rec.pc.Dereferencing?
    ensures rec.pc.index < |ring.slots| && ReadsNextOrLast(ring, rec)
  {
    DereferencedElement(ring, rec, cfg);
    DereferencedIsGood(ring, rec, cfg);
  }

  /** The dereferenced element is at or after the watermark. */
  predicate ReadsNext(ring: Ring, rec: Recording)
    requires rec.pc.Dereferencing? && rec.pc.index < |ring.slots|
  {
    ring.slots[rec.pc.index].timestamp >= rec.watermark
  }

  ghost predicate ReadsNextOrLast(ring: Ring, rec: Recording)
    requires rec.pc.Dereferencing? && rec.pc.index < |ring.slots|
  {
    var e, live := ring.slots[rec.pc.index], GoodIndex(rec.pc.index, ring.readIndex, ring.writeIndex);
    if ReadsNext(ring, rec) then
      ring.read <= rec.Next() < |ring.log| && e == ring.log[rec.Next()] && live
    else
      && rec.recorded != [] && rec.Next() <= |ring.log|
      && e == ring.log[rec.Next() - 1] == rec.recorded[|rec.recorded| - 1]
      && (live <==> ring.read < rec.Next())
  }

  lemma DereferencedIsGood(ring: Ring, rec: Recording, cfg: Config)
    requires cfg.Valid() && RingInv(ring, cfg) && RecordingInv(ring, rec, cfg) && rec.pc.Dereferencing?
    ensures OnNext(ring, rec, rec.pc.index, cfg.size) && rec.Next() < |ring.log| ==>
              GoodIndex(rec.pc.index, ring.readIndex, ring.writeIndex)
    ensures OnLast(ring, rec, rec.pc.index, cfg.size) ==>
              (GoodIndex(rec.pc.index, ring.readIndex, ring.writeIndex) <==> ring.read < rec.Next())
  {
    if OnNext(ring, rec, rec.pc.index, cfg.size) {
      GoodIsLive(ring, rec.Next() - ring.read, cfg.size);
    }
    if OnLast(ring, rec, rec.pc.index, cfg.size) {
      GoodIsLive(ring, if rec.Next() == ring.read then cfg.size - 1 else rec.Next() - 1 - ring.read, cfg.size);
    }
  }

  /** With both indices of the moment good() tells the stored elements from the rest. */
  lemma GoodIsLive(ring: Ring, k: nat, size: nat)
    requires 2 <= size < MAX_SIZE && RingIndices(ring, size) && k < size
    requires ring.writeIndex == Hop(ring.readIndex, Occupancy(ring), size)
    ensures GoodIndex(Hop(ring.readIndex, k, size), ring.readIndex, ring.writeIndex) <==> k < Occupancy(ring)
  {
    GoodSeen(ring, ring.readIndex, k, size);
  }

  /** The monitor: the counter is the number of threads inside, at most one cleanup is under way, and
      it pops or forgets errors only while nobody is inside; nothing ever dereferences a null front. */
  lemma MonitorIsSafe(t: State, cfg: Config)
    requires LeavesOne(cfg) && Reachable(t, cfg)
    ensures var m := t.monitor;
            && !t.fault
            && m.requestsRunning == |m.workers.Keys| + (if t.recording.InsideMonitor() then 1 else 0)
            && |m.cleaners.Keys| <= 1 && (m.cleanupRequested <==> m.cleaners.Keys != {})
            && (forall c | c in m.cleaners && m.cleaners[c].AwaitingDrain? :: Occupancy(t.ring) > cfg.popLimit)
            && (forall c | c in m.cleaners && !m.cleaners[c].AwaitingDrain? ::
                  m.workers.Keys == {} && !t.recording.InsideMonitor())
  {
    ReachableInv(t, cfg);
  }

  // What a cleanup pops

  /** A cleanup starts with the largest number of elements that is not above the configured fraction. */
  lemma CleanupTakesFraction(s: State, c: nat, m: nat, cfg: Config)
    requires LeavesOne(cfg) && Reachable(s, cfg) && Enabled(s, StartPopping(c), cfg)
    ensures Occupancy(s.ring) >= 0 && c in Apply(s, StartPopping(c), cfg).monitor.cleaners
    ensures var next := Apply(s, StartPopping(c), cfg).monitor.cleaners[c];
            next.PoppingFront? && (m <= next.left <==> m * cfg.popDen <= cfg.popNum * Occupancy(s.ring))
  {
    ReachableInv(s, cfg);
    OnlyCleaner(s.monitor, c);
    FractionIsLargest(Occupancy(s.ring), cfg.popNum, cfg.popDen, m);
  }

  /** While no recording is on, nothing is held back: a cleanup pops one element after the other. */
  lemma IdleRecorderHoldsNothingBack(s: State, c: nat, cfg: Config)
    requires LeavesOne(cfg) && Reachable(s, cfg) && s.recording.pc.Idle?
    requires c in s.monitor.cleaners && s.monitor.cleaners[c].PoppingFront? && s.monitor.cleaners[c].left > 0
    ensures Enabled(s, PopOne(c), cfg)
    ensures var t := Apply(s, PopOne(c), cfg);
            && t.ring.read == s.ring.read + 1 && c in t.monitor.cleaners
            && t.monitor.cleaners[c] == PoppingFront(s.monitor.cleaners[c].left - 1)
  {
    ReachableInv(s, cfg);
    assert s.ring.slots[Hop(s.ring.readIndex, 0, cfg.size)] == s.ring.log[s.ring.read + 0];
  }

  /** A cleanup that has popped all it was to, or has met the watermark, pops nothing more. */
  ghost predicate HasPopped(s: State, c: nat) {
    c in s.monitor.cleaners && s.monitor.cleaners[c].ForgettingErrors?
  }

  ghost predicate StillPops(s: State, c: nat, left: nat) {
    c in s.monitor.cleaners && s.monitor.cleaners[c] == PoppingFront(left)
  }

  lemma StepOfCleanup(s: State, a: Action, c: nat, left: nat, cfg: Config)
    requires LeavesOne(cfg) && Inv(s, cfg) && Enabled(s, a, cfg) && StillPops(s, c, left)
    ensures var t := Apply(s, a, cfg);
            || (t.ring.read == s.ring.read && StillPops(t, c, left) && a != PopOne(c))
            || (t.ring.read == s.ring.read + 1 && left > 0 && StillPops(t, c, left - 1))
            || (t.ring.read == s.ring.read && HasPopped(t, c)
                && (left == 0 || (0 <= s.ring.read < |s.ring.log|
                                  && s.ring.log[s.ring.read].timestamp >= s.recording.watermark)))
  {
    PoppingIsAlone(s, c, cfg);
    assert s.ring.slots[Hop(s.ring.readIndex, 0, cfg.size)] == s.ring.log[s.ring.read + 0];
  }

  lemma OnlyEndIsLeft(s: State, a: Action, c: nat, cfg: Config)
    requires cfg.Valid() && MonitorInv(s.monitor, s.recording.InsideMonitor()) && HasPopped(s, c)
    requires Enabled(s, a, cfg) && IsMonitorStep(a)
    ensures a == FinishCleanup(c)
  {
    OnlyCleaner(s.monitor, c);
  }

  lemma StepAfterPopping(s: State, a: Action, c: nat, cfg: Config)
    requires LeavesOne(cfg) && Inv(s, cfg) && Enabled(s, a, cfg) && HasPopped(s, c) && a != FinishCleanup(c)
    ensures Apply(s, a, cfg).ring.read == s.ring.read && HasPopped(Apply(s, a, cfg), c)
  {
    if IsMonitorStep(a) {
      OnlyEndIsLeft(s, a, c, cfg);
    } else if a.Push? {
      PushKeepsRing(s.ring, a.e, cfg);
    } else {
      RecorderStepEnabled(s, a, cfg);
      RecorderStepIs(s, a, cfg);
      RecorderStepKeepsMonitor(s, a, cfg);
    }
  }

  lemma {:induction false} RunAfterPopping(s: State, actions: seq<Action>, t: State, c: nat, cfg: Config)
    requires LeavesOne(cfg) && Inv(s, cfg) && Runs(s, actions, t, cfg) && HasPopped(s, c)
    requires FinishCleanup(c) !in actions
    ensures t.ring.read == s.ring.read && HasPopped(t, c)
    decreases |actions|
  {
    if actions != [] {
      StepKeepsInv(s, actions[0], cfg);
      StepAfterPopping(s, actions[0], c, cfg);
      RunAfterPopping(Apply(s, actions[0], cfg), actions[1..], t, c, cfg);
    }
  }

  /** The cleanup met an element at or after the watermark at `u`, on the way. */
  ghost predicate MetWatermark(s: State, actions: seq<Action>, u: State, read: int, cfg: Config)
    requires cfg.Valid()
  {
    && (exists n :: 0 <= n <= |actions| && Runs(s, actions[..n], u, cfg))
    && 0 <= u.ring.read < |u.ring.log| && u.ring.read == read
    && u.ring.log[u.ring.read].timestamp >= u.recording.watermark
  }

  /** From its start to its end a cleanup pops `left` elements, and fewer only if it meets one at or after
      the watermark. */
  lemma {:induction false} RunOfCleanup(s: State, actions: seq<Action>, t: State, c: nat, left: nat, cfg: Config)
    requires LeavesOne(cfg) && Inv(s, cfg) && Runs(s, actions, t, cfg) && StillPops(s, c, left)
    requires FinishCleanup(c) !in actions
    ensures s.ring.read <= t.ring.read <= s.ring.read + left
    ensures HasPopped(t, c) && t.ring.read < s.ring.read + left ==>
              exists u :: MetWatermark(s, actions, u, t.ring.read, cfg)
    decreases |actions|
  {
    if actions != [] {
      var a, next := actions[0], Apply(s, actions[0], cfg);
      StepKeepsInv(s, a, cfg);
      StepOfCleanup(s, a, c, left, cfg);
      if HasPopped(next, c) {
        RunAfterPopping(next, actions[1..], t, c, cfg);
        assert Runs(s, actions[..0], s, cfg);
        assert left > 0 ==> MetWatermark(s, actions, s, t.ring.read, cfg);
      } else {
        var rest := if next.ring.read == s.ring.read then left else left - 1;
        RunOfCleanup(next, actions[1..], t, c, rest, cfg);
        if u :| MetWatermark(next, actions[1..], u, t.ring.read, cfg) {
          MetLater(s, actions, u, t.ring.read, cfg);
        }
      }
    }
  }

  lemma MetLater(s: State, actions: seq<Action>, u: State, read: int, cfg: Config)
    requires cfg.Valid() && actions != [] && Enabled(s, actions[0], cfg)
    requires MetWatermark(Apply(s, actions[0], cfg), actions[1..], u, read, cfg)
    ensures MetWatermark(s, actions, u, read, cfg)
  {
    var n :| 0 <= n <= |actions| - 1 && Runs(Apply(s, actions[0], cfg), actions[1..][..n], u, cfg);
    assert actions[..n + 1][0] == actions[0] && actions[..n + 1][1..] == actions[1..][..n];
  }

  lemma StartsWithFraction(s: State, c: nat, next: State, cfg: Config)
    requires LeavesOne(cfg) && Reachable(s, cfg) && Enabled(s, StartPopping(c), cfg)
    requires next == Apply(s, StartPopping(c), cfg)
    ensures next.ring == s.ring && Occupancy(next.ring) >= 0 && Inv(next, cfg)
    ensures StillPops(next, c, ToPop(next.ring, cfg))
  {
    ReachableInv(s, cfg);
    StepKeepsInv(s, StartPopping(c), cfg);
    OnlyCleaner(s.monitor, c);
  }

  lemma PartOfFraction(ring: Ring, popped: nat, cfg: Config)
    requires cfg.Valid() && Occupancy(ring) >= 0
    ensures popped * cfg.popDen <= cfg.popNum * Occupancy(ring) <==> popped <= ToPop(ring, cfg)
    ensures (popped + 1) * cfg.popDen <= cfg.popNum * Occupancy(ring) <==> popped < ToPop(ring, cfg)
  {
    FractionIsLargest(Occupancy(ring), cfg.popNum, cfg.popDen, popped);
    FractionIsLargest(Occupancy(ring), cfg.popNum, cfg.popDen, popped + 1);
  }

  /** Of what was stored at `s` no more than the fraction is popped up to `t`, and when the cleanup stops,
      less only after it has met an element at or after the watermark. */
  ghost predicate FractionIsPopped(s: State, c: nat, actions: seq<Action>, t: State, cfg: Config)
    requires cfg.Valid()
  {
    var popped, count := t.ring.read - s.ring.read, Occupancy(s.ring);
    && 0 <= popped && popped * cfg.popDen <= cfg.popNum * count
    && (HasPopped(t, c) && (popped + 1) * cfg.popDen <= cfg.popNum * count ==>
          exists u :: MetWatermark(s, actions, u, t.ring.read, cfg))
  }

  lemma PopsItsFraction(s: State, c: nat, actions: seq<Action>, t: State, cfg: Config)
    requires LeavesOne(cfg) && Inv(s, cfg) && Occupancy(s.ring) >= 0 && StillPops(s, c, ToPop(s.ring, cfg))
    requires Runs(s, actions, t, cfg) && FinishCleanup(c) !in actions
    ensures FractionIsPopped(s, c, actions, t, cfg)
  {
    RunOfCleanup(s, actions, t, c, ToPop(s.ring, cfg), cfg);
    PartOfFraction(s.ring, t.ring.read - s.ring.read, cfg);
  }

  /** In every run a cleanup pops its fraction of what was stored when it started. */
  lemma CleanupPopsItsFraction(s: State, c: nat, next: State, actions: seq<Action>, t: State, cfg: Config)
    requires LeavesOne(cfg) && Reachable(s, cfg) && Enabled(s, StartPopping(c), cfg)
    requires next == Apply(s, StartPopping(c), cfg) && Runs(next, actions, t, cfg) && FinishCleanup(c) !in actions
    ensures next.ring == s.ring && FractionIsPopped(next, c, actions, t, cfg)
  {
    StartsWithFraction(s, c, next, cfg);
    PopsItsFraction(next, c, actions, t, cfg);
  }

  // A pending cleanup

  /** A run during which a cleanup is pending or under way all the time. */
  ghost predicate RunsPending(s: State, actions: seq<Action>, t: State, cfg: Config)
    requires cfg.Valid()
    decreases |actions|
  {
    if actions == [] then
      s == t
    else
      && s.monitor.cleanupRequested && Enabled(s, actions[0], cfg)
      && RunsPending(Apply(s, actions[0], cfg), actions[1..], t, cfg)
  }

  lemma PendingStepOnlyDrains(s: State, a: Action, cfg: Config)
    requires cfg.Valid() && s.monitor.cleanupRequested && Enabled(s, a, cfg)
    ensures var t := Apply(s, a, cfg);
            && t.monitor.workers.Keys <= s.monitor.workers.Keys
            && (t.recording.InsideMonitor() ==> s.recording.InsideMonitor())
            && t.monitor.requestsRunning <= s.monitor.requestsRunning
  {
  }

  /** While a cleanup is pending nobody gets in: over any run the threads inside only become fewer. */
  lemma {:induction false} PendingRunOnlyDrains(s: State, actions: seq<Action>, t: State, cfg: Config)
    requires cfg.Valid() && RunsPending(s, actions, t, cfg)
    ensures t.monitor.workers.Keys <= s.monitor.workers.Keys
    ensures t.recording.InsideMonitor() ==> s.recording.InsideMonitor()
    ensures t.monitor.requestsRunning <= s.monitor.requestsRunning
    decreases |actions|
  {
    if actions != [] {
      PendingStepOnlyDrains(s, actions[0], cfg);
      PendingRunOnlyDrains(Apply(s, actions[0], cfg), actions[1..], t, cfg);
    }
  }

  /** The steps by which the threads inside get out. */
  predicate GetsOut(a: Action) {
    a.LeaveWorker? || a.SampleRead? || a.SampleWrite? || a.Search? || a.LeaveRecorder?
  }

  /** How many steps the recorder is away from the end of its guarded region. */
  function StepsInside(pc: Pc): nat {
    match pc
    case Admitted => 4
    case ReadSampled(_) => 3
    case Sampled(_, _) => 2
    case Searched(_) => 1
    case _ => 0
  }

  lemma RecorderGetsOut(s: State, cfg: Config) returns (a: Action)
    requires cfg.Valid() && RingInv(s.ring, cfg) && RecordingInv(s.ring, s.recording, cfg)
    requires s.recording.InsideMonitor() && !Locked(s.monitor)
    ensures GetsOut(a) && Enabled(s, a, cfg)
    ensures var t := Apply(s, a, cfg);
            && t.monitor.cleaners == s.monitor.cleaners && t.monitor.workers == s.monitor.workers
            && StepsInside(t.recording.pc) < StepsInside(s.recording.pc)
  {
    match s.recording.pc
    case Admitted => a := SampleRead;
    case ReadSampled(_) => a := SampleWrite;
    case Sampled(_, _) => a := Search;
    case Searched(_) => a := LeaveRecorder;
    case _ =>
  }

  lemma WorkerGetsOut(s: State, w: nat, cfg: Config)
    requires cfg.Valid() && w in s.monitor.workers && !Locked(s.monitor)
    ensures Enabled(s, LeaveWorker(w), cfg)
    ensures var t := Apply(s, LeaveWorker(w), cfg);
            && t.monitor.cleaners == s.monitor.cleaners && t.recording == s.recording
            && |t.monitor.workers.Keys| < |s.monitor.workers.Keys|
  {
    assert Apply(s, LeaveWorker(w), cfg).monitor.workers.Keys == s.monitor.workers.Keys - {w};
  }

  /** Whoever is inside can take a step towards the outside. */
  lemma SomeoneGetsOut(s: State, cfg: Config) returns (a: Action)
    requires LeavesOne(cfg) && Inv(s, cfg) && !Locked(s.monitor) && s.monitor.requestsRunning != 0
    ensures GetsOut(a) && Enabled(s, a, cfg)
    ensures var t := Apply(s, a, cfg);
            && t.monitor.cleaners == s.monitor.cleaners
            && StepsInside(t.recording.pc) + |t.monitor.workers.Keys|
               < StepsInside(s.recording.pc) + |s.monitor.workers.Keys|
  {
    if s.recording.InsideMonitor() {
      a := RecorderGetsOut(s, cfg);
    } else {
      var w :| w in s.monitor.workers.Keys;
      WorkerGetsOut(s, w, cfg);
      a := LeaveWorker(w);
    }
  }

  lemma {:induction false} CleanupCanStart(s: State, c: nat, cfg: Config) returns (actions: seq<Action>, t: State)
    requires LeavesOne(cfg) && Inv(s, cfg) && c in s.monitor.cleaners && s.monitor.cleaners[c].AwaitingDrain?
    ensures (forall a | a in actions :: GetsOut(a)) && Runs(s, actions, t, cfg) && Enabled(t, StartPopping(c), cfg)
    decreases StepsInside(s.recording.pc) + |s.monitor.workers.Keys|
  {
    OnlyCleaner(s.monitor, c);
    if s.monitor.requestsRunning == 0 {
      actions, t := [], s;
    } else {
      var a := SomeoneGetsOut(s, cfg);
      StepKeepsInv(s, a, cfg);
      var rest;
      rest, t := CleanupCanStart(Apply(s, a, cfg), c, cfg);
      actions := [a] + rest;
      assert actions[1..] == rest;
    }
  }

  /** And a pending cleanup does get its turn: in every reachable state the threads inside need only
      go on and leave, and it may start. */
  lemma PendingCleanupDrains(s: State, c: nat, cfg: Config)
    requires LeavesOne(cfg) && Reachable(s, cfg) && c in s.monitor.cleaners && s.monitor.cleaners[c].AwaitingDrain?
    ensures exists actions, t ::
              (forall a | a in actions :: GetsOut(a)) && Runs(s, actions, t, cfg) && Enabled(t, StartPopping(c), cfg)
  {
    ReachableInv(s, cfg);
    var actions, t := CleanupCanStart(s, c, cfg);
  }

  /** The stored elements, oldest first. */
  ghost function Live(ring: Ring): seq<Element>
    requires 0 <= ring.read <= |ring.log|
  {
    ring.log[ring.read..]
  }

  lemma StepWhileInside(s: State, a: Action, w: nat, cfg: Config)
    requires LeavesOne(cfg) && Inv(s, cfg) && Enabled(s, a, cfg) && w in s.monitor.workers && a != LeaveWorker(w)
    ensures var t := Apply(s, a, cfg);
            && w in t.monitor.workers && t.monitor.workers[w] == s.monitor.workers[w]
            && t.ring.read == s.ring.read && s.ring.log <= t.ring.log
  {
    if a.PopOne? {
      PoppingIsAlone(s, a.c, cfg);
    }
  }

  lemma {:induction false} RunWhileInside(s: State, actions: seq<Action>, t: State, w: nat, cfg: Config)
    requires LeavesOne(cfg) && Inv(s, cfg) && Runs(s, actions, t, cfg)
    requires w in s.monitor.workers && LeaveWorker(w) !in actions
    ensures w in t.monitor.workers && t.monitor.workers[w] == s.monitor.workers[w]
    ensures t.ring.read == s.ring.read && s.ring.log <= t.ring.log
    decreases |actions|
  {
    if actions != [] {
      StepKeepsInv(s, actions[0], cfg);
      StepWhileInside(s, actions[0], w, cfg);
      RunWhileInside(Apply(s, actions[0], cfg), actions[1..], t, w, cfg);
    }
  }

  lemma AdmissionSamples(s: State, w: nat, next: State, cfg: Config)
    requires LeavesOne(cfg) && Inv(s, cfg) && Enabled(s, EnterWorker(w), cfg) && next == Apply(s, EnterWorker(w), cfg)
    ensures Inv(next, cfg) && next.ring == s.ring && w in next.monitor.workers
    ensures 0 <= s.ring.read && 0 <= Occupancy(s.ring) < cfg.size == |s.ring.slots| && s.ring.readIndex < cfg.size
    ensures next.monitor.workers[w] == Inside(s.ring.read, s.ring.readIndex, Occupancy(s.ring))
  {
    StepKeepsInv(s, EnterWorker(w), cfg);
  }

  ghost predicate IsPinned(ring: Ring, later: Ring, k: nat, size: nat)
    requires ring.readIndex < size && k < size
  {
    var slot, p := Hop(ring.readIndex, k, size), ring.read + k;
    && 0 <= p < |ring.log| && |later.slots| == size == |ring.slots|
    && later.slots[slot] == ring.slots[slot] == ring.log[p]
    && GoodIndex(slot, later.readIndex, later.writeIndex)
  }

  lemma GrowingRingIsPinned(ring: Ring, later: Ring, k: nat, cfg: Config)
    requires cfg.Valid() && RingInv(ring, cfg) && RingInv(later, cfg) && k < Occupancy(ring)
    requires later.read == ring.read && later.readIndex == ring.readIndex && ring.log <= later.log
    ensures IsPinned(ring, later, k, cfg.size)
  {
    GoodIsLive(later, k, cfg.size);
    assert later.slots[Hop(later.readIndex, k, cfg.size)] == later.log[later.read + k];
  }

  /** The slots a running request may point into stay as they were when it was let in: until it leaves,
      each of the elements stored then is live in the slot it was in. */
  lemma RunningRequestsArePinned(s: State, w: nat, next: State, actions: seq<Action>, t: State, k: nat, cfg: Config)
    requires LeavesOne(cfg) && Reachable(s, cfg) && Enabled(s, EnterWorker(w), cfg) && k < Occupancy(s.ring)
    requires next == Apply(s, EnterWorker(w), cfg) && Runs(next, actions, t, cfg) && LeaveWorker(w) !in actions
    ensures s.ring.readIndex < cfg.size && k < cfg.size && IsPinned(s.ring, t.ring, k, cfg.size)
  {
    ReachableInv(s, cfg);
    AdmissionSamples(s, w, next, cfg);
    RunKeepsInv(next, actions, t, cfg);
    RunWhileInside(next, actions, t, w, cfg);
    GrowingRingIsPinned(s.ring, t.ring, k, cfg);
  }

  /** While a request runs, the buffer it sees only grows at the end: what is stored at one moment of it
      is a beginning of what is stored at any later one. */
  lemma RequestsSeeGrowingBuffer(s: State, actions: seq<Action>, t: State, w: nat, cfg: Config)
    requires LeavesOne(cfg) && Reachable(s, cfg) && Runs(s, actions, t, cfg)
    requires w in s.monitor.workers && LeaveWorker(w) !in actions
    ensures w in t.monitor.workers
    ensures 0 <= s.ring.read <= |s.ring.log| && 0 <= t.ring.read <= |t.ring.log| && Live(s.ring) <= Live(t.ring)
  {
    ReachableInv(s, cfg);
    RunKeepsInv(s, actions, t, cfg);
    RunWhileInside(s, actions, t, w, cfg);
  }

  function Newest(ring: Ring): nat {
    if ring.log == [] then 0 else ring.log[|ring.log| - 1].timestamp
  }

  /** No step lowers the newest timestamp or takes the last element away. */
  lemma StepKeepsNewest(s: State, a: Action, cfg: Config)
    requires LeavesOne(cfg) && Inv(s, cfg) && Enabled(s, a, cfg)
    ensures Newest(s.ring) <= Newest(Apply(s, a, cfg).ring)
    ensures Occupancy(s.ring) >= 1 ==> Occupancy(Apply(s, a, cfg).ring) >= 1
  {
    if a.Push? {
      PushKeepsRing(s.ring, a.e, cfg);
    } else if a.PopOne? {
      PopOneLeavesOne(s, a, cfg);
    } else {
      OtherStepsKeepRing(s, a, cfg);
    }
  }

  lemma PopOneLeavesOne(s: State, a: Action, cfg: Config)
    requires cfg.Valid() && CleanersInv(s.monitor, s.ring, cfg) && Enabled(s, a, cfg) && a.PopOne?
    ensures Apply(s, a, cfg).ring.log == s.ring.log && Occupancy(Apply(s, a, cfg).ring) >= 1
  {
  }

  lemma OtherStepsKeepRing(s: State, a: Action, cfg: Config)
    requires cfg.Valid() && Enabled(s, a, cfg) && !a.Push? && !a.PopOne?
    ensures Apply(s, a, cfg).ring == s.ring
  {
  }

  lemma {:induction false} RunKeepsNewest(s: State, actions: seq<Action>, t: State, cfg: Config)
    requires LeavesOne(cfg) && Inv(s, cfg) && Runs(s, actions, t, cfg)
    ensures Newest(s.ring) <= Newest(t.ring)
    ensures Occupancy(s.ring) >= 1 ==> Occupancy(t.ring) >= 1
    decreases |actions|
  {
    if actions != [] {
      StepKeepsInv(s, actions[0], cfg);
      StepKeepsNewest(s, actions[0], cfg);
      RunKeepsNewest(Apply(s, actions[0], cfg), actions[1..], t, cfg);
    }
  }

  /** A retry triggered by data is decisive: once the window ends before the newest element, whatever
      is pushed and cleaned up before the retry runs, whichever oldest timestamp it samples and whatever
      its search finds, the buffer is not empty and the answer is neither "not yet" nor "partial" for any
      window that does not begin more than a tick after its end. */
  lemma DataTriggeredRetryIsDecisive(s: State, between: seq<Action>, t: State,
                                     begin: nat, end: nat, oldest: nat, found: bool, cfg: Config)
    requires LeavesOne(cfg) && Reachable(s, cfg) && Runs(s, between, t, cfg)
    requires Occupancy(s.ring) >= 1 && end < Newest(s.ring) && begin <= end + 1
    ensures Occupancy(t.ring) >= 1
    ensures var code := ClassifyFound(oldest, Newest(t.ring), found, begin, end); code != NotYet && code != Partial
  {
    ReachableInv(s, cfg);
    RunKeepsNewest(s, between, t, cfg);
  }

  // Where the recorder gets stuck

  /** Everything written is popped, and the oldest element is strictly past the watermark. */
  ghost predicate Stalled(s: State) {
    var rec, ring := s.recording, s.ring;
    && (rec.pc.LoopTop? || rec.pc.Entering? || rec.pc.Admitted? || rec.pc.ReadSampled? || rec.pc.Sampled?
        || rec.pc == Searched(END_INDEX) || (rec.pc.Scanning? && rec.pc.index == END_INDEX))
    && rec.watermark > 0
    && ring.read == rec.Next() < |ring.log| && ring.log[ring.read].timestamp > rec.watermark
  }

  /** The recorder of a stalled recording writes nothing: its search answers nothing. */
  lemma StalledRecorder(s: State, a: Action, cfg: Config)
    requires LeavesOne(cfg) && Inv(s, cfg) && Stalled(s) && Enabled(s, a, cfg) && !a.StopRecording?
    requires RecorderEnabled(s.ring, s.recording, a)
    ensures Stalled(Apply(s, a, cfg)) && Apply(s, a, cfg).recording.recorded == s.recording.recorded
    ensures Apply(s, a, cfg).ring == s.ring
  {
    RecorderStepIs(s, a, cfg);
    if a.Search? {
      SearchFindsNext(s.ring, s.recording, cfg);
    }
  }

  /** And the cleanup does not pop the front. */
  lemma StalledPop(s: State, c: nat, cfg: Config)
    requires LeavesOne(cfg) && Inv(s, cfg) && Stalled(s) && Enabled(s, PopOne(c), cfg)
    ensures Apply(s, PopOne(c), cfg).ring == s.ring && Apply(s, PopOne(c), cfg).recording == s.recording
  {
    assert s.ring.slots[Hop(s.ring.readIndex, 0, cfg.size)] == s.ring.log[s.ring.read + 0];
  }

  /** A stalled recording stays stalled until it is stopped: it writes nothing more, and the cleanup
      can pop nothing more, whatever the producer pushes. */
  lemma StalledStays(s: State, a: Action, cfg: Config)
    requires LeavesOne(cfg) && Reachable(s, cfg) && Enabled(s, a, cfg) && Stalled(s) && !a.StopRecording?
    ensures Stalled(Apply(s, a, cfg))
    ensures Apply(s, a, cfg).recording.recorded == s.recording.recorded && Apply(s, a, cfg).ring.read == s.ring.read
  {
    ReachableInv(s, cfg);
    if a.PopOne? {
      StalledPop(s, a.c, cfg);
    } else if !a.Push? && !IsMonitorStep(a) {
      RecorderStepEnabled(s, a, cfg);
      StalledRecorder(s, a, cfg);
    }
  }

  /** A stall takes a gap: something was written, and more than a span lies between the last written
      element and the one after it. */
  lemma StallNeedsGap(s: State, cfg: Config)
    requires LeavesOne(cfg) && Reachable(s, cfg) && Stalled(s)
    ensures var rec, log := s.recording, s.ring.log;
            && rec.recorded != [] && 1 <= rec.Next() < |log|
            && log[rec.Next()].timestamp > log[rec.Next() - 1].timestamp + cfg.span
  {
    ReachableInv(s, cfg);
  }

  /** So a recording of elements that follow each other without gap never stalls. */
  lemma GapFreeNeverStalls(s: State, cfg: Config)
    requires LeavesOne(cfg) && Reachable(s, cfg)
    requires forall i | 1 <= i < |s.ring.log| :: s.ring.log[i].timestamp == s.ring.log[i - 1].timestamp + cfg.span
    ensures !Stalled(s)
  {
    if Stalled(s) {
      StallNeedsGap(s, cfg);
    }
  }
}
