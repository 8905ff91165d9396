/** The threads that share the latency buffer: the producer, the request workers, the cleanup and
    the recorder. Each index load of the recorder is a step of its own, so that front(), the search
    and every good() compare a read index and a write index of different moments. A push and a
    cleanup iteration (look at the front, then pop) are one step each. */
module RecordingProtocol {
  import opened Arithmetic
  import opened Elements
  import opened IterableQueueModel
  import opened Searches

  /** `size` slots; `span` ticks per element; a cleanup starts above `popLimit` elements and pops the
      fraction popNum / popDen of them. */
  datatype Config = Config(size: nat, span: nat, popLimit: nat, popNum: nat, popDen: nat) {
    ghost predicate Valid() {
      2 <= size < MAX_SIZE && 1 <= span < U64 && popNum <= popDen && popDen >= 1
    }
  }

  const MAX_TS: nat := U64 - 1
  const MAX_CHUNKS: nat := 1000

  /** The ring, with the history `log` of all written elements; the oldest live one is log[read]. */
  datatype Ring = Ring(log: seq<Element>, read: nat, slots: seq<Element>, readIndex: nat, writeIndex: nat)

  datatype Cleaner = AwaitingDrain | PoppingFront(left: nat) | ForgettingErrors

  /** A worker remembers the oldest live element and the occupancy when it was let in. */
  datatype Worker = Inside(readAt: nat, readIndexAt: nat, countAt: nat)

  /** What m_cv_mutex guards. */
  datatype Monitor = Monitor(cleanupRequested: bool, requestsRunning: int, cleaners: map<nat, Cleaner>,
                             workers: map<nat, Worker>)

  /** Where the recorder stands; `index` is its iterator and `n` the elements written in this pass. With
      a `readSample` it has loaded the read index and is about to load the write index. */
  datatype Pc =
    | Idle
    | LoopTop
    | LoadingFront
    | FrontSampled(readSample: nat)
    | FrontLoaded(index: nat)
    | Entering
    | Admitted
    | ReadSampled(readSample: nat)
    | Sampled(readSample: nat, writeSample: nat)
    | Searched(index: nat)
    | Scanning(index: nat, n: nat)
    | ScanningFrom(index: nat, n: nat, readSample: nat)
    | Dereferencing(index: nat, n: nat)
    | Bumping(index: nat, n: nat, next: nat)
    | Incrementing(index: nat, n: nat)
    | IncrementingFrom(index: nat, n: nat, readSample: nat)
    | Incremented(index: nat, n: nat)
    | IncrementedFrom(index: nat, n: nat, readSample: nat)

  /** The watermark m_next_timestamp_to_record, and the history of the current recording: where the
      oldest element was when it began, and what was written. */
  datatype Recording = Recording(pc: Pc, watermark: nat, from: nat, recorded: seq<Element>) {
    function Next(): nat {
      from + |recorded|
    }

    /** Between its two monitor sections the recorder counts as a running request. */
    predicate InsideMonitor() {
      pc.Admitted? || pc.ReadSampled? || pc.Sampled? || pc.Searched?
    }
  }

  datatype State = State(ring: Ring, monitor: Monitor, recording: Recording, fault: bool)

  datatype Action =
    | Push(e: Element)
    | EnterWorker(t: nat) | LeaveWorker(t: nat)
    | RequestCleanup(c: nat) | StartPopping(c: nat) | PopOne(c: nat) | FinishCleanup(c: nat)
    | StartRecording | Poll | StopRecording
    | SampleRead
    | LoadFront | SetWatermark | EnterRecorder | SampleWrite | Search | LeaveRecorder
    | CheckGood | WriteElement | BumpWatermark | IncrementIndex | CheckIncremented

  function Occupancy(ring: Ring): int {
    |ring.log| - ring.read
  }

  /** The mutex is held throughout a cleanup, but not while it waits for the requests to drain. */
  ghost predicate Locked(m: Monitor) {
    exists c :: c in m.cleaners && !m.cleaners[c].AwaitingDrain?
  }

  function Init(cfg: Config): State {
    State(Ring([], 0, seq(cfg.size, _ => Element(0, [])), 0, 0), Monitor(false, 0, map[], map[]),
          Recording(Idle, MAX_TS, 0, []), false)
  }

  function Wrap(i: nat, size: nat): nat {
    if i + 1 == size then 0 else i + 1
  }

  /** The elements between two index samples, as the search reads them. */
  function Stretch(slots: seq<Element>, r: nat, w: nat): seq<Element>
    requires r < |slots| && w < |slots|
  {
    seq(Distance(r, w, |slots|), k requires 0 <= k < Distance(r, w, |slots|) => slots[Hop(r, k, |slots|)])
  }

  /** The iterator index lower_bound returns for these samples. */
  function SearchIndex(slots: seq<Element>, r: nat, w: nat, key: nat): nat
    requires r < |slots| && w < |slots|
  {
    var c := Stretch(slots, r, w);
    if c == [] || key < c[0].timestamp then END_INDEX else Hop(r, FirstAtLeast(c, key), |slots|)
  }

  ghost predicate Enabled(s: State, a: Action, cfg: Config) {
    var m, rec, ring := s.monitor, s.recording, s.ring;
    match a
    case Push(e) =>
      && ring.writeIndex < |ring.slots|
      && e.timestamp + cfg.span < MAX_TS
      && (ring.log != [] ==> ring.log[|ring.log| - 1].timestamp + cfg.span <= e.timestamp)
    case EnterWorker(t) => t !in m.workers && !Locked(m) && !m.cleanupRequested
    case LeaveWorker(t) => t in m.workers && !Locked(m)
    case RequestCleanup(c) => c !in m.cleaners && !Locked(m) && !m.cleanupRequested && Occupancy(ring) > cfg.popLimit
    case StartPopping(c) => c in m.cleaners && m.cleaners[c].AwaitingDrain? && !Locked(m) && m.requestsRunning == 0
    case PopOne(c) => c in m.cleaners && m.cleaners[c].PoppingFront? && ring.readIndex < |ring.slots|
    case FinishCleanup(c) => c in m.cleaners && m.cleaners[c].ForgettingErrors?
    case EnterRecorder => RecorderEnabled(ring, rec, a) && !Locked(m) && !m.cleanupRequested
    case LeaveRecorder => RecorderEnabled(ring, rec, a) && !Locked(m)
    case _ => RecorderEnabled(ring, rec, a)
  }

  /** The next thing the recorder does is to load the read index. */
  predicate BeforeSample(pc: Pc) {
    pc.LoadingFront? || pc.Admitted? || pc.Scanning? || pc.Incrementing? || pc.Incremented?
  }

  /** The read index is loaded; only past-the-end needs no load to be told from a good iterator. */
  function AfterSample(pc: Pc, readIndex: nat): Pc
    requires BeforeSample(pc)
  {
    match pc
    case LoadingFront => FrontSampled(readIndex)
    case Admitted => ReadSampled(readIndex)
    case Scanning(index, n) => if index == END_INDEX then LoopTop else ScanningFrom(index, n, readIndex)
    case Incrementing(index, n) => IncrementingFrom(index, n, readIndex)
    case Incremented(index, n) => IncrementedFrom(index, n, readIndex)
  }

  /** Whether the recorder stands where the step starts. */
  predicate RecorderEnabled(ring: Ring, rec: Recording, a: Action) {
    match a
    case StartRecording => rec.pc.Idle?
    case Poll => rec.pc.LoopTop?
    case StopRecording => rec.pc.LoopTop?
    case SampleRead => BeforeSample(rec.pc)
    case LoadFront => rec.pc.FrontSampled?
    case SetWatermark => rec.pc.FrontLoaded? && (rec.pc.index == END_INDEX || rec.pc.index < |ring.slots|)
    case EnterRecorder => rec.pc.Entering?
    case SampleWrite => rec.pc.ReadSampled?
    case Search => rec.pc.Sampled? && rec.pc.readSample < |ring.slots| && rec.pc.writeSample < |ring.slots|
    case LeaveRecorder => rec.pc.Searched?
    case CheckGood => rec.pc.ScanningFrom?
    case WriteElement => rec.pc.Dereferencing? && rec.pc.index < |ring.slots|
    case BumpWatermark => rec.pc.Bumping?
    case IncrementIndex => rec.pc.IncrementingFrom?
    case CheckIncremented => rec.pc.IncrementedFrom?
    case _ => false
  }

  // The ring

  function PushRing(ring: Ring, e: Element): Ring
    requires ring.writeIndex < |ring.slots|
  {
    if Wrap(ring.writeIndex, |ring.slots|) != ring.readIndex then
      ring.(log := ring.log + [e], slots := ring.slots[ring.writeIndex := e],
            writeIndex := Wrap(ring.writeIndex, |ring.slots|))
    else
      ring
  }

  function PopRing(ring: Ring): Ring {
    ring.(read := ring.read + 1, readIndex := Wrap(ring.readIndex, |ring.slots|))
  }

  // The monitor

  function ToPop(ring: Ring, cfg: Config): nat
    requires cfg.popDen >= 1 && Occupancy(ring) >= 0
  {
    Fraction(Occupancy(ring), cfg.popNum, cfg.popDen)
  }

  predicate IsMonitorStep(a: Action) {
    a.EnterWorker? || a.LeaveWorker? || a.RequestCleanup? || a.StartPopping? || a.PopOne? || a.FinishCleanup?
  }

  ghost function ApplyMonitor(s: State, a: Action, cfg: Config): State
    requires Enabled(s, a, cfg) && cfg.Valid()
    requires IsMonitorStep(a)
  {
    var m, ring := s.monitor, s.ring;
    match a
    case EnterWorker(t) =>
      s.(monitor := m.(requestsRunning := m.requestsRunning + 1,
                       workers := m.workers[t := Inside(ring.read, ring.readIndex,
                                                        if Occupancy(ring) < 0 then 0 else Occupancy(ring))]))
    case LeaveWorker(t) =>
      s.(monitor := m.(requestsRunning := m.requestsRunning - 1, workers := m.workers - {t}))
    case RequestCleanup(c) =>
      s.(monitor := m.(cleanupRequested := true, cleaners := m.cleaners[c := AwaitingDrain]))
    case StartPopping(c) =>
      var next := if Occupancy(ring) > cfg.popLimit then PoppingFront(ToPop(ring, cfg)) else ForgettingErrors;
      s.(monitor := m.(cleaners := m.cleaners[c := next]))
    case PopOne(c) =>
      var left := m.cleaners[c].left;
      if left == 0 then
        s.(monitor := m.(cleaners := m.cleaners[c := ForgettingErrors]))
      else if ring.readIndex == ring.writeIndex then
        s.(fault := true)
      else if ring.slots[ring.readIndex].timestamp < s.recording.watermark then
        s.(ring := PopRing(ring), monitor := m.(cleaners := m.cleaners[c := PoppingFront(left - 1)]))
      else
        s.(monitor := m.(cleaners := m.cleaners[c := ForgettingErrors]))
    case FinishCleanup(c) =>
      State(ring, m.(cleanupRequested := false, cleaners := m.cleaners - {c}), s.recording,
            s.fault || ring.readIndex == ring.writeIndex)
  }

  // The recorder

  /** The dereferenced element is written, unless it is before the watermark. */
  function AfterElement(rec: Recording, e: Element, span: nat): Recording
    requires rec.pc.Dereferencing?
  {
    if e.timestamp >= rec.watermark then
      rec.(pc := Bumping(rec.pc.index, rec.pc.n + 1, e.timestamp + span), recorded := rec.recorded + [e])
    else
      rec.(pc := Incrementing(rec.pc.index, rec.pc.n))
  }

  function ApplyRecorder(ring: Ring, cleanupRequested: bool, rec: Recording, a: Action, cfg: Config): Recording
    requires RecorderEnabled(ring, rec, a)
  {
    match a
    case StartRecording => Recording(LoopTop, 0, ring.read, [])
    case StopRecording => rec.(pc := Idle, watermark := MAX_TS)
    case Poll =>
      if rec.watermark == 0 then rec.(pc := LoadingFront)
      else if !cleanupRequested then rec.(pc := Entering)
      else rec
    case SampleRead => rec.(pc := AfterSample(rec.pc, ring.readIndex))
    case LoadFront =>
      rec.(pc := FrontLoaded(if rec.pc.readSample == ring.writeIndex then END_INDEX else rec.pc.readSample))
    case SetWatermark =>
      rec.(pc := Entering, watermark := if rec.pc.index == END_INDEX then 0 else ring.slots[rec.pc.index].timestamp)
    case EnterRecorder => rec.(pc := Admitted)
    case SampleWrite => rec.(pc := Sampled(rec.pc.readSample, ring.writeIndex))
    case Search =>
      rec.(pc := Searched(SearchIndex(ring.slots, rec.pc.readSample, rec.pc.writeSample, rec.watermark)))
    case LeaveRecorder => rec.(pc := Scanning(rec.pc.index, 0))
    case CheckGood =>
      if GoodIndex(rec.pc.index, rec.pc.readSample, ring.writeIndex) && rec.pc.n < MAX_CHUNKS then
        rec.(pc := Dereferencing(rec.pc.index, rec.pc.n))
      else
        rec.(pc := LoopTop)
    case WriteElement => AfterElement(rec, ring.slots[rec.pc.index], cfg.span)
    case BumpWatermark => rec.(pc := Incrementing(rec.pc.index, rec.pc.n), watermark := rec.pc.next)
    case IncrementIndex =>
      var next := if GoodIndex(rec.pc.index, rec.pc.readSample, ring.writeIndex)
                  then Wrap(rec.pc.index, |ring.slots|) else rec.pc.index;
      rec.(pc := Incremented(next, rec.pc.n))
    case CheckIncremented =>
      var next := if GoodIndex(rec.pc.index, rec.pc.readSample, ring.writeIndex) then rec.pc.index else END_INDEX;
      rec.(pc := Scanning(next, rec.pc.n))
    case _ => rec
  }

  ghost function Apply(s: State, a: Action, cfg: Config): State
    requires Enabled(s, a, cfg) && cfg.Valid()
  {
    if a.Push? then
      s.(ring := PushRing(s.ring, a.e))
    else if IsMonitorStep(a) then
      ApplyMonitor(s, a, cfg)
    else
      var running := s.monitor.requestsRunning;
      State(s.ring,
            s.monitor.(requestsRunning := if a.EnterRecorder? then running + 1
                                          else if a.LeaveRecorder? then running - 1 else running),
            ApplyRecorder(s.ring, s.monitor.cleanupRequested, s.recording, a, cfg), s.fault)
  }

  // The invariant, one part for each piece of shared state

  ghost predicate RingInv(ring: Ring, cfg: Config) {
    && |ring.slots| == cfg.size && ring.readIndex < cfg.size && 0 <= Occupancy(ring) < cfg.size
    && ring.writeIndex == Hop(ring.readIndex, Occupancy(ring), cfg.size)
    && (forall k | 0 <= k < Occupancy(ring) :: ring.slots[Hop(ring.readIndex, k, cfg.size)] == ring.log[ring.read + k])
    && ReservedInv(ring, cfg.size)
  }

  /** The slot before the read index is not written again before the read index moves on: it keeps the
      bytes of the element popped last. */
  ghost predicate ReservedInv(ring: Ring, size: nat)
    requires ring.readIndex < size == |ring.slots| && 1 <= size
  {
    0 < ring.read <= |ring.log| ==> ring.slots[Hop(ring.readIndex, size - 1, size)] == ring.log[ring.read - 1]
  }

  ghost predicate LogInv(log: seq<Element>, cfg: Config) {
    Spaced(log, cfg.span) && forall i | 0 <= i < |log| :: log[i].timestamp + cfg.span < MAX_TS
  }

  /** The count is the number of threads in the guarded region; there is at most one cleanup; and it
      holds the mutex only while that count is zero. */
  ghost predicate MonitorInv(m: Monitor, recorderInside: bool) {
    && m.requestsRunning == |m.workers.Keys| + (if recorderInside then 1 else 0)
    && |m.cleaners.Keys| <= 1
    && (m.cleanupRequested <==> m.cleaners.Keys != {})
    && (Locked(m) ==> m.requestsRunning == 0)
  }

  /** While a worker is inside, nothing is popped: the slots it may point into stay live. */
  ghost predicate WorkersInv(m: Monitor, ring: Ring) {
    forall t | t in m.workers ::
      && m.workers[t].readAt == ring.read && m.workers[t].readIndexAt == ring.readIndex
      && m.workers[t].countAt <= Occupancy(ring)
  }

  /** A cleanup starts above the limit and always leaves an element behind. */
  ghost predicate CleanersInv(m: Monitor, ring: Ring, cfg: Config) {
    forall c | c in m.cleaners ::
      match m.cleaners[c]
      case AwaitingDrain => Occupancy(ring) > cfg.popLimit
      case PoppingFront(left) => left < Occupancy(ring)
      case ForgettingErrors => Occupancy(ring) >= 1
  }

  /** What has been written is a run of the log without gap. */
  ghost predicate RecordedInv(log: seq<Element>, rec: Recording) {
    rec.Next() <= |log| && rec.recorded == log[rec.from..rec.Next()]
  }

  /** How far the watermark has followed what is written: all of it, but between a write and the update
      only what was written before. */
  ghost function Done(rec: Recording): int {
    if rec.pc.Bumping? then rec.Next() - 1 else rec.Next()
  }

  /** The watermark is one span after the last element it has followed, and before that the timestamp of
      the element the recording begins with, or 0 while that is unknown. */
  ghost predicate WatermarkInv(ring: Ring, rec: Recording, cfg: Config)
    requires RecordedInv(ring.log, rec)
  {
    var done := Done(rec);
    && rec.from <= ring.read <= done
    && (if done == rec.from then rec.watermark == 0 || (done < |ring.log| && rec.watermark == ring.log[done].timestamp)
        else rec.watermark == ring.log[done - 1].timestamp + cfg.span)
    && (rec.pc.Bumping? ==> rec.recorded != [] && rec.pc.next == ring.log[done].timestamp + cfg.span)
  }

  /** So it separates the elements that are written from those that are not. */
  lemma WatermarkSeparates(ring: Ring, rec: Recording, cfg: Config, p: nat)
    requires cfg.Valid() && LogInv(ring.log, cfg) && RecordedInv(ring.log, rec) && WatermarkInv(ring, rec, cfg)
    requires rec.from <= p < |ring.log|
    ensures p < Done(rec) <==> ring.log[p].timestamp < rec.watermark
  {
    var done := Done(rec);
    if done == rec.from {
      assert p > done ==> ring.log[done].timestamp + cfg.span <= ring.log[p].timestamp;
    } else {
      assert p < done - 1 ==> ring.log[p].timestamp + cfg.span <= ring.log[done - 1].timestamp;
      assert p >= done ==> ring.log[done - 1].timestamp + cfg.span <= ring.log[p].timestamp;
    }
  }

  /** `index` is the slot of the next element to write. */
  ghost predicate OnNext(ring: Ring, rec: Recording, index: nat, size: nat) {
    && ring.read <= rec.Next() <= ring.read + size && ring.readIndex < size
    && index == Hop(ring.readIndex, rec.Next() - ring.read, size)
  }

  /** `index` is the slot of the last written element, which may have been popped meanwhile. */
  ghost predicate OnLast(ring: Ring, rec: Recording, index: nat, size: nat) {
    && ring.read <= rec.Next() <= ring.read + size && ring.readIndex < size && rec.recorded != []
    && index == Hop(ring.readIndex, if rec.Next() == ring.read then size - 1 else rec.Next() - 1 - ring.read, size)
  }

  /** Where the recorder's iterator points, at every point of its loop. */
  ghost predicate IteratorInv(ring: Ring, rec: Recording, size: nat)
    requires RingIndices(ring, size)
  {
    match rec.pc
    case Idle => true
    case LoopTop => true
    case LoadingFront => rec.watermark == 0
    case FrontSampled(r) => rec.watermark == 0 && r == ring.readIndex
    case FrontLoaded(index) =>
      rec.watermark == 0 && (index == END_INDEX || (index == ring.readIndex && Occupancy(ring) > 0))
    case Entering => true
    case Admitted => true
    case ReadSampled(r) => r == ring.readIndex
    case Sampled(r, w) =>
      r == ring.readIndex && w < size && rec.Next() - ring.read <= Distance(r, w, size) <= Occupancy(ring)
    case Searched(index) => index == END_INDEX || OnNext(ring, rec, index, size)
    case Scanning(index, _) => index == END_INDEX || OnEither(ring, rec, index, size)
    case ScanningFrom(index, _, r) => OnEither(ring, rec, index, size) && Behind(ring, rec, r, size)
    case Dereferencing(index, _) =>
      (OnNext(ring, rec, index, size) && rec.Next() < |ring.log|) || OnLast(ring, rec, index, size)
    case Bumping(index, _, _) => OnLast(ring, rec, index, size)
    case Incrementing(index, _) => OnLast(ring, rec, index, size)
    case IncrementingFrom(index, _, r) => OnLast(ring, rec, index, size) && Behind(ring, rec, r, size)
    case Incremented(index, _) => OnEither(ring, rec, index, size)
    case IncrementedFrom(index, _, r) => OnEither(ring, rec, index, size) && Behind(ring, rec, r, size)
  }

  ghost predicate OnEither(ring: Ring, rec: Recording, index: nat, size: nat) {
    OnNext(ring, rec, index, size) || OnLast(ring, rec, index, size)
  }

  /** A read index loaded a while ago: the elements from there up to the next one to write still fit in
      the ring. */
  ghost predicate Behind(ring: Ring, rec: Recording, readSample: nat, size: nat)
    requires ring.readIndex < size
  {
    readSample < size && Distance(readSample, ring.readIndex, size) + (rec.Next() - ring.read) < size
  }

  ghost predicate RingIndices(ring: Ring, size: nat) {
    ring.readIndex < size && 0 <= Occupancy(ring) < size
  }

  ghost predicate RecordingInv(ring: Ring, rec: Recording, cfg: Config)
    requires RingInv(ring, cfg)
  {
    && RecordedInv(ring.log, rec)
    && if rec.pc.Idle? then rec.watermark == MAX_TS
       else WatermarkInv(ring, rec, cfg) && IteratorInv(ring, rec, cfg.size)
  }

  ghost predicate Inv(s: State, cfg: Config) {
    && RingInv(s.ring, cfg) && LogInv(s.ring.log, cfg)
    && MonitorInv(s.monitor, s.recording.InsideMonitor())
    && WorkersInv(s.monitor, s.ring)
    && CleanersInv(s.monitor, s.ring, cfg)
    && RecordingInv(s.ring, s.recording, cfg)
    && !s.fault
  }

  // Writes

  lemma PushKeepsRing(ring: Ring, e: Element, cfg: Config)
    requires cfg.Valid() && RingInv(ring, cfg)
    ensures RingInv(PushRing(ring, e), cfg)
    ensures PushRing(ring, e) == ring || PushRing(ring, e).log == ring.log + [e]
    ensures PushRing(ring, e).read == ring.read && PushRing(ring, e).readIndex == ring.readIndex
  {
    var next := PushRing(ring, e);
    if next != ring {
      assert Occupancy(ring) + 1 < cfg.size;
      forall k | 0 <= k < Occupancy(next)
        ensures next.slots[Hop(next.readIndex, k, cfg.size)] == next.log[next.read + k]
      {
        if k < Occupancy(ring) {
          assert ring.slots[Hop(ring.readIndex, k, cfg.size)] == ring.log[ring.read + k];
        }
      }
    }
  }

  lemma PushKeepsLog(log: seq<Element>, e: Element, cfg: Config)
    requires LogInv(log, cfg) && e.timestamp + cfg.span < MAX_TS
    requires log != [] ==> log[|log| - 1].timestamp + cfg.span <= e.timestamp
    ensures LogInv(log + [e], cfg)
  {
    forall i, j | 0 <= i < j < |log + [e]| ensures (log + [e])[i].timestamp + cfg.span <= (log + [e])[j].timestamp {
      if i < |log| - 1 {
        assert log[i].timestamp + cfg.span <= log[|log| - 1].timestamp;
      }
    }
  }

  lemma PushKeepsRecording(ring: Ring, e: Element, next: Ring, rec: Recording, cfg: Config)
    requires RingInv(ring, cfg) && RecordingInv(ring, rec, cfg)
    requires ring.log != [] ==> ring.log[|ring.log| - 1].timestamp + cfg.span <= e.timestamp
    requires RingInv(next, cfg) && next.log == ring.log + [e]
    requires next.read == ring.read && next.readIndex == ring.readIndex
    ensures RecordingInv(next, rec, cfg)
  {
    assert next.log[rec.from..rec.Next()] == ring.log[rec.from..rec.Next()];
    if !rec.pc.Idle? {
      PushKeepsWatermark(ring, e, next, rec, cfg);
      PushKeepsIterator(ring, next, rec, cfg.size);
    }
  }

  lemma PushKeepsWatermark(ring: Ring, e: Element, next: Ring, rec: Recording, cfg: Config)
    requires RecordedInv(ring.log, rec) && RecordedInv(next.log, rec) && WatermarkInv(ring, rec, cfg)
    requires next.log == ring.log + [e] && next.read == ring.read
    ensures WatermarkInv(next, rec, cfg)
  {
  }

  lemma PushKeepsIterator(ring: Ring, next: Ring, rec: Recording, size: nat)
    requires RingIndices(ring, size) && RingIndices(next, size) && IteratorInv(ring, rec, size)
    requires next.read == ring.read && next.readIndex == ring.readIndex && |next.log| >= |ring.log|
    ensures IteratorInv(next, rec, size)
  {
  }

  // Pops

  lemma PopKeepsRing(ring: Ring, cfg: Config)
    requires cfg.Valid() && RingInv(ring, cfg) && Occupancy(ring) > 0
    ensures RingInv(PopRing(ring), cfg)
  {
    var next := PopRing(ring);
    assert ring.slots[Hop(ring.readIndex, 0, cfg.size)] == ring.log[ring.read + 0];
    assert Hop(next.readIndex, cfg.size - 1, cfg.size) == ring.readIndex;
    forall k | 0 <= k < Occupancy(next)
      ensures next.slots[Hop(next.readIndex, k, cfg.size)] == next.log[next.read + k]
    {
      assert Hop(next.readIndex, k, cfg.size) == Hop(ring.readIndex, k + 1, cfg.size);
      assert ring.slots[Hop(ring.readIndex, k + 1, cfg.size)] == ring.log[ring.read + (k + 1)];
    }
  }

  /** Popping an element below the watermark pops a written one, and leaves the recorder's iterator
      where it was: the slot after the reserved one is reused only when the next element is gone. A
      read index loaded before stays less than a lap behind. */
  lemma PopKeepsRecording(ring: Ring, rec: Recording, cfg: Config)
    requires cfg.Valid() && RingInv(ring, cfg) && LogInv(ring.log, cfg) && RecordingInv(ring, rec, cfg)
    requires Occupancy(ring) > 0 && RingInv(PopRing(ring), cfg)
    requires ring.log[ring.read].timestamp < rec.watermark && !rec.InsideMonitor()
    ensures RecordingInv(PopRing(ring), rec, cfg)
  {
    if !rec.pc.Idle? {
      WatermarkSeparates(ring, rec, cfg, ring.read);
      PopKeepsIterator(ring, PopRing(ring), rec, cfg.size);
    }
  }

  lemma PopKeepsIterator(ring: Ring, next: Ring, rec: Recording, size: nat)
    requires 2 <= size && RingIndices(ring, size) && RingIndices(next, size) && IteratorInv(ring, rec, size)
    requires ring.read < rec.Next() && rec.watermark > 0 && !rec.InsideMonitor()
    requires next.log == ring.log && next.read == ring.read + 1 && next.readIndex == Wrap(ring.readIndex, size)
    ensures IteratorInv(next, rec, size)
  {
  }

  // The recorder's steps

  /** What good() says of the slot `j` after a read index that was loaded `d` pops ago: once the write
      index has come around to it the stretch between the two looks a whole lap shorter. */
  lemma GoodSeen(ring: Ring, readSample: nat, j: nat, size: nat)
    requires 2 <= size < MAX_SIZE && RingIndices(ring, size) && readSample < size && j < size
    requires ring.writeIndex == Hop(ring.readIndex, Occupancy(ring), size)
    ensures var d := Distance(readSample, ring.readIndex, size) + Occupancy(ring);
            GoodIndex(Hop(readSample, j, size), readSample, ring.writeIndex) <==> j < (if d < size then d else d - size)
  {
  }

  /** Even with a stale read index good() never takes the slot after the newest element for a stored
      one. */
  lemma NextIsStoredIfGood(ring: Ring, rec: Recording, index: nat, readSample: nat, size: nat)
    requires 2 <= size < MAX_SIZE && RingIndices(ring, size)
    requires ring.writeIndex == Hop(ring.readIndex, Occupancy(ring), size)
    requires OnNext(ring, rec, index, size) && Behind(ring, rec, readSample, size)
    requires GoodIndex(index, readSample, ring.writeIndex)
    ensures rec.Next() < |ring.log|
  {
    GoodSeen(ring, readSample, Distance(readSample, ring.readIndex, size) + (rec.Next() - ring.read), size);
  }

  /** The elements a search samples are the live ones, in order. */
  lemma StretchIsLive(ring: Ring, r: nat, w: nat, cfg: Config)
    requires cfg.Valid() && RingInv(ring, cfg) && LogInv(ring.log, cfg)
    requires r == ring.readIndex && w < cfg.size && Distance(r, w, cfg.size) <= Occupancy(ring)
    ensures forall k | 0 <= k < |Stretch(ring.slots, r, w)| :: Stretch(ring.slots, r, w)[k] == ring.log[ring.read + k]
    ensures Sorted(Stretch(ring.slots, r, w))
  {
    var c := Stretch(ring.slots, r, w);
    forall k | 0 <= k < |c| ensures c[k] == ring.log[ring.read + k] {
      assert ring.slots[Hop(ring.readIndex, k, cfg.size)] == ring.log[ring.read + k];
    }
    forall i, j | 0 <= i < j < |c| ensures c[i].timestamp <= c[j].timestamp {
      assert ring.log[ring.read + i].timestamp + cfg.span <= ring.log[ring.read + j].timestamp;
    }
  }

  /** On the live elements the linear search from the watermark stops at the next one to write. */
  lemma WatermarkFindsNext(ring: Ring, rec: Recording, c: seq<Element>, cfg: Config)
    requires cfg.Valid() && LogInv(ring.log, cfg) && RecordedInv(ring.log, rec) && WatermarkInv(ring, rec, cfg)
    requires Sorted(c) && rec.Next() - ring.read <= |c| <= |ring.log| - ring.read && Done(rec) == rec.Next()
    requires forall k | 0 <= k < |c| :: c[k] == ring.log[ring.read + k]
    ensures FirstAtLeast(c, rec.watermark) == rec.Next() - ring.read
  {
    var p := rec.Next() - ring.read;
    forall k | 0 <= k < |c| ensures k < p <==> c[k].timestamp < rec.watermark {
      WatermarkSeparates(ring, rec, cfg, ring.read + k);
    }
    FirstAtLeastSplits(c, rec.watermark, p);
  }

  /** The search from the watermark finds the next element to write, or nothing at all: that happens
      on an empty sample, and when everything older is popped and the front is past the watermark. */
  lemma SearchFindsNext(ring: Ring, rec: Recording, cfg: Config)
    requires cfg.Valid() && RingInv(ring, cfg) && LogInv(ring.log, cfg) && RecordingInv(ring, rec, cfg)
    requires rec.pc.Sampled?
    ensures var index := SearchIndex(ring.slots, rec.pc.readSample, rec.pc.writeSample, rec.watermark);
            && (index == END_INDEX || OnNext(ring, rec, index, cfg.size))
            && (index == END_INDEX <==>
                  || rec.pc.readSample == rec.pc.writeSample
                  || (ring.read == rec.Next() && ring.log[ring.read].timestamp > rec.watermark))
  {
    var r, w := rec.pc.readSample, rec.pc.writeSample;
    var c := Stretch(ring.slots, r, w);
    StretchIsLive(ring, r, w, cfg);
    if c != [] {
      WatermarkFindsNext(ring, rec, c, cfg);
      WatermarkSeparates(ring, rec, cfg, ring.read);
    }
  }

  lemma NextIsStored(ring: Ring, rec: Recording, index: nat, cfg: Config)
    requires cfg.Valid() && RingInv(ring, cfg) && LogInv(ring.log, cfg)
    requires RecordedInv(ring.log, rec) && WatermarkInv(ring, rec, cfg) && Done(rec) == rec.Next()
    requires OnNext(ring, rec, index, cfg.size) && rec.Next() < |ring.log|
    ensures ring.slots[index] == ring.log[rec.Next()] && ring.log[rec.Next()].timestamp >= rec.watermark
  {
    var k := rec.Next() - ring.read;
    assert ring.slots[Hop(ring.readIndex, k, cfg.size)] == ring.log[ring.read + k];
    WatermarkSeparates(ring, rec, cfg, rec.Next());
  }

  lemma LastIsIntact(ring: Ring, rec: Recording, index: nat, cfg: Config)
    requires cfg.Valid() && RingInv(ring, cfg) && LogInv(ring.log, cfg)
    requires RecordedInv(ring.log, rec) && WatermarkInv(ring, rec, cfg) && Done(rec) == rec.Next()
    requires OnLast(ring, rec, index, cfg.size)
    ensures ring.slots[index] == ring.log[rec.Next() - 1] && ring.log[rec.Next() - 1].timestamp < rec.watermark
  {
    WatermarkSeparates(ring, rec, cfg, rec.Next() - 1);
    if ring.read < rec.Next() {
      var k := rec.Next() - 1 - ring.read;
      assert ring.slots[Hop(ring.readIndex, k, cfg.size)] == ring.log[ring.read + k];
    }
  }

  /** What the recorder dereferences: the next element to write, or the one written last, whose bytes
      are still there when it was popped meanwhile. The watermark tells the two apart. */
  lemma DereferencedElement(ring: Ring, rec: Recording, cfg: Config)
    requires cfg.Valid() && RingInv(ring, cfg) && LogInv(ring.log, cfg) && RecordingInv(ring, rec, cfg)
    requires rec.pc.Dereferencing?
    ensures rec.pc.index < |ring.slots|
    ensures OnNext(ring, rec, rec.pc.index, cfg.size) ==>
              && rec.Next() < |ring.log| && ring.slots[rec.pc.index] == ring.log[rec.Next()]
              && ring.log[rec.Next()].timestamp >= rec.watermark
    ensures !OnNext(ring, rec, rec.pc.index, cfg.size) ==>
              && OnLast(ring, rec, rec.pc.index, cfg.size)
              && ring.slots[rec.pc.index] == ring.log[rec.Next() - 1]
              && ring.log[rec.Next() - 1].timestamp < rec.watermark
  {
    if OnNext(ring, rec, rec.pc.index, cfg.size) {
      NextIsNotLast(ring, rec, rec.pc.index, cfg.size);
      NextIsStored(ring, rec, rec.pc.index, cfg);
    } else {
      LastIsIntact(ring, rec, rec.pc.index, cfg);
    }
  }

  /** The slot of the next element is not that of the last one. */
  lemma NextIsNotLast(ring: Ring, rec: Recording, index: nat, size: nat)
    requires 2 <= size && RingIndices(ring, size) && OnNext(ring, rec, index, size) && rec.Next() <= |ring.log|
    ensures !OnLast(ring, rec, index, size)
  {
  }

  lemma WriteNextKeepsRecording(ring: Ring, rec: Recording, e: Element, cfg: Config)
    requires cfg.Valid() && RingInv(ring, cfg) && RecordingInv(ring, rec, cfg) && rec.pc.Dereferencing?
    requires OnNext(ring, rec, rec.pc.index, cfg.size) && rec.Next() < |ring.log|
    requires e == ring.log[rec.Next()] && e.timestamp >= rec.watermark
    ensures RecordingInv(ring, AfterElement(rec, e, cfg.span), cfg)
  {
    assert ring.log[rec.from..rec.Next() + 1] == ring.log[rec.from..rec.Next()] + [ring.log[rec.Next()]];
  }

  lemma SkipLastKeepsRecording(ring: Ring, rec: Recording, e: Element, cfg: Config)
    requires cfg.Valid() && RingInv(ring, cfg) && RecordingInv(ring, rec, cfg) && rec.pc.Dereferencing?
    requires OnLast(ring, rec, rec.pc.index, cfg.size) && e.timestamp < rec.watermark
    ensures RecordingInv(ring, AfterElement(rec, e, cfg.span), cfg)
  {
    SameWatermark(ring, rec, Incrementing(rec.pc.index, rec.pc.n), cfg);
  }

  lemma WriteKeepsRecording(ring: Ring, rec: Recording, cfg: Config)
    requires cfg.Valid() && RingInv(ring, cfg) && LogInv(ring.log, cfg) && RecordingInv(ring, rec, cfg)
    requires rec.pc.Dereferencing? && rec.pc.index < |ring.slots|
    ensures RecordingInv(ring, AfterElement(rec, ring.slots[rec.pc.index], cfg.span), cfg)
  {
    var e := ring.slots[rec.pc.index];
    DereferencedElement(ring, rec, cfg);
    if OnNext(ring, rec, rec.pc.index, cfg.size) {
      WriteNextKeepsRecording(ring, rec, e, cfg);
    } else {
      SkipLastKeepsRecording(ring, rec, e, cfg);
    }
  }

  lemma BumpKeepsRecording(ring: Ring, rec: Recording, cfg: Config)
    requires cfg.Valid() && RingInv(ring, cfg) && RecordingInv(ring, rec, cfg) && rec.pc.Bumping?
    ensures RecordingInv(ring, ApplyRecorder(ring, false, rec, BumpWatermark, cfg), cfg)
  {
  }

  /** A step that moves only the iterator keeps the watermark where it separates. */
  lemma SameWatermark(ring: Ring, rec: Recording, pc: Pc, cfg: Config)
    requires RecordedInv(ring.log, rec) && WatermarkInv(ring, rec, cfg) && !rec.pc.Bumping? && !pc.Bumping?
    ensures RecordedInv(ring.log, rec.(pc := pc)) && WatermarkInv(ring, rec.(pc := pc), cfg)
  {
  }

  /** Loading the read index: what is stored from there on includes all that is not written yet. */
  lemma SampleKeepsIterator(ring: Ring, rec: Recording, size: nat)
    requires 2 <= size && RingIndices(ring, size) && IteratorInv(ring, rec, size) && BeforeSample(rec.pc)
    requires rec.Next() - ring.read <= Occupancy(ring)
    ensures IteratorInv(ring, rec.(pc := AfterSample(rec.pc, ring.readIndex)), size)
  {
  }

  lemma SampleKeepsRecording(ring: Ring, rec: Recording, cfg: Config)
    requires cfg.Valid() && RingInv(ring, cfg) && RecordingInv(ring, rec, cfg) && BeforeSample(rec.pc)
    ensures RecordingInv(ring, ApplyRecorder(ring, false, rec, SampleRead, cfg), cfg)
  {
    SameWatermark(ring, rec, AfterSample(rec.pc, ring.readIndex), cfg);
    SampleKeepsIterator(ring, rec, cfg.size);
  }

  /** The first half of the increment: from the last written element on to the next, or nowhere when
      good() does not see it: because it is popped, or because the write index has come around. */
  lemma IncrementKeepsRecording(ring: Ring, rec: Recording, cfg: Config)
    requires cfg.Valid() && RingInv(ring, cfg) && RecordingInv(ring, rec, cfg) && rec.pc.IncrementingFrom?
    ensures RecordingInv(ring, ApplyRecorder(ring, false, rec, IncrementIndex, cfg), cfg)
  {
    SameWatermark(ring, rec, ApplyRecorder(ring, false, rec, IncrementIndex, cfg).pc, cfg);
  }

  /** The second half: the iterator stays where it is or goes past the end, and never to a reused slot. */
  lemma CheckKeepsRecording(ring: Ring, rec: Recording, cfg: Config)
    requires cfg.Valid() && RingInv(ring, cfg) && RecordingInv(ring, rec, cfg) && rec.pc.IncrementedFrom?
    ensures RecordingInv(ring, ApplyRecorder(ring, false, rec, CheckIncremented, cfg), cfg)
  {
    SameWatermark(ring, rec, ApplyRecorder(ring, false, rec, CheckIncremented, cfg).pc, cfg);
  }

  lemma CheckGoodKeepsIterator(ring: Ring, rec: Recording, size: nat)
    requires 2 <= size < MAX_SIZE && RingIndices(ring, size) && IteratorInv(ring, rec, size) && rec.pc.ScanningFrom?
    requires ring.writeIndex == Hop(ring.readIndex, Occupancy(ring), size)
    requires GoodIndex(rec.pc.index, rec.pc.readSample, ring.writeIndex)
    ensures IteratorInv(ring, rec.(pc := Dereferencing(rec.pc.index, rec.pc.n)), size)
  {
    if OnNext(ring, rec, rec.pc.index, size) {
      NextIsStoredIfGood(ring, rec, rec.pc.index, rec.pc.readSample, size);
    }
  }

  lemma CheckGoodKeepsRecording(ring: Ring, rec: Recording, cfg: Config)
    requires cfg.Valid() && RingInv(ring, cfg) && RecordingInv(ring, rec, cfg) && rec.pc.ScanningFrom?
    ensures RecordingInv(ring, ApplyRecorder(ring, false, rec, CheckGood, cfg), cfg)
  {
    SameWatermark(ring, rec, ApplyRecorder(ring, false, rec, CheckGood, cfg).pc, cfg);
    if GoodIndex(rec.pc.index, rec.pc.readSample, ring.writeIndex) {
      CheckGoodKeepsIterator(ring, rec, cfg.size);
    }
  }

  /** The steps of the recorder that touch neither the ring nor what is recorded. */
  lemma MoveKeepsRecording(ring: Ring, rec: Recording, a: Action, requested: bool, cfg: Config)
    requires cfg.Valid() && RingInv(ring, cfg) && RecordingInv(ring, rec, cfg) && RecorderEnabled(ring, rec, a)
    requires a.Poll? || a.LoadFront? || a.EnterRecorder? || a.SampleWrite? || a.LeaveRecorder?
    ensures RecordingInv(ring, ApplyRecorder(ring, requested, rec, a, cfg), cfg)
  {
    SameWatermark(ring, rec, ApplyRecorder(ring, requested, rec, a, cfg).pc, cfg);
  }

  /** A recording begins and ends with the watermark out of the way of everything. */
  lemma StartStopKeepsRecording(ring: Ring, rec: Recording, a: Action, requested: bool, cfg: Config)
    requires cfg.Valid() && RingInv(ring, cfg) && RecordingInv(ring, rec, cfg) && RecorderEnabled(ring, rec, a)
    requires a.StartRecording? || a.StopRecording?
    ensures RecordingInv(ring, ApplyRecorder(ring, requested, rec, a, cfg), cfg)
  {
  }

  lemma SetWatermarkKeepsRecording(ring: Ring, rec: Recording, cfg: Config)
    requires cfg.Valid() && RingInv(ring, cfg) && LogInv(ring.log, cfg) && RecordingInv(ring, rec, cfg)
    requires RecorderEnabled(ring, rec, SetWatermark)
    ensures RecordingInv(ring, ApplyRecorder(ring, false, rec, SetWatermark, cfg), cfg)
  {
    if rec.pc.index != END_INDEX {
      assert ring.slots[Hop(ring.readIndex, 0, cfg.size)] == ring.log[ring.read + 0];
    }
  }

  lemma SearchKeepsRecording(ring: Ring, rec: Recording, cfg: Config)
    requires cfg.Valid() && RingInv(ring, cfg) && LogInv(ring.log, cfg) && RecordingInv(ring, rec, cfg)
    requires RecorderEnabled(ring, rec, Search)
    ensures RecordingInv(ring, ApplyRecorder(ring, false, rec, Search, cfg), cfg)
  {
    SearchFindsNext(ring, rec, cfg);
    SameWatermark(ring, rec, ApplyRecorder(ring, false, rec, Search, cfg).pc, cfg);
  }

  lemma RecorderStepKeepsRecording(ring: Ring, rec: Recording, a: Action, requested: bool, cfg: Config)
    requires cfg.Valid() && RingInv(ring, cfg) && LogInv(ring.log, cfg) && RecordingInv(ring, rec, cfg)
    requires RecorderEnabled(ring, rec, a)
    ensures RecordingInv(ring, ApplyRecorder(ring, requested, rec, a, cfg), cfg)
  {
    match a
    case SetWatermark => SetWatermarkKeepsRecording(ring, rec, cfg);
    case Search => SearchKeepsRecording(ring, rec, cfg);
    case WriteElement => WriteKeepsRecording(ring, rec, cfg);
    case BumpWatermark => BumpKeepsRecording(ring, rec, cfg);
    case SampleRead => SampleKeepsRecording(ring, rec, cfg);
    case IncrementIndex => IncrementKeepsRecording(ring, rec, cfg);
    case CheckIncremented => CheckKeepsRecording(ring, rec, cfg);
    case CheckGood => CheckGoodKeepsRecording(ring, rec, cfg);
    case StartRecording => StartStopKeepsRecording(ring, rec, a, requested, cfg);
    case StopRecording => StartStopKeepsRecording(ring, rec, a, requested, cfg);
    case _ => MoveKeepsRecording(ring, rec, a, requested, cfg);
  }

  // The monitor's steps

  lemma OnlyCleaner(m: Monitor, c: nat)
    requires |m.cleaners.Keys| <= 1 && c in m.cleaners
    ensures m.cleaners.Keys == {c} && |m.cleaners.Keys| == 1
    ensures Locked(m) <==> !m.cleaners[c].AwaitingDrain?
  {
    if m.cleaners.Keys != {c} {
      var d :| d in m.cleaners.Keys && d != c;
      assert {c, d} <= m.cleaners.Keys && |{c, d}| == 2;
      CardinalityMonotone({c, d}, m.cleaners.Keys);
    }
  }

  lemma {:induction false} CardinalityMonotone(a: set<nat>, b: set<nat>)
    requires a <= b
    ensures |a| <= |b|
  {
    if a != {} {
      var x :| x in a;
      CardinalityMonotone(a - {x}, b - {x});
    }
  }

  /** Popping a fraction below one of the elements leaves at least one; the whole leaves none. */
  lemma FractionLeavesOne(ring: Ring, cfg: Config)
    requires cfg.Valid() && Occupancy(ring) > 0
    ensures ToPop(ring, cfg) < Occupancy(ring) <==> cfg.popNum < cfg.popDen
    ensures cfg.popNum == cfg.popDen ==> ToPop(ring, cfg) == Occupancy(ring)
  {
    FractionAtMostWhole(Occupancy(ring), cfg.popNum, cfg.popDen);
    FractionIsWhole(Occupancy(ring), cfg.popNum, cfg.popDen);
  }

  lemma WorkerStepKeepsInv(s: State, a: Action, cfg: Config)
    requires cfg.Valid() && Inv(s, cfg) && Enabled(s, a, cfg) && (a.EnterWorker? || a.LeaveWorker?)
    ensures Inv(Apply(s, a, cfg), cfg)
  {
    var t := ApplyMonitor(s, a, cfg);
    if a.EnterWorker? {
      assert t.monitor.workers.Keys == s.monitor.workers.Keys + {a.t};
    } else {
      assert t.monitor.workers.Keys == s.monitor.workers.Keys - {a.t};
    }
  }

  lemma CleanupStepKeepsMonitor(s: State, a: Action, cfg: Config)
    requires cfg.Valid() && Inv(s, cfg) && Enabled(s, a, cfg)
    requires a.RequestCleanup? || a.StartPopping? || a.FinishCleanup?
    ensures var t := ApplyMonitor(s, a, cfg); MonitorInv(t.monitor, t.recording.InsideMonitor())
  {
    var m, t := s.monitor, ApplyMonitor(s, a, cfg).monitor;
    match a
    case RequestCleanup(c) =>
      assert t.cleaners.Keys == {c};
    case StartPopping(c) =>
      OnlyCleaner(m, c);
      assert t.cleaners.Keys == m.cleaners.Keys;
    case FinishCleanup(c) =>
      OnlyCleaner(m, c);
      assert t.cleaners.Keys == {};
    case _ =>
  }

  lemma CleanupStepKeepsCleaners(s: State, a: Action, cfg: Config)
    requires cfg.Valid() && cfg.popNum < cfg.popDen && Inv(s, cfg) && Enabled(s, a, cfg)
    requires a.RequestCleanup? || a.StartPopping? || a.FinishCleanup?
    ensures var t := ApplyMonitor(s, a, cfg);
            CleanersInv(t.monitor, t.ring, cfg) && WorkersInv(t.monitor, t.ring) && !t.fault
  {
    if a.StartPopping? {
      OnlyCleaner(s.monitor, a.c);
      FractionLeavesOne(s.ring, cfg);
    }
  }

  lemma CleanupStepKeepsInv(s: State, a: Action, cfg: Config)
    requires cfg.Valid() && cfg.popNum < cfg.popDen && Inv(s, cfg) && Enabled(s, a, cfg)
    requires a.RequestCleanup? || a.StartPopping? || a.FinishCleanup?
    ensures Inv(Apply(s, a, cfg), cfg)
  {
    CleanupStepKeepsMonitor(s, a, cfg);
    CleanupStepKeepsCleaners(s, a, cfg);
  }

  /** While the cleanup holds the mutex nobody else is inside. */
  lemma PoppingIsAlone(s: State, c: nat, cfg: Config)
    requires Inv(s, cfg) && c in s.monitor.cleaners && s.monitor.cleaners[c].PoppingFront?
    ensures s.monitor.workers == map[] && !s.recording.InsideMonitor() && s.monitor.cleaners.Keys == {c}
    ensures s.monitor.cleanupRequested && s.monitor.requestsRunning == 0
  {
    OnlyCleaner(s.monitor, c);
  }

  /** The cleanup goes on in another state of its own; the monitor is otherwise as it was. */
  lemma CleanerMovesOn(m: Monitor, c: nat, next: Cleaner, ring: Ring, cfg: Config)
    requires m.workers == map[] && m.cleaners.Keys == {c} && m.cleanupRequested && m.requestsRunning == 0
    requires match next
             case AwaitingDrain => false
             case PoppingFront(left) => left < Occupancy(ring)
             case ForgettingErrors => Occupancy(ring) >= 1
    ensures var t := m.(cleaners := m.cleaners[c := next]);
            MonitorInv(t, false) && WorkersInv(t, ring) && CleanersInv(t, ring, cfg)
  {
    assert m.cleaners[c := next].Keys == {c};
  }

  lemma PopOneKeepsInv(s: State, a: Action, cfg: Config)
    requires cfg.Valid() && Inv(s, cfg) && Enabled(s, a, cfg) && a.PopOne?
    ensures Inv(Apply(s, a, cfg), cfg)
  {
    var ring, left := s.ring, s.monitor.cleaners[a.c].left;
    PoppingIsAlone(s, a.c, cfg);
    assert ring.slots[Hop(ring.readIndex, 0, cfg.size)] == ring.log[ring.read + 0];
    if left > 0 && ring.log[ring.read].timestamp < s.recording.watermark {
      PopKeepsRing(ring, cfg);
      PopKeepsRecording(ring, s.recording, cfg);
      CleanerMovesOn(s.monitor, a.c, PoppingFront(left - 1), PopRing(ring), cfg);
    } else {
      CleanerMovesOn(s.monitor, a.c, ForgettingErrors, ring, cfg);
    }
  }

  lemma PushKeepsInv(s: State, a: Action, cfg: Config)
    requires cfg.Valid() && Inv(s, cfg) && Enabled(s, a, cfg) && a.Push?
    ensures Inv(Apply(s, a, cfg), cfg)
  {
    var next := PushRing(s.ring, a.e);
    PushKeepsRing(s.ring, a.e, cfg);
    if next != s.ring {
      PushKeepsLog(s.ring.log, a.e, cfg);
      PushKeepsRecording(s.ring, a.e, next, s.recording, cfg);
    }
  }

  lemma RecorderStepKeepsMonitor(s: State, a: Action, cfg: Config)
    requires cfg.Valid() && MonitorInv(s.monitor, s.recording.InsideMonitor()) && Enabled(s, a, cfg)
    requires RecorderEnabled(s.ring, s.recording, a)
    ensures var t := Apply(s, a, cfg); MonitorInv(t.monitor, t.recording.InsideMonitor())
    ensures Apply(s, a, cfg).monitor.workers == s.monitor.workers
    ensures Apply(s, a, cfg).monitor.cleaners == s.monitor.cleaners
  {
  }

  /** A recorder step changes nothing but the recording and the count of running requests. */
  lemma RecorderStepIs(s: State, a: Action, cfg: Config)
    requires cfg.Valid() && Enabled(s, a, cfg) && RecorderEnabled(s.ring, s.recording, a)
    ensures var t := Apply(s, a, cfg);
            && t.ring == s.ring && t.fault == s.fault
            && t.recording == ApplyRecorder(s.ring, s.monitor.cleanupRequested, s.recording, a, cfg)
  {
  }

  lemma RecorderStepKeepsInv(s: State, a: Action, cfg: Config)
    requires cfg.Valid() && Inv(s, cfg) && Enabled(s, a, cfg) && RecorderEnabled(s.ring, s.recording, a)
    ensures Inv(Apply(s, a, cfg), cfg)
  {
    var t := Apply(s, a, cfg);
    RecorderStepIs(s, a, cfg);
    RecorderStepKeepsMonitor(s, a, cfg);
    RecorderStepKeepsRecording(s.ring, s.recording, a, s.monitor.cleanupRequested, cfg);
    SameWorkersAndCleaners(s.monitor, t.monitor, s.ring, cfg);
  }

  lemma SameWorkersAndCleaners(m: Monitor, m': Monitor, ring: Ring, cfg: Config)
    requires m'.workers == m.workers && m'.cleaners == m.cleaners
    requires WorkersInv(m, ring) && CleanersInv(m, ring, cfg)
    ensures WorkersInv(m', ring) && CleanersInv(m', ring, cfg)
  {
  }

  lemma MonitorStepKeepsInv(s: State, a: Action, cfg: Config)
    requires cfg.Valid() && cfg.popNum < cfg.popDen && Inv(s, cfg) && Enabled(s, a, cfg) && IsMonitorStep(a)
    ensures Inv(Apply(s, a, cfg), cfg)
  {
    if a.EnterWorker? || a.LeaveWorker? {
      WorkerStepKeepsInv(s, a, cfg);
    } else if a.PopOne? {
      PopOneKeepsInv(s, a, cfg);
    } else {
      CleanupStepKeepsInv(s, a, cfg);
    }
  }

  lemma RecorderStepEnabled(s: State, a: Action, cfg: Config)
    requires Enabled(s, a, cfg) && !IsMonitorStep(a) && !a.Push?
    ensures RecorderEnabled(s.ring, s.recording, a)
  {
  }

  lemma StepKeepsInv(s: State, a: Action, cfg: Config)
    requires cfg.Valid() && cfg.popNum < cfg.popDen && Inv(s, cfg) && Enabled(s, a, cfg)
    ensures Inv(Apply(s, a, cfg), cfg)
  {
    if a.Push? {
      PushKeepsInv(s, a, cfg);
    } else if IsMonitorStep(a) {
      MonitorStepKeepsInv(s, a, cfg);
    } else {
      RecorderStepEnabled(s, a, cfg);
      RecorderStepKeepsInv(s, a, cfg);
    }
  }
}
