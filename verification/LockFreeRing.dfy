/** The ring under concurrency: one producer and one consumer, each atomic load and store a step of
    its own, so that both work with index snapshots that may be stale. Every interleaving behaves
    like a bounded FIFO. */
module LockFreeRing {
  import opened Elements
  import opened IterableQueueModel

  datatype Producer =
    | WriterIdle
    | WriteIndexLoaded(record: Element, w: nat)
    | RoomChecked(record: Element, w: nat, next: nat)
    | Constructed(record: Element, next: nat)

  /** A consumer reads one element, or pops a number of them: `left` counts the elements the current
      pop still has to remove, and is 0 for a read. */
  datatype Consumer =
    | ReaderIdle
    | WriteIndexSampled(w: nat)
    | Popping(left: nat)
    | ReadIndexLoaded(r: nat, left: nat)
    | ElementChecked(r: nat, left: nat)
    | Moved(r: nat, record: Element)
    | Destroyed(r: nat, record: Element, left: nat)

  /** The shared memory, the two threads, and the history: the elements whose write was published
      and the elements whose removal was. `fault` is raised by constructing on a live slot, by using
      or destroying a raw one, and by popFront's assertion. */
  datatype State = State(
    slots: seq<Slot>, readIndex: nat, writeIndex: nat,
    producer: Producer, consumer: Consumer,
    pushed: seq<Element>, consumed: seq<Element>, fault: bool)

  datatype Action =
    | StartWrite(record: Element) | CheckRoom | Construct | PublishWrite
    | StartRead | StartPop(x: nat) | SampleWriteIndex | PopOccupancy | NextPop | EndPop
    | CheckElement | MoveOut | Destroy | PublishRead

  function Init(size: nat): State {
    State(seq(size, _ => Raw), 0, 0, WriterIdle, ReaderIdle, [], [], false)
  }

  predicate Enabled(s: State, a: Action) {
    match a
    case StartWrite(_) => s.producer.WriterIdle?
    case CheckRoom => s.producer.WriteIndexLoaded?
    case Construct => s.producer.RoomChecked? && s.producer.w < |s.slots|
    case PublishWrite => s.producer.Constructed?
    case StartRead => s.consumer.ReaderIdle?
    case StartPop(_) => s.consumer.ReaderIdle?
    case SampleWriteIndex => s.consumer.ReaderIdle?
    case PopOccupancy => s.consumer.WriteIndexSampled?
    case NextPop => s.consumer.Popping? && s.consumer.left > 0
    case EndPop => s.consumer.Popping? && s.consumer.left == 0
    case CheckElement => s.consumer.ReadIndexLoaded?
    case MoveOut => s.consumer.ElementChecked? && s.consumer.left == 0 && s.consumer.r < |s.slots|
    case Destroy => && (s.consumer.Moved? || (s.consumer.ElementChecked? && s.consumer.left > 0))
                    && s.consumer.r < |s.slots|
    case PublishRead => s.consumer.Destroyed?
  }

  function Successor(i: nat, size: nat): nat {
    if i + 1 == size then 0 else i + 1
  }

  /** The occupancy computed from a sample of the write index and the read index. */
  function SampledOccupancy(w: nat, r: nat, size: nat): int {
    var ret: int := w - r;
    if ret < 0 then ret + size else ret
  }

  function Apply(s: State, a: Action): State
    requires Enabled(s, a)
  {
    var size := |s.slots|;
    match a
    case StartWrite(record) => s.(producer := WriteIndexLoaded(record, s.writeIndex))
    case CheckRoom =>
      var next := Successor(s.producer.w, size);
      if next != s.readIndex then
        s.(producer := RoomChecked(s.producer.record, s.producer.w, next))
      else
        s.(producer := WriterIdle)
    case Construct =>
      s.(slots := s.slots[s.producer.w := Built(s.producer.record)],
         producer := Constructed(s.producer.record, s.producer.next),
         fault := s.fault || s.slots[s.producer.w].Built?)
    case PublishWrite =>
      s.(writeIndex := s.producer.next, producer := WriterIdle, pushed := s.pushed + [s.producer.record])
    case StartRead => s.(consumer := ReadIndexLoaded(s.readIndex, 0))
    case StartPop(x) => s.(consumer := Popping(x))
    case SampleWriteIndex => s.(consumer := WriteIndexSampled(s.writeIndex))
    case PopOccupancy =>
      var x := SampledOccupancy(s.consumer.w, s.readIndex, size);
      s.(consumer := Popping(if x < 0 then 0 else x))
    case NextPop => s.(consumer := ReadIndexLoaded(s.readIndex, s.consumer.left))
    case EndPop => s.(consumer := ReaderIdle)
    case CheckElement =>
      if s.consumer.r != s.writeIndex then
        s.(consumer := ElementChecked(s.consumer.r, s.consumer.left))
      else
        s.(consumer := ReaderIdle, fault := s.fault || s.consumer.left > 0)
    case MoveOut =>
      var slot := s.slots[s.consumer.r];
      if slot.Built? then s.(consumer := Moved(s.consumer.r, slot.value)) else s.(consumer := ReaderIdle, fault := true)
    case Destroy =>
      var slot := s.slots[s.consumer.r];
      if slot.Built? then
        s.(slots := s.slots[s.consumer.r := Raw],
           consumer := Destroyed(s.consumer.r, if s.consumer.Moved? then s.consumer.record else slot.value,
                                 if s.consumer.Moved? then 0 else s.consumer.left))
      else
        s.(consumer := ReaderIdle, fault := true)
    case PublishRead =>
      s.(readIndex := Successor(s.consumer.r, size),
         consumer := if s.consumer.left == 0 then ReaderIdle else Popping(s.consumer.left - 1),
         consumed := s.consumed + [s.consumer.record])
  }

  // The invariant

  function Occupied(s: State): int {
    |s.pushed| - |s.consumed|
  }

  /** What the k-th slot after the read index must contain. */
  ghost function Expected(s: State, k: nat): Slot
    requires 0 <= Occupied(s)
  {
    if k < Occupied(s) then
      if k == 0 && s.consumer.Destroyed? then Raw else Built(s.pushed[|s.consumed| + k])
    else if k == Occupied(s) && s.producer.Constructed? then
      Built(s.producer.record)
    else
      Raw
  }

  ghost predicate IndicesInv(s: State) {
    && 2 <= |s.slots| && s.readIndex < |s.slots| && 0 <= Occupied(s) < |s.slots|
    && s.writeIndex == Hop(s.readIndex, Occupied(s), |s.slots|)
    && s.consumed == s.pushed[..|s.consumed|]
  }

  ghost predicate SlotsInv(s: State)
    requires IndicesInv(s)
  {
    forall k | 0 <= k < |s.slots| :: s.slots[Hop(s.readIndex, k, |s.slots|)] == Expected(s, k)
  }

  /** Between its check and its store the producer owns the free slot at the write index. */
  ghost predicate ProducerInv(s: State)
    requires IndicesInv(s)
  {
    match s.producer
    case WriterIdle => true
    case WriteIndexLoaded(_, w) => w == s.writeIndex
    case RoomChecked(_, w, next) =>
      w == s.writeIndex && next == Successor(w, |s.slots|) && Occupied(s) + 1 < |s.slots|
    case Constructed(_, next) => next == Successor(s.writeIndex, |s.slots|) && Occupied(s) + 1 < |s.slots|
  }

  /** The consumer owns the oldest element from its check on, and never counts more elements to pop
      than there are. */
  ghost predicate ConsumerInv(s: State)
    requires IndicesInv(s)
  {
    match s.consumer
    case ReaderIdle => true
    case WriteIndexSampled(w) => w < |s.slots| && Distance(s.readIndex, w, |s.slots|) <= Occupied(s)
    case Popping(left) => left <= Occupied(s)
    case ReadIndexLoaded(r, left) => r == s.readIndex && left <= Occupied(s)
    case ElementChecked(r, left) => r == s.readIndex && left <= Occupied(s) && Occupied(s) >= 1
    case Moved(r, record) => r == s.readIndex && Occupied(s) >= 1 && record == s.pushed[|s.consumed|]
    case Destroyed(r, record, left) =>
      r == s.readIndex && left <= Occupied(s) && Occupied(s) >= 1 && record == s.pushed[|s.consumed|]
  }

  ghost predicate Inv(s: State) {
    IndicesInv(s) && SlotsInv(s) && ProducerInv(s) && ConsumerInv(s) && !s.fault
  }

  /** The one thing a consumer must not do is pop more elements than it knows to be there. */
  ghost predicate Allowed(s: State, a: Action) {
    a.StartPop? ==> a.x <= Occupied(s)
  }

  lemma ConstructKeepsInv(s: State)
    requires Inv(s) && Enabled(s, Construct)
    ensures Inv(Apply(s, Construct))
  {
    assert s.slots[Hop(s.readIndex, Occupied(s), |s.slots|)] == Expected(s, Occupied(s));
  }

  lemma PublishWriteKeepsInv(s: State)
    requires Inv(s) && Enabled(s, PublishWrite)
    ensures Inv(Apply(s, PublishWrite))
  {
    var t := Apply(s, PublishWrite);
    assert forall k | 0 <= k < |s.slots| :: Expected(t, k) == Expected(s, k);
  }

  lemma DestroyKeepsInv(s: State)
    requires Inv(s) && Enabled(s, Destroy)
    ensures Inv(Apply(s, Destroy))
  {
    assert s.slots[Hop(s.readIndex, 0, |s.slots|)] == Expected(s, 0);
  }

  lemma MoveOutKeepsInv(s: State)
    requires Inv(s) && Enabled(s, MoveOut)
    ensures Inv(Apply(s, MoveOut))
  {
    assert s.slots[Hop(s.readIndex, 0, |s.slots|)] == Expected(s, 0);
  }

  lemma PublishReadKeepsInv(s: State)
    requires Inv(s) && Enabled(s, PublishRead)
    ensures Inv(Apply(s, PublishRead))
  {
    var t, size := Apply(s, PublishRead), |s.slots|;
    forall k | 0 <= k < size ensures t.slots[Hop(t.readIndex, k, size)] == Expected(t, k) {
      if k + 1 < size {
        assert Hop(t.readIndex, k, size) == Hop(s.readIndex, k + 1, size);
        assert s.slots[Hop(s.readIndex, k + 1, size)] == Expected(s, k + 1);
      } else {
        assert Hop(t.readIndex, k, size) == Hop(s.readIndex, 0, size);
        assert s.slots[Hop(s.readIndex, 0, size)] == Expected(s, 0);
      }
    }
  }

  /** The steps that only change what a thread remembers. */
  lemma LocalStepKeepsInv(s: State, a: Action)
    requires Inv(s) && Enabled(s, a) && Allowed(s, a)
    requires !a.Construct? && !a.PublishWrite? && !a.MoveOut? && !a.Destroy? && !a.PublishRead?
    ensures Inv(Apply(s, a))
  {
    var t := Apply(s, a);
    assert t.slots == s.slots && t.pushed == s.pushed && t.consumed == s.consumed;
    assert forall k | 0 <= k < |s.slots| :: Expected(t, k) == Expected(s, k);
  }

  lemma StepKeepsInv(s: State, a: Action)
    requires Inv(s) && Enabled(s, a) && Allowed(s, a)
    ensures Inv(Apply(s, a))
  {
    match a
    case Construct => ConstructKeepsInv(s);
    case PublishWrite => PublishWriteKeepsInv(s);
    case MoveOut => MoveOutKeepsInv(s);
    case Destroy => DestroyKeepsInv(s);
    case PublishRead => PublishReadKeepsInv(s);
    case _ => LocalStepKeepsInv(s, a);
  }

  // Refinement of a bounded FIFO

  /** What a step means to the users of the queue. */
  datatype Effect =
    | Nothing
    | Accepted(e: Element) | RejectedFull
    | Removed(e: Element) | FoundEmpty
    | Counted(x: nat)

  /** A FIFO of bounded capacity: it rejects exactly when full, finds nothing exactly when empty, and
      the count a consumer gets is one it may pop. */
  ghost predicate FifoStep(q: seq<Element>, effect: Effect, q': seq<Element>, capacity: nat) {
    match effect
    case Nothing => q' == q
    case Accepted(e) => |q| < capacity && q' == q + [e]
    case RejectedFull => |q| == capacity && q' == q
    case Removed(e) => q != [] && e == q[0] && q' == q[1..]
    case FoundEmpty => q == [] && q' == q
    case Counted(x) => x <= |q| && q' == q
  }

  /** The effect of a step, read off what the threads see: the outcome of the two index comparisons,
      the published element, the computed occupancy. */
  function EffectOf(s: State, a: Action): Effect
    requires Enabled(s, a)
  {
    match a
    case CheckRoom => if Apply(s, a).producer.WriterIdle? then RejectedFull else Nothing
    case PublishWrite => Accepted(s.producer.record)
    case CheckElement => if Apply(s, a).consumer.ReaderIdle? then FoundEmpty else Nothing
    case PopOccupancy => Counted(Apply(s, a).consumer.left)
    case PublishRead => Removed(s.consumer.record)
    case _ => Nothing
  }

  /** The queue the ring stands for. */
  ghost function Queue(s: State): seq<Element>
    requires IndicesInv(s)
  {
    s.pushed[|s.consumed|..]
  }

  lemma StepRefinesFifo(s: State, a: Action)
    requires Inv(s) && Enabled(s, a) && Allowed(s, a)
    ensures Inv(Apply(s, a))
    ensures FifoStep(Queue(s), EffectOf(s, a), Queue(Apply(s, a)), |s.slots| - 1)
  {
    StepKeepsInv(s, a);
  }

  ghost predicate Runs(s: State, actions: seq<Action>, t: State)
    decreases |actions|
  {
    if actions == [] then
      s == t
    else
      Enabled(s, actions[0]) && Allowed(s, actions[0]) && Runs(Apply(s, actions[0]), actions[1..], t)
  }

  /** The effects of a run, in order. */
  ghost function Effects(s: State, actions: seq<Action>, t: State): seq<Effect>
    requires Runs(s, actions, t)
    decreases |actions|
  {
    if actions == [] then [] else [EffectOf(s, actions[0])] + Effects(Apply(s, actions[0]), actions[1..], t)
  }

  ghost predicate FifoRuns(q: seq<Element>, effects: seq<Effect>, q': seq<Element>, capacity: nat)
    decreases |effects|
  {
    if effects == [] then
      q == q'
    else
      exists next :: FifoStep(q, effects[0], next, capacity) && FifoRuns(next, effects[1..], q', capacity)
  }

  lemma FifoRunsStep(q: seq<Element>, effect: Effect, next: seq<Element>, rest: seq<Effect>, q': seq<Element>,
                     capacity: nat)
    requires FifoStep(q, effect, next, capacity) && FifoRuns(next, rest, q', capacity)
    ensures FifoRuns(q, [effect] + rest, q', capacity)
  {
    assert ([effect] + rest)[1..] == rest;
  }

  /** One step in front of a run that refines the FIFO. */
  lemma EffectsRefine(s: State, actions: seq<Action>, t: State, capacity: nat)
    requires actions != [] && Runs(s, actions, t)
    requires IndicesInv(s) && IndicesInv(Apply(s, actions[0])) && IndicesInv(t)
    requires FifoStep(Queue(s), EffectOf(s, actions[0]), Queue(Apply(s, actions[0])), capacity)
    requires FifoRuns(Queue(Apply(s, actions[0])), Effects(Apply(s, actions[0]), actions[1..], t), Queue(t), capacity)
    ensures FifoRuns(Queue(s), Effects(s, actions, t), Queue(t), capacity)
  {
    var next := Apply(s, actions[0]);
    FifoRunsStep(Queue(s), EffectOf(s, actions[0]), Queue(next), Effects(next, actions[1..], t), Queue(t), capacity);
  }

  lemma StepKeepsSize(s: State, a: Action)
    requires Enabled(s, a) && Allowed(s, a)
    ensures |Apply(s, a).slots| == |s.slots|
  {
  }

  lemma {:induction false} RunKeepsInv(s: State, actions: seq<Action>, t: State)
    requires Inv(s) && Runs(s, actions, t)
    ensures Inv(t) && |t.slots| == |s.slots|
    decreases |actions|
  {
    if actions != [] {
      StepKeepsInv(s, actions[0]);
      StepKeepsSize(s, actions[0]);
      RunKeepsInv(Apply(s, actions[0]), actions[1..], t);
    }
  }

  lemma InvIndices(s: State)
    requires Inv(s)
    ensures IndicesInv(s)
  {
  }

  lemma {:induction false} RunRefinesFifoFrom(s: State, actions: seq<Action>, t: State, capacity: nat)
    requires Inv(s) && Runs(s, actions, t) && capacity + 1 == |s.slots|
    ensures IndicesInv(s) && IndicesInv(t) && FifoRuns(Queue(s), Effects(s, actions, t), Queue(t), capacity)
    decreases |actions|
  {
    InvIndices(s);
    if actions != [] {
      StepRefinesFifo(s, actions[0]);
      StepKeepsSize(s, actions[0]);
      RunRefinesFifoFrom(Apply(s, actions[0]), actions[1..], t, capacity);
      EffectsRefine(s, actions, t, capacity);
    }
  }

  /** For every interleaving, with stale snapshots: no construct hits a live slot, no raw slot is
      used, popFront's assertion holds, what was consumed is what was pushed, in order, the ring
      never holds more than size - 1 elements, and the results the callers see are those of a FIFO
      of that capacity. */
  lemma RingRefinesBoundedFifo(size: nat, actions: seq<Action>, t: State)
    requires size >= 2 && Runs(Init(size), actions, t)
    ensures !t.fault
    ensures t.consumed <= t.pushed && |t.pushed| - |t.consumed| <= size - 1
    ensures FifoRuns([], Effects(Init(size), actions, t), t.pushed[|t.consumed|..], size - 1)
  {
    InitInv(size);
    RunKeepsInv(Init(size), actions, t);
    RunRefinesFifoFrom(Init(size), actions, t, size - 1);
  }

  /** The reserved slot is what makes it safe: in every reachable state the slot the producer is
      about to construct in is raw, although the consumer may meanwhile have moved on. */
  lemma ConstructsOnlyInRawSlots(size: nat, actions: seq<Action>, t: State)
    requires size >= 2 && Runs(Init(size), actions, t) && t.producer.RoomChecked?
    ensures t.producer.w < |t.slots| && t.slots[t.producer.w] == Raw
    ensures Enabled(t, Construct)
  {
    InitInv(size);
    RunKeepsInv(Init(size), actions, t);
    assert t.slots[Hop(t.readIndex, Occupied(t), |t.slots|)] == Expected(t, Occupied(t));
  }

  lemma InitInv(size: nat)
    requires size >= 2
    ensures Inv(Init(size))
  {
    assert forall k | 0 <= k < size :: Expected(Init(size), k) == Raw;
  }

  /** What the two index comparisons decide: in every reachable state the producer goes on exactly when
      fewer than size - 1 elements are stored, and the consumer exactly when one is. */
  lemma ComparisonsAreExact(size: nat, actions: seq<Action>, t: State)
    requires size >= 2 && Runs(Init(size), actions, t)
    ensures IndicesInv(t)
    ensures Enabled(t, CheckRoom) ==> (Apply(t, CheckRoom).producer.RoomChecked? <==> |Queue(t)| < size - 1)
    ensures Enabled(t, CheckElement) ==> (Apply(t, CheckElement).consumer.ElementChecked? <==> Queue(t) != [])
  {
    InitInv(size);
    RunKeepsInv(Init(size), actions, t);
  }

  // Counting and popping

  /** The consumer holds a sample of the write index that is `n` elements after the read index. */
  ghost predicate SampledAt(s: State, n: nat) {
    && IndicesInv(s) && s.consumer.WriteIndexSampled?
    && n <= Occupied(s) && s.consumer.w == Hop(s.readIndex, n, |s.slots|)
  }

  lemma StepKeepsSample(s: State, a: Action, n: nat)
    requires Inv(s) && Enabled(s, a) && Allowed(s, a) && SampledAt(s, n) && !a.PopOccupancy?
    ensures SampledAt(Apply(s, a), n)
  {
    StepKeepsInv(s, a);
  }

  lemma {:induction false} RunKeepsSample(s: State, actions: seq<Action>, t: State, n: nat)
    requires Inv(s) && Runs(s, actions, t) && SampledAt(s, n) && PopOccupancy !in actions
    ensures SampledAt(t, n)
    decreases |actions|
  {
    if actions != [] {
      StepKeepsInv(s, actions[0]);
      StepKeepsSample(s, actions[0], n);
      RunKeepsSample(Apply(s, actions[0]), actions[1..], t, n);
    }
  }

  /** The occupancy a consumer computes is the number of elements that were stored when it sampled the
      write index, however many were written since. */
  lemma CountIsLengthAtSample(size: nat, before: seq<Action>, s: State, between: seq<Action>, t: State)
    requires size >= 2 && Runs(Init(size), before, s) && Enabled(s, SampleWriteIndex)
    requires Runs(Apply(s, SampleWriteIndex), between, t) && PopOccupancy !in between && Enabled(t, PopOccupancy)
    ensures IndicesInv(s) && Apply(t, PopOccupancy).consumer == Popping(|Queue(s)|)
  {
    InitInv(size);
    RunKeepsInv(Init(size), before, s);
    StepKeepsInv(s, SampleWriteIndex);
    RunKeepsSample(Apply(s, SampleWriteIndex), between, t, Occupied(s));
  }

  /** The consumer is popping and has `left` elements to go. */
  predicate PopsStill(s: State, left: nat) {
    match s.consumer
    case Popping(n) => n == left
    case ReadIndexLoaded(_, n) => n == left > 0
    case ElementChecked(_, n) => n == left > 0
    case Destroyed(_, _, n) => n == left > 0
    case _ => false
  }

  lemma StepKeepsPopping(s: State, a: Action, left: nat) returns (next: nat)
    requires Inv(s) && Enabled(s, a) && Allowed(s, a) && PopsStill(s, left) && !a.EndPop?
    ensures PopsStill(Apply(s, a), next) && next + |Apply(s, a).consumed| == left + |s.consumed|
  {
    StepKeepsInv(s, a);
    next := if a.PublishRead? then left - 1 else left;
  }

  lemma {:induction false} RunKeepsPopping(s: State, actions: seq<Action>, t: State, left: nat) returns (next: nat)
    requires Inv(s) && Runs(s, actions, t) && PopsStill(s, left) && EndPop !in actions
    ensures PopsStill(t, next) && next + |t.consumed| == left + |s.consumed|
    decreases |actions|
  {
    next := left;
    if actions != [] {
      StepKeepsInv(s, actions[0]);
      next := StepKeepsPopping(s, actions[0], left);
      next := RunKeepsPopping(Apply(s, actions[0]), actions[1..], t, next);
    }
  }

  /** A pop of x elements removes exactly x: whatever is written meanwhile, and so with the count of a
      flush exactly what was stored when it was taken. */
  lemma PopRemovesExactly(size: nat, before: seq<Action>, s: State, between: seq<Action>, t: State, x: nat)
    requires size >= 2 && Runs(Init(size), before, s) && s.consumer == Popping(x)
    requires Runs(s, between, t) && EndPop !in between && Enabled(t, EndPop)
    ensures |t.consumed| == |s.consumed| + x
  {
    InitInv(size);
    RunKeepsInv(Init(size), before, s);
    var left := RunKeepsPopping(s, between, t, x);
  }
}
