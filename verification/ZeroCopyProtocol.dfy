/** Zero-copy recording while the producer keeps writing and the cleanup keeps popping. The recorder
    copies byte by byte, so that every other step may come between any two bytes. */
module ZeroCopyProtocol {
  import opened Arithmetic
  import opened IterableQueueModel
  import opened ZeroCopyRecorder

  /** Where the recording thread is. While copying, `next` is the write pointer the turn will leave,
      and `final` marks the completion of the last frame after the recording time is over. When the
      search for an aligned element has run past the end it is stuck. */
  datatype Phase =
    | Off
    | Unanchored
    | Aligning
    | Stuck
    | Ready
    | Looking
    | Copying(cursor: nat, left: nat, next: nat, final: bool)
    | Moved
    | Done

  /** History, which no step reads to decide anything: every published element, how many were popped,
      the element recording started with, the one the watermark is taken from, the one under the
      pointer with the offset into it, and the newest one when the end was last sampled. */
  datatype Trace = Trace(log: seq<Record>, popped: nat, first: nat, mark: nat, frame: nat, offset: nat, last: nat)

  datatype State = State(
    records: seq<Record>, readIndex: nat, writeIndex: nat,
    phase: Phase, watermark: nat, begin: nat, pointer: nat, end: nat,
    file: seq<int>, trace: Trace)

  datatype Action =
    | Construct(r: Record) | Publish
    | Pop
    | Begin | Anchor | Skip | Position
    | SampleEnd | StartChunk | CopyByte | EndChunk | UpdateWatermark | EndTurns
    | TimeOver

  function Following(i: nat, slots: nat): nat {
    if i + 1 == slots then 0 else i + 1
  }

  function Preceding(i: nat, slots: nat): nat
    requires slots >= 1
  {
    if i == 0 then slots - 1 else i - 1
  }

  predicate Enabled(l: Layout, s: State, a: Action)
    requires l.Valid()
  {
    match a
    case Construct(r) =>
      && Following(s.writeIndex, l.slots) != s.readIndex && s.writeIndex < |s.records|
      && |r.bytes| == l.payload
    case Publish =>
      && Following(s.writeIndex, l.slots) != s.readIndex && s.writeIndex < |s.records|
      && |s.records[s.writeIndex].bytes| == l.payload
      && s.records[s.writeIndex].timestamp > Newest(s.trace.log)
    case Pop =>
      && s.readIndex != s.writeIndex && s.readIndex < |s.records|
      && s.records[s.readIndex].timestamp < s.watermark
    case Begin => s.phase.Off?
    case Anchor => s.phase.Unanchored? && s.readIndex != s.writeIndex && s.readIndex < |s.records|
    case Skip => s.phase.Aligning? && s.begin < l.slots && !l.aligned[s.begin]
    case Position => s.phase.Aligning? && s.begin < l.slots && l.aligned[s.begin]
    case SampleEnd => s.phase.Ready?
    case StartChunk => s.phase.Looking? && s.pointer < l.Size() && s.end < l.Size()
    case CopyByte => s.phase.Copying? && s.phase.left > 0 && Addressable(l, s.records, s.phase.cursor)
    case EndChunk => s.phase.Copying? && s.phase.left == 0
    case UpdateWatermark => s.phase.Moved? && s.pointer / l.payload < |s.records|
    case EndTurns => s.phase.Looking?
    case TimeOver => s.phase.Ready? || s.phase.Unanchored?
  }

  /** The history after one more byte. */
  function OneByteOn(l: Layout, h: Trace): Trace {
    if h.offset + 1 == l.payload then h.(frame := h.frame + 1, offset := 0) else h.(offset := h.offset + 1)
  }

  /** One byte was copied to the file. */
  function AfterByte(l: Layout, s: State, byte: int): State
    requires s.phase.Copying? && s.phase.left > 0
  {
    s.(phase := s.phase.(cursor := s.phase.cursor + 1, left := s.phase.left - 1),
       file := s.file + [byte], trace := OneByteOn(l, s.trace))
  }

  function Newest(log: seq<Record>): nat {
    if log == [] then 0 else log[|log| - 1].timestamp
  }

  function Apply(l: Layout, s: State, a: Action): State
    requires l.Valid() && Enabled(l, s, a)
  {
    var h := s.trace;
    match a
    case Construct(r) => s.(records := s.records[s.writeIndex := r])
    case Publish =>
      s.(writeIndex := Following(s.writeIndex, l.slots), trace := h.(log := h.log + [s.records[s.writeIndex]]))
    case Pop => s.(readIndex := Following(s.readIndex, l.slots), trace := h.(popped := h.popped + 1))
    case Begin => s.(phase := Unanchored, watermark := 0)
    case Anchor =>
      s.(phase := Aligning, watermark := s.records[s.readIndex].timestamp, begin := s.readIndex,
         trace := h.(first := h.popped, mark := h.popped, frame := h.popped))
    case Skip =>
      if Following(s.begin, l.slots) == s.writeIndex then
        s.(phase := Stuck, begin := END_INDEX, watermark := 0)
      else
        s.(begin := Following(s.begin, l.slots), trace := h.(first := h.frame + 1, frame := h.frame + 1))
    case Position => s.(phase := Ready, pointer := s.begin * l.payload, trace := h.(last := h.frame))
    case SampleEnd =>
      s.(phase := Looking, end := Preceding(s.writeIndex, l.slots) * l.payload,
         trace := h.(last := if h.log == [] then 0 else |h.log| - 1))
    case StartChunk =>
      var n := ChunkLength(l, s.pointer, s.end);
      s.(phase := Copying(s.pointer, n, Wrapped(l, s.pointer + n), false))
    case CopyByte => AfterByte(l, s, ByteAt(l, s.records, s.phase.cursor))
    case EndChunk =>
      if s.phase.final then s.(phase := Done, watermark := NEVER) else s.(phase := Moved, pointer := s.phase.next)
    case UpdateWatermark =>
      s.(phase := Looking, watermark := s.records[s.pointer / l.payload].timestamp, trace := h.(mark := h.frame))
    case EndTurns => s.(phase := Ready)
    case TimeOver =>
      if s.phase.Ready? && s.pointer % l.payload != 0 then
        s.(phase := Copying(s.pointer, l.payload - s.pointer % l.payload, s.pointer, true))
      else
        s.(phase := Done, watermark := NEVER)
  }

  ghost predicate Initial(l: Layout, s: State) {
    && |s.records| == l.slots && s.readIndex == 0 && s.writeIndex == 0
    && s.phase == Off && s.watermark == NEVER && s.file == []
    && s.trace == Trace([], 0, 0, 0, 0, 0, 0)
  }

  /** The bytes of consecutive elements. */
  function Bytes(frames: seq<Record>): seq<int> {
    if frames == [] then [] else Bytes(frames[..|frames| - 1]) + frames[|frames| - 1].bytes
  }

  lemma BytesOfOneMore(log: seq<Record>, first: nat, frame: nat)
    requires first <= frame < |log|
    ensures Bytes(log[first..frame + 1]) == Bytes(log[first..frame]) + log[frame].bytes
  {
    var frames := log[first..frame + 1];
    assert frames[..|frames| - 1] == log[first..frame];
  }

  /** Recording: between finding the aligned element and closing the file. */
  predicate Recording(s: State) {
    s.phase.Ready? || s.phase.Looking? || s.phase.Copying? || s.phase.Moved?
  }

  // The invariant

  ghost function Held(s: State): int {
    |s.trace.log| - s.trace.popped
  }

  ghost predicate RingInv(l: Layout, s: State) {
    && l.Valid() && |s.records| == l.slots && s.readIndex < l.slots && 0 <= Held(s) < l.slots
    && s.writeIndex == Hop(s.readIndex, Held(s), l.slots)
  }

  ghost predicate LiveInv(l: Layout, s: State)
    requires RingInv(l, s)
  {
    forall k | 0 <= k < Held(s) :: s.records[Hop(s.readIndex, k, l.slots)] == s.trace.log[s.trace.popped + k]
  }

  ghost predicate LogInv(l: Layout, log: seq<Record>) {
    && (forall i | 0 <= i < |log| :: |log[i].bytes| == l.payload && log[i].timestamp > 0)
    && (forall i, j | 0 <= i < j < |log| :: log[i].timestamp < log[j].timestamp)
  }

  /** The slot that holds element number `p`. */
  ghost function SlotFor(l: Layout, s: State, p: nat): nat
    requires RingInv(l, s) && s.trace.popped <= p <= |s.trace.log|
  {
    Hop(s.readIndex, p - s.trace.popped, l.slots)
  }

  /** The watermark is the timestamp of a live element, not newer than the one under the pointer. */
  ghost predicate Pinned(l: Layout, s: State)
    requires RingInv(l, s)
  {
    var h := s.trace;
    && h.popped <= h.mark <= h.frame < |h.log| && h.first <= h.frame
    && s.watermark == h.log[h.mark].timestamp
  }

  /** An offset stands where the history says the recorder is; the end of the buffer is the start of
      slot 0. */
  ghost predicate StandsAt(l: Layout, s: State, position: nat)
    requires RingInv(l, s) && Pinned(l, s)
  {
    var slot := SlotFor(l, s, s.trace.frame);
    || position == slot * l.payload + s.trace.offset
    || (s.trace.offset == 0 && slot == 0 && position == l.Size())
  }

  /** Everything from the first element up to the pointer is in the file, and nothing else; the
      pointer is at most at the start of the newest element. */
  ghost predicate Written(l: Layout, s: State)
    requires LogInv(l, s.trace.log)
  {
    var h := s.trace;
    && h.first <= h.frame <= h.last < |h.log| && h.offset < l.payload && (h.frame == h.last ==> h.offset == 0)
    && s.file == Bytes(h.log[h.first..h.frame]) + h.log[h.frame].bytes[..h.offset]
  }

  ghost predicate EndIsSampled(l: Layout, s: State)
    requires RingInv(l, s) && LogInv(l, s.trace.log) && Pinned(l, s) && Written(l, s)
  {
    s.end == SlotFor(l, s, s.trace.last) * l.payload
  }

  /** Bytes between the pointer and the newest element. */
  ghost function Backlog(l: Layout, h: Trace): int {
    (h.last - h.frame) * l.payload - h.offset
  }

  ghost predicate CopyInv(l: Layout, s: State)
    requires RingInv(l, s) && LogInv(l, s.trace.log) && Pinned(l, s) && Written(l, s) && s.phase.Copying?
  {
    var p := s.phase;
    && StandsAt(l, s, p.cursor) && p.left <= Backlog(l, s.trace) && p.cursor + p.left <= l.Size()
    && if p.final then p.left == (if s.trace.offset == 0 then 0 else l.payload - s.trace.offset)
       else p.next == Wrapped(l, p.cursor + p.left) && EndIsSampled(l, s)
  }

  /** Between two turns the watermark is that of the element under the pointer, once anything is written. */
  ghost predicate MarkFollows(h: Trace) {
    h.mark == h.frame || (h.frame == h.first && h.offset == 0)
  }

  /** None of the `n` slots from `from` on starts at an aligned address. */
  ghost predicate NoneAligned(l: Layout, from: nat, n: nat)
    requires l.Valid() && from < l.slots && n <= l.slots
  {
    forall k | 0 <= k < n :: !l.aligned[Hop(from, k, l.slots)]
  }

  ghost predicate PhaseInv(l: Layout, s: State)
    requires RingInv(l, s) && LogInv(l, s.trace.log)
  {
    var h := s.trace;
    match s.phase
    case Off => s.file == [] && h.first == 0 && h.frame == 0 && h.offset == 0 && s.watermark == NEVER
    case Unanchored => s.file == [] && h.first == 0 && h.frame == 0 && h.offset == 0
    case Aligning =>
      && Pinned(l, s) && s.begin == SlotFor(l, s, h.frame) && h.first == h.frame && h.offset == 0 && s.file == []
      && h.popped == h.mark && NoneAligned(l, s.readIndex, h.frame - h.popped)
    case Stuck => s.file == [] && s.watermark == 0 && exists i | 0 <= i < l.slots :: !l.aligned[i]
    case Ready =>
      Pinned(l, s) && Written(l, s) && s.pointer < l.Size() && StandsAt(l, s, s.pointer) && MarkFollows(h)
    case Looking =>
      && Pinned(l, s) && Written(l, s) && s.pointer < l.Size() && StandsAt(l, s, s.pointer)
      && EndIsSampled(l, s) && MarkFollows(h)
    case Copying(_, _, _, _) => Pinned(l, s) && Written(l, s) && CopyInv(l, s)
    case Done => h.first <= h.frame <= |h.log| && s.file == Bytes(h.log[h.first..h.frame]) && s.watermark == NEVER
    case Moved =>
      && Pinned(l, s) && Written(l, s) && s.pointer < l.Size() && StandsAt(l, s, s.pointer)
      && EndIsSampled(l, s)
  }

  ghost predicate Inv(l: Layout, s: State) {
    RingInv(l, s) && LiveInv(l, s) && LogInv(l, s.trace.log) && PhaseInv(l, s)
  }

  // The producer and the cleanup

  lemma ConstructKeepsInv(l: Layout, s: State, r: Record)
    requires Inv(l, s) && Enabled(l, s, Construct(r))
    ensures Inv(l, Apply(l, s, Construct(r)))
  {
    var t := Apply(l, s, Construct(r));
    assert forall k | 0 <= k < Held(s) :: Hop(s.readIndex, k, l.slots) != s.writeIndex;
    PhaseInvIgnoresRecords(l, s, t);
  }

  lemma PhaseInvIgnoresRecords(l: Layout, s: State, t: State)
    requires RingInv(l, s) && LogInv(l, s.trace.log) && PhaseInv(l, s)
    requires |t.records| == |s.records| && t == s.(records := t.records)
    ensures RingInv(l, t) && PhaseInv(l, t)
  {
  }

  lemma PublishKeepsRing(l: Layout, s: State)
    requires Inv(l, s) && Enabled(l, s, Publish)
    ensures var t := Apply(l, s, Publish); RingInv(l, t) && LiveInv(l, t) && LogInv(l, t.trace.log)
  {
    var t := Apply(l, s, Publish);
    assert Hop(s.readIndex, Held(s) + 1, l.slots) == t.writeIndex;
    assert t.trace.log[..|s.trace.log|] == s.trace.log;
  }

  /** What is written does not change when the log grows. */
  lemma PublishKeepsWritten(l: Layout, s: State, t: State, r: Record)
    requires LogInv(l, s.trace.log) && LogInv(l, t.trace.log)
    requires t.trace == s.trace.(log := s.trace.log + [r]) && t.file == s.file && Written(l, s)
    ensures Written(l, t)
  {
    var h := s.trace;
    assert t.trace.log[h.first..h.frame] == h.log[h.first..h.frame];
  }

  lemma PublishKeepsPhase(l: Layout, s: State, t: State, r: Record)
    requires RingInv(l, s) && LogInv(l, s.trace.log) && RingInv(l, t) && LogInv(l, t.trace.log)
    requires t == s.(writeIndex := t.writeIndex, trace := s.trace.(log := s.trace.log + [r]))
    requires PhaseInv(l, s) && Recording(s)
    ensures PhaseInv(l, t)
  {
    PublishKeepsWritten(l, s, t, r);
  }

  lemma PublishKeepsRest(l: Layout, s: State, t: State, r: Record)
    requires RingInv(l, s) && LogInv(l, s.trace.log) && RingInv(l, t) && LogInv(l, t.trace.log)
    requires t == s.(writeIndex := t.writeIndex, trace := s.trace.(log := s.trace.log + [r]))
    requires PhaseInv(l, s) && !Recording(s)
    ensures PhaseInv(l, t)
  {
    var h := s.trace;
    if s.phase.Done? {
      assert t.trace.log[h.first..h.frame] == h.log[h.first..h.frame];
    }
  }

  lemma PublishKeepsInv(l: Layout, s: State)
    requires Inv(l, s) && Enabled(l, s, Publish)
    ensures Inv(l, Apply(l, s, Publish))
  {
    PublishKeepsRing(l, s);
    if Recording(s) {
      PublishKeepsPhase(l, s, Apply(l, s, Publish), s.records[s.writeIndex]);
    } else {
      PublishKeepsRest(l, s, Apply(l, s, Publish), s.records[s.writeIndex]);
    }
  }

  /** The cleanup only pops what is older than the element the watermark was taken from. */
  lemma PopStaysBehindMark(l: Layout, s: State)
    requires Inv(l, s) && Enabled(l, s, Pop) && Pinned(l, s)
    ensures s.trace.popped < s.trace.mark
  {
    assert s.records[Hop(s.readIndex, 0, l.slots)] == s.trace.log[s.trace.popped];
  }

  lemma PopKeepsRing(l: Layout, s: State)
    requires Inv(l, s) && Enabled(l, s, Pop)
    ensures var t := Apply(l, s, Pop); RingInv(l, t) && LiveInv(l, t)
    ensures var t := Apply(l, s, Pop);
            forall p | t.trace.popped <= p <= |t.trace.log| :: SlotFor(l, t, p) == SlotFor(l, s, p)
  {
    var t := Apply(l, s, Pop);
    assert forall k | 0 <= k < l.slots :: Hop(t.readIndex, k, l.slots) == Hop(s.readIndex, k + 1, l.slots);
    forall k | 0 <= k < Held(t)
      ensures t.records[Hop(t.readIndex, k, l.slots)] == t.trace.log[t.trace.popped + k]
    {
      assert s.records[Hop(s.readIndex, k + 1, l.slots)] == s.trace.log[s.trace.popped + (k + 1)];
    }
  }

  lemma PopKeepsPhase(l: Layout, s: State, t: State)
    requires RingInv(l, s) && RingInv(l, t) && LogInv(l, s.trace.log) && PhaseInv(l, s)
    requires t == s.(readIndex := t.readIndex, trace := s.trace.(popped := s.trace.popped + 1))
    requires forall p | t.trace.popped <= p <= |t.trace.log| :: SlotFor(l, t, p) == SlotFor(l, s, p)
    requires Pinned(l, s) && s.trace.popped < s.trace.mark && Recording(s)
    ensures PhaseInv(l, t)
  {
    assert SlotFor(l, t, t.trace.frame) == SlotFor(l, s, s.trace.frame);
    assert Written(l, t);
    assert SlotFor(l, t, t.trace.last) == SlotFor(l, s, s.trace.last);
  }

  lemma PopKeepsInv(l: Layout, s: State)
    requires Inv(l, s) && Enabled(l, s, Pop)
    ensures Inv(l, Apply(l, s, Pop))
  {
    PopKeepsRing(l, s);
    if s.phase.Aligning? {
      PopStaysBehindMark(l, s);
    } else if Recording(s) {
      PopStaysBehindMark(l, s);
      PopKeepsPhase(l, s, Apply(l, s, Pop));
    }
  }

  // The recorder

  lemma AnchorKeepsInv(l: Layout, s: State)
    requires Inv(l, s) && Enabled(l, s, Anchor)
    ensures Inv(l, Apply(l, s, Anchor))
  {
    assert s.records[Hop(s.readIndex, 0, l.slots)] == s.trace.log[s.trace.popped];
  }

  /** An increment from the last slot before the write index leaves the stored elements. */
  lemma SkipLeavesExactlyAtNewest(l: Layout, s: State)
    requires RingInv(l, s) && Pinned(l, s) && s.begin == SlotFor(l, s, s.trace.frame)
    ensures Following(s.begin, l.slots) == SlotFor(l, s, s.trace.frame + 1)
    ensures Following(s.begin, l.slots) == s.writeIndex <==> s.trace.frame == |s.trace.log| - 1
  {
  }

  lemma SkipKeepsInv(l: Layout, s: State)
    requires Inv(l, s) && Enabled(l, s, Skip)
    ensures Inv(l, Apply(l, s, Skip))
  {
    SkipLeavesExactlyAtNewest(l, s);
    assert NoneAligned(l, s.readIndex, s.trace.frame + 1 - s.trace.popped);
  }

  lemma SlotIsInside(l: Layout, slot: nat, offset: nat)
    requires l.Valid() && slot < l.slots && offset < l.payload
    ensures slot * l.payload + offset < l.Size()
  {
    MulMonotone(slot + 1, l.slots, l.payload);
    MulSuccessor(slot, l.payload);
  }

  lemma PositionKeepsInv(l: Layout, s: State)
    requires Inv(l, s) && Enabled(l, s, Position)
    ensures Inv(l, Apply(l, s, Position))
  {
    var h := s.trace;
    SlotIsInside(l, s.begin, 0);
    assert h.log[h.first..h.frame] == [];
  }

  lemma SampleEndKeepsPhase(l: Layout, s: State)
    requires RingInv(l, s) && LogInv(l, s.trace.log) && PhaseInv(l, s) && s.phase.Ready?
    ensures var t := Apply(l, s, SampleEnd); RingInv(l, t) && PhaseInv(l, t)
  {
    assert Preceding(s.writeIndex, l.slots) == Hop(s.readIndex, Held(s) - 1, l.slots);
  }

  lemma SampleEndKeepsInv(l: Layout, s: State)
    requires Inv(l, s) && Enabled(l, s, SampleEnd)
    ensures Inv(l, Apply(l, s, SampleEnd))
  {
    SampleEndKeepsPhase(l, s);
  }

  /** Inside the buffer, dividing an offset by the payload size finds the element under it. */
  lemma FindsElement(l: Layout, s: State, position: nat)
    requires RingInv(l, s) && LogInv(l, s.trace.log) && Pinned(l, s) && Written(l, s)
    requires StandsAt(l, s, position) && position < l.Size()
    ensures position / l.payload == SlotFor(l, s, s.trace.frame)
    ensures position % l.payload == s.trace.offset
    ensures position == SlotFor(l, s, s.trace.frame) * l.payload + s.trace.offset
  {
    DivisionIs(position, l.payload, SlotFor(l, s, s.trace.frame), s.trace.offset);
  }

  /** Whatever the wrap, the bytes up to the newest element are the bytes ahead of the pointer. */
  lemma BacklogIsAhead(l: Layout, s: State)
    requires RingInv(l, s) && LogInv(l, s.trace.log) && Pinned(l, s) && Written(l, s)
    requires StandsAt(l, s, s.pointer) && s.pointer < l.Size() && EndIsSampled(l, s)
    ensures s.end < l.Size() && Backlog(l, s.trace) == Ahead(l, s.pointer, s.end)
  {
    var a, b := SlotFor(l, s, s.trace.frame), SlotFor(l, s, s.trace.last);
    FindsElement(l, s, s.pointer);
    SlotIsInside(l, b, 0);
    if a <= b {
      assert s.trace.last - s.trace.frame == b - a;
      MulDistributes(b, a, l.payload);
      if a < b {
        MulMonotone(a + 1, b, l.payload);
        MulSuccessor(a, l.payload);
      }
    } else {
      assert s.trace.last - s.trace.frame == b + l.slots - a;
      MulDistributes(b + l.slots, a, l.payload);
      MulDistributes(b, l.slots, l.payload);
      MulMonotone(b + 1, a, l.payload);
      MulSuccessor(b, l.payload);
    }
  }

  lemma StartChunkKeepsInv(l: Layout, s: State)
    requires Inv(l, s) && Enabled(l, s, StartChunk)
    ensures Inv(l, Apply(l, s, StartChunk))
  {
    BacklogIsAhead(l, s);
    ChunkNeverOvertakes(l, s.pointer, s.end);
  }

  lemma BacklogOfPartial(l: Layout, s: State)
    requires l.Valid() && LogInv(l, s.trace.log) && Written(l, s) && s.trace.offset > 0
    ensures Backlog(l, s.trace) >= l.payload - s.trace.offset
  {
    MulMonotone(1, s.trace.last - s.trace.frame, l.payload);
  }

  lemma TimeOverKeepsInv(l: Layout, s: State)
    requires Inv(l, s) && Enabled(l, s, TimeOver)
    ensures Inv(l, Apply(l, s, TimeOver))
  {
    var h := s.trace;
    if s.phase.Unanchored? {
      assert h.log[h.first..h.frame] == [];
    } else {
      FindsElement(l, s, s.pointer);
      if h.offset > 0 {
        BacklogOfPartial(l, s);
        SlotIsInside(l, SlotFor(l, s, h.frame), l.payload - 1);
      }
    }
  }

  /** The end of the buffer and its start are the same place. */
  lemma WrappingStaysPut(l: Layout, s: State, position: nat)
    requires RingInv(l, s) && Pinned(l, s) && s.trace.offset < l.payload
    requires position <= l.Size() && StandsAt(l, s, position)
    ensures Wrapped(l, position) < l.Size() && StandsAt(l, s, Wrapped(l, position))
  {
    SlotIsInside(l, SlotFor(l, s, s.trace.frame), s.trace.offset);
    SlotIsInside(l, 0, 0);
  }

  lemma EndChunkKeepsPhase(l: Layout, s: State)
    requires RingInv(l, s) && LogInv(l, s.trace.log) && PhaseInv(l, s) && s.phase.Copying? && s.phase.left == 0
    ensures s.phase.final ==> PhaseInv(l, s.(phase := Done, watermark := NEVER))
    ensures !s.phase.final ==> PhaseInv(l, s.(phase := Moved, pointer := s.phase.next))
  {
    if !s.phase.final {
      WrappingStaysPut(l, s, s.phase.cursor);
    }
  }

  lemma EndChunkKeepsInv(l: Layout, s: State)
    requires Inv(l, s) && Enabled(l, s, EndChunk)
    ensures Inv(l, Apply(l, s, EndChunk))
  {
    EndChunkKeepsPhase(l, s);
  }

  lemma UpdateWatermarkKeepsInv(l: Layout, s: State)
    requires Inv(l, s) && Enabled(l, s, UpdateWatermark)
    ensures Inv(l, Apply(l, s, UpdateWatermark))
  {
    FindsElement(l, s, s.pointer);
    var k := s.trace.frame - s.trace.popped;
    assert s.records[Hop(s.readIndex, k, l.slots)] == s.trace.log[s.trace.popped + k];
  }

  /** An offset is inside the live element that the history says the recorder is at. */
  ghost predicate OnLiveElement(l: Layout, s: State, position: nat)
    requires l.Valid()
  {
    var h := s.trace;
    && h.popped <= h.frame < |h.log| && position / l.payload < |s.records|
    && s.records[position / l.payload] == h.log[h.frame] && position % l.payload == h.offset
    && h.offset < |h.log[h.frame].bytes|
  }

  lemma StandsOnLiveElement(l: Layout, s: State, position: nat)
    requires RingInv(l, s) && LiveInv(l, s) && LogInv(l, s.trace.log) && Pinned(l, s) && Written(l, s)
    requires StandsAt(l, s, position) && position < l.Size()
    ensures OnLiveElement(l, s, position)
  {
    FindsElement(l, s, position);
    var k := s.trace.frame - s.trace.popped;
    assert s.records[Hop(s.readIndex, k, l.slots)] == s.trace.log[s.trace.popped + k];
  }

  lemma AppendNextByte(file: seq<int>, log: seq<Record>, first: nat, frame: nat, offset: nat)
    requires first <= frame < |log| && offset < |log[frame].bytes|
    requires file == Bytes(log[first..frame]) + log[frame].bytes[..offset]
    ensures file + [log[frame].bytes[offset]] == Bytes(log[first..frame]) + log[frame].bytes[..offset + 1]
    ensures offset + 1 == |log[frame].bytes| ==>
              file + [log[frame].bytes[offset]] == Bytes(log[first..frame + 1])
  {
    var bytes := log[frame].bytes;
    assert bytes[..offset] + [bytes[offset]] == bytes[..offset + 1];
    if offset + 1 == |bytes| {
      assert bytes[..offset + 1] == bytes;
      BytesOfOneMore(log, first, frame);
    }
  }

  lemma CopyShrinksBacklog(l: Layout, h: Trace)
    requires l.Valid()
    ensures Backlog(l, OneByteOn(l, h)) == Backlog(l, h) - 1
  {
    MulSuccessor(h.last - h.frame - 1, l.payload);
  }

  lemma CopyWithinElement(l: Layout, s: State, t: State)
    requires l.Valid() && LogInv(l, s.trace.log) && Written(l, s) && Backlog(l, s.trace) > 0
    requires s.trace.offset + 1 < l.payload && t.trace == s.trace.(offset := s.trace.offset + 1)
    requires t.file == s.file + [s.trace.log[s.trace.frame].bytes[s.trace.offset]]
    ensures Written(l, t)
  {
    var h := s.trace;
    AppendNextByte(s.file, h.log, h.first, h.frame, h.offset);
  }

  lemma CopyEndsElement(l: Layout, s: State, t: State)
    requires l.Valid() && LogInv(l, s.trace.log) && Written(l, s) && Backlog(l, s.trace) > 0
    requires s.trace.offset + 1 == l.payload && t.trace == s.trace.(frame := s.trace.frame + 1, offset := 0)
    requires t.file == s.file + [s.trace.log[s.trace.frame].bytes[s.trace.offset]]
    ensures Written(l, t)
  {
    var h := s.trace;
    AppendNextByte(s.file, h.log, h.first, h.frame, h.offset);
    assert h.log[h.frame + 1].bytes[..0] == [];
  }

  lemma CopyWritesNextByte(l: Layout, s: State, t: State)
    requires l.Valid() && LogInv(l, s.trace.log) && Written(l, s) && Backlog(l, s.trace) > 0
    requires t.trace == OneByteOn(l, s.trace)
    requires t.file == s.file + [s.trace.log[s.trace.frame].bytes[s.trace.offset]]
    ensures Written(l, t)
  {
    if s.trace.offset + 1 == l.payload {
      CopyEndsElement(l, s, t);
    } else {
      CopyWithinElement(l, s, t);
    }
  }

  lemma CopyStepsForward(l: Layout, s: State, t: State, c: nat)
    requires RingInv(l, s) && RingInv(l, t) && Pinned(l, s) && Pinned(l, t)
    requires t.readIndex == s.readIndex && t.trace == OneByteOn(l, s.trace) && s.trace.offset < l.payload
    requires StandsAt(l, s, c) && c < l.Size()
    ensures StandsAt(l, t, c + 1)
  {
    var slot := SlotFor(l, s, s.trace.frame);
    MulSuccessor(slot, l.payload);
  }

  lemma CopyKeepsTarget(l: Layout, s: State, t: State)
    requires RingInv(l, s) && LogInv(l, s.trace.log) && PhaseInv(l, s) && s.phase.Copying? && s.phase.left > 0
    requires t == AfterByte(l, s, s.trace.log[s.trace.frame].bytes[s.trace.offset])
    requires RingInv(l, t) && Pinned(l, t) && Written(l, t)
    ensures CopyInv(l, t)
  {
    CopyShrinksBacklog(l, s.trace);
    CopyStepsForward(l, s, t, s.phase.cursor);
  }

  lemma CopyKeepsPhase(l: Layout, s: State)
    requires RingInv(l, s) && LogInv(l, s.trace.log) && PhaseInv(l, s) && s.phase.Copying? && s.phase.left > 0
    ensures PhaseInv(l, AfterByte(l, s, s.trace.log[s.trace.frame].bytes[s.trace.offset]))
  {
    var t := AfterByte(l, s, s.trace.log[s.trace.frame].bytes[s.trace.offset]);
    CopyWritesNextByte(l, s, t);
    CopyKeepsTarget(l, s, t);
  }

  lemma CopyKeepsRing(l: Layout, s: State, byte: int)
    requires RingInv(l, s) && LiveInv(l, s) && s.phase.Copying? && s.phase.left > 0
    ensures var t := AfterByte(l, s, byte); RingInv(l, t) && LiveInv(l, t) && t.trace.log == s.trace.log
  {
  }

  lemma CopyByteKeepsInv(l: Layout, s: State)
    requires Inv(l, s) && Enabled(l, s, CopyByte)
    ensures Inv(l, Apply(l, s, CopyByte))
  {
    StandsOnLiveElement(l, s, s.phase.cursor);
    CopyKeepsRing(l, s, ByteAt(l, s.records, s.phase.cursor));
    CopyKeepsPhase(l, s);
  }

  /** The steps of the producer and of the cleanup. */
  lemma BufferStepKeepsInv(l: Layout, s: State, a: Action)
    requires Inv(l, s) && Enabled(l, s, a) && (a.Construct? || a.Publish? || a.Pop?)
    ensures Inv(l, Apply(l, s, a))
  {
    match a
    case Construct(r) => ConstructKeepsInv(l, s, r);
    case Publish => PublishKeepsInv(l, s);
    case Pop => PopKeepsInv(l, s);
  }

  /** The steps that find the element to begin with, and the end of the recording time. */
  lemma OuterStepKeepsInv(l: Layout, s: State, a: Action)
    requires Inv(l, s) && Enabled(l, s, a)
    requires a.Begin? || a.Anchor? || a.Skip? || a.Position? || a.TimeOver?
    ensures Inv(l, Apply(l, s, a))
  {
    match a
    case Begin =>
    case Anchor => AnchorKeepsInv(l, s);
    case Skip => SkipKeepsInv(l, s);
    case Position => PositionKeepsInv(l, s);
    case TimeOver => TimeOverKeepsInv(l, s);
  }

  lemma EndTurnsKeepsInv(l: Layout, s: State)
    requires Inv(l, s) && Enabled(l, s, EndTurns)
    ensures Inv(l, Apply(l, s, EndTurns))
  {
  }

  /** The steps of the inner loop. */
  lemma TurnStepKeepsInv(l: Layout, s: State, a: Action)
    requires Inv(l, s) && Enabled(l, s, a)
    requires a.SampleEnd? || a.StartChunk? || a.CopyByte? || a.EndChunk? || a.UpdateWatermark? || a.EndTurns?
    ensures Inv(l, Apply(l, s, a))
  {
    match a
    case SampleEnd => SampleEndKeepsInv(l, s);
    case StartChunk => StartChunkKeepsInv(l, s);
    case CopyByte => CopyByteKeepsInv(l, s);
    case EndChunk => EndChunkKeepsInv(l, s);
    case UpdateWatermark => UpdateWatermarkKeepsInv(l, s);
    case EndTurns => EndTurnsKeepsInv(l, s);
  }

  lemma StepKeepsInv(l: Layout, s: State, a: Action)
    requires Inv(l, s) && Enabled(l, s, a)
    ensures Inv(l, Apply(l, s, a))
  {
    if a.Construct? || a.Publish? || a.Pop? {
      BufferStepKeepsInv(l, s, a);
    } else if a.Begin? || a.Anchor? || a.Skip? || a.Position? || a.TimeOver? {
      OuterStepKeepsInv(l, s, a);
    } else {
      TurnStepKeepsInv(l, s, a);
    }
  }

  ghost predicate Runs(l: Layout, s: State, actions: seq<Action>, t: State)
    requires l.Valid()
    decreases |actions|
  {
    if actions == [] then s == t
    else Enabled(l, s, actions[0]) && Runs(l, Apply(l, s, actions[0]), actions[1..], t)
  }

  /** Some run of the producer, the cleanup and the recorder leads to `t`. */
  ghost predicate Reachable(l: Layout, t: State) {
    l.Valid() && exists s, actions :: Initial(l, s) && Runs(l, s, actions, t)
  }

  lemma {:induction false} RunKeepsInv(l: Layout, s: State, actions: seq<Action>, t: State)
    requires Inv(l, s) && Runs(l, s, actions, t)
    ensures Inv(l, t)
    decreases |actions|
  {
    if actions != [] {
      StepKeepsInv(l, s, actions[0]);
      RunKeepsInv(l, Apply(l, s, actions[0]), actions[1..], t);
    }
  }

  lemma ReachableKeepsInv(l: Layout, t: State)
    requires Reachable(l, t)
    ensures Inv(l, t)
  {
    var s, actions :| Initial(l, s) && Runs(l, s, actions, t);
    RunKeepsInv(l, s, actions, t);
  }

  // The theorems

  /** The file holds the bytes of elements `first` up to `frame` and `offset` bytes of the next one. */
  ghost predicate HoldsRun(file: seq<int>, log: seq<Record>, first: nat, frame: nat, offset: nat) {
    && first <= frame <= |log| && (offset > 0 ==> frame < |log| && offset < |log[frame].bytes|)
    && file == Bytes(log[first..frame]) + if offset > 0 then log[frame].bytes[..offset] else []
  }

  /** At every moment the file holds whole consecutive elements in the order they were pushed, and
      then a beginning of the next one: no byte is skipped or repeated, wherever the pointer wraps. */
  lemma FileIsRunOfElements(l: Layout, s: State)
    requires Reachable(l, s)
    ensures exists first, frame, offset :: HoldsRun(s.file, s.trace.log, first, frame, offset)
  {
    ReachableKeepsInv(l, s);
    var h := s.trace;
    if s.file == [] {
      assert HoldsRun(s.file, h.log, 0, 0, 0);
    } else if s.phase.Done? {
      assert HoldsRun(s.file, h.log, h.first, h.frame, 0);
    } else {
      assert HoldsRun(s.file, h.log, h.first, h.frame, h.offset);
    }
  }

  /** A finished recording is a concatenation of whole consecutive elements. */
  lemma RecordingIsWholeElements(l: Layout, s: State)
    requires Reachable(l, s) && s.phase.Done?
    ensures exists first, frame :: HoldsRun(s.file, s.trace.log, first, frame, 0)
  {
    ReachableKeepsInv(l, s);
    assert HoldsRun(s.file, s.trace.log, s.trace.first, s.trace.frame, 0);
  }

  /** Between two turns the pointer is inside a live element, at most at the start of the newest, and
      everything from the first recorded element up to that very byte is in the file: what the cleanup
      popped meanwhile was written before. */
  lemma PointerStaysOnLiveElement(l: Layout, s: State)
    requires Reachable(l, s) && (s.phase.Ready? || s.phase.Looking? || s.phase.Moved?)
    ensures s.pointer < l.Size() && OnLiveElement(l, s, s.pointer)
    ensures s.trace.frame == |s.trace.log| - 1 ==> s.trace.offset == 0
    ensures HoldsRun(s.file, s.trace.log, s.trace.first, s.trace.frame, s.trace.offset)
  {
    ReachableKeepsInv(l, s);
    StandsOnLiveElement(l, s, s.pointer);
  }

  /** Between two turns the watermark is the timestamp of the element under the pointer, once any byte is
      written: the cleanup may pop exactly what is in the file as a whole. */
  lemma WatermarkFollowsPointer(l: Layout, s: State)
    requires Reachable(l, s) && (s.phase.Ready? || s.phase.Looking?) && s.file != []
    ensures s.trace.frame < |s.trace.log| && s.watermark == s.trace.log[s.trace.frame].timestamp
    ensures s.readIndex < |s.records|
    ensures Enabled(l, s, Pop) <==> s.trace.popped < s.trace.frame
  {
    ReachableKeepsInv(l, s);
    var h := s.trace;
    assert h.log[h.first..h.first] == [] && h.log[h.frame].bytes[..0] == [];
    assert s.records[Hop(s.readIndex, 0, l.slots)] == h.log[h.popped];
  }

  /** And while no recording is on, nothing is held back. */
  lemma IdleRecorderHoldsNothingBack(l: Layout, s: State)
    requires Reachable(l, s) && (s.phase.Off? || s.phase.Done?)
    ensures s.watermark == NEVER
  {
    ReachableKeepsInv(l, s);
  }

  /** While bytes are copied, the one to be copied next is always inside a live element too. */
  lemma CopiesOnlyLiveElements(l: Layout, s: State)
    requires Reachable(l, s) && s.phase.Copying? && s.phase.left > 0
    ensures OnLiveElement(l, s, s.phase.cursor) && Enabled(l, s, CopyByte)
  {
    ReachableKeepsInv(l, s);
    StandsOnLiveElement(l, s, s.phase.cursor);
  }

  /** A turn writes no more than what lies before the newest element, and nothing exactly when that
      is at most a chunk and does not wrap. */
  lemma IdleExactlyWhenCaughtUp(l: Layout, s: State)
    requires Reachable(l, s) && s.phase.Looking? && l.chunk >= 1
    ensures s.pointer < l.Size() && s.end < l.Size() && Enabled(l, s, StartChunk)
    ensures var left := Apply(l, s, StartChunk).phase.left;
            && left <= Backlog(l, s.trace)
            && (left == 0 <==> Backlog(l, s.trace) <= l.chunk && s.pointer <= s.end)
  {
    ReachableKeepsInv(l, s);
    BacklogIsAhead(l, s);
    ChunkNeverOvertakes(l, s.pointer, s.end);
  }
}
