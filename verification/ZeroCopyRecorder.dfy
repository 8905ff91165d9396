/** Zero-copy recording: the bytes of the ring are written to a file in place, chunk by chunk, by a
    byte pointer that chases the newest element around the buffer. Pointers are offsets from the
    start of the buffer. */
module ZeroCopyRecorder {
  import opened Arithmetic

  /** A stored element as raw memory. */
  datatype Record = Record(timestamp: nat, bytes: seq<int>)

  /** `slots` elements of `payload` bytes each; `aligned[i]` tells whether slot i starts at a multiple
      of the alignment size. */
  datatype Layout = Layout(slots: nat, payload: nat, chunk: nat, aligned: seq<bool>) {
    predicate Valid() {
      slots >= 2 && payload >= 1 && |aligned| == slots
    }

    /** Offset of the end of the buffer. */
    function Size(): nat {
      slots * payload
    }
  }

  /** The watermark that holds back nothing. */
  const NEVER: nat := 0xFFFF_FFFF_FFFF_FFFF

  /** Whether an offset from the start of the buffer is that of a byte of memory. */
  predicate Addressable(l: Layout, records: seq<Record>, offset: nat)
    requires l.Valid()
  {
    && offset / l.payload < |records|
    && offset % l.payload < |records[offset / l.payload].bytes|
  }

  function ByteAt(l: Layout, records: seq<Record>, offset: nat): int
    requires l.Valid() && Addressable(l, records, offset)
  {
    records[offset / l.payload].bytes[offset % l.payload]
  }

  /** How many bytes one turn of the inner loop writes from `pointer`, with the start of the newest
      element at `end`. */
  function ChunkLength(l: Layout, pointer: nat, end: nat): (n: nat)
    requires pointer < l.Size() && end < l.Size()
    ensures pointer + n <= l.Size()
  {
    if pointer + l.chunk < end then l.chunk
    else if end < pointer then
      if pointer + l.chunk < l.Size() then l.chunk else l.Size() - pointer
    else 0
  }

  /** The next offset on the circular buffer. */
  function Wrapped(l: Layout, offset: nat): (r: nat)
    requires offset <= l.Size()
  {
    if offset == l.Size() then 0 else offset
  }

  /** Bytes between the pointer and the newest element, going around the buffer. */
  function Ahead(l: Layout, pointer: nat, end: nat): (n: nat)
    requires pointer < l.Size() && end < l.Size()
    ensures n < l.Size()
  {
    if pointer <= end then end - pointer else end + l.Size() - pointer
  }

  /** A turn never overtakes the newest element, and writes nothing exactly when the element starts
      within one chunk of the pointer; otherwise it writes a whole chunk, or what is left of the buffer
      before its end. */
  lemma ChunkNeverOvertakes(l: Layout, pointer: nat, end: nat)
    requires l.Valid() && pointer < l.Size() && end < l.Size()
    ensures var n := ChunkLength(l, pointer, end);
            && n <= Ahead(l, pointer, end)
            && Ahead(l, Wrapped(l, pointer + n), end) == Ahead(l, pointer, end) - n
            && (l.chunk >= 1 ==> (n == 0 <==> pointer <= end <= pointer + l.chunk))
            && (n == l.chunk || n == 0 || (n < l.chunk && end < pointer && pointer + n == l.Size()))
  {
    var n := ChunkLength(l, pointer, end);
    if end < pointer && !(pointer + l.chunk < l.Size()) {
      assert pointer + n == l.Size();
    }
  }

  /** A buffer full of elements of the right size, live or not. */
  ghost predicate WholeMemory(l: Layout, records: seq<Record>) {
    l.Valid() && |records| == l.slots && forall i | 0 <= i < |records| :: |records[i].bytes| == l.payload
  }

  lemma MemoryIsAddressable(l: Layout, records: seq<Record>, offset: nat)
    requires WholeMemory(l, records) && offset < l.Size()
    ensures Addressable(l, records, offset)
  {
    DivisionSplits(offset, l.payload);
    if offset / l.payload >= l.slots {
      MulMonotone(l.slots, offset / l.payload, l.payload);
    }
  }

  /** The timestamp of the element that an offset is inside of. */
  function TimestampUnder(l: Layout, records: seq<Record>, offset: nat): nat
    requires WholeMemory(l, records) && offset < l.Size()
  {
    MemoryIsAddressable(l, records, offset);
    records[offset / l.payload].timestamp
  }

  /** That is the one in whose slot it lies. */
  lemma TimestampIsOfSlot(l: Layout, records: seq<Record>, slot: nat, offset: nat)
    requires WholeMemory(l, records) && slot < l.slots && offset < l.payload
    ensures slot * l.payload + offset < l.Size()
    ensures TimestampUnder(l, records, slot * l.payload + offset) == records[slot].timestamp
  {
    MulMonotone(slot + 1, l.slots, l.payload);
    MulSuccessor(slot, l.payload);
    DivisionIs(slot * l.payload + offset, l.payload, slot, offset);
  }

  /** An offset beyond the end of the buffer, brought back into it. */
  function Around(l: Layout, offset: nat): (r: nat)
    requires offset < 2 * l.Size()
    ensures r < l.Size()
  {
    if offset < l.Size() then offset else offset - l.Size()
  }

  /** The `n` bytes that follow `from` on the circular buffer. */
  ghost function Route(l: Layout, records: seq<Record>, from: nat, n: nat): (bytes: seq<int>)
    requires WholeMemory(l, records) && from < l.Size() && n <= l.Size()
    ensures |bytes| == n
  {
    if n == 0 then [] else
      var at := Around(l, from + n - 1);
      MemoryIsAddressable(l, records, at);
      Route(l, records, from, n - 1) + [ByteAt(l, records, at)]
  }

  lemma {:induction false} RoutesJoin(l: Layout, records: seq<Record>, from: nat, m: nat, n: nat)
    requires WholeMemory(l, records) && from < l.Size() && m + n <= l.Size() && from + m < 2 * l.Size()
    ensures Route(l, records, from, m) + Route(l, records, Around(l, from + m), n) == Route(l, records, from, m + n)
  {
    if n > 0 {
      RoutesJoin(l, records, from, m, n - 1);
      var at := Around(l, from + m);
      assert Around(l, at + n - 1) == Around(l, from + m + n - 1);
      assert Route(l, records, at, n) == Route(l, records, at, n - 1) + [Route(l, records, at, n)[n - 1]];
    }
  }

  /** Moving the pointer from `start` to `pointer` appended to the file exactly the bytes it moved over,
      `written` of them, and did not take it past the end. */
  ghost predicate Followed(l: Layout, records: seq<Record>, start: nat, pointer: nat, end: nat,
                           before: seq<int>, file: seq<int>, written: int)
    requires WholeMemory(l, records) && start < l.Size() && pointer < l.Size() && end < l.Size()
  {
    && 0 <= written == Ahead(l, start, end) - Ahead(l, pointer, end)
    && pointer == Around(l, start + written)
    && file == before + Route(l, records, start, written)
  }

  lemma TurnFollows(l: Layout, records: seq<Record>, start: nat, from: nat, end: nat,
                    before: seq<int>, file: seq<int>, written: nat)
    requires WholeMemory(l, records) && start < l.Size() && from < l.Size() && end < l.Size()
    requires Followed(l, records, start, from, end, before, file, written)
    ensures var n := ChunkLength(l, from, end);
            Followed(l, records, start, Wrapped(l, from + n), end, before,
                     file + Route(l, records, from, n), written + n)
  {
    var n := ChunkLength(l, from, end);
    ChunkNeverOvertakes(l, from, end);
    RoutesJoin(l, records, start, written, n);
  }

  /** How far a number of turns got that could have written `least` bytes: all of them, or all but one
      chunk because one turn stopped at the end of the buffer, unless the end was reached. */
  ghost predicate Progressed(l: Layout, start: nat, pointer: nat, end: nat, written: int, least: nat) {
    l.chunk >= 1 ==>
      || pointer <= end <= pointer + l.chunk
      || (start <= pointer && written == pointer - start && written >= least)
      || (pointer <= end && written + l.chunk >= least)
  }

  ghost function Total(chunk: nat, turns: nat): nat {
    if turns == 0 then 0 else Total(chunk, turns - 1) + chunk
  }

  lemma {:induction false} TotalIsProduct(chunk: nat, turns: nat)
    ensures Total(chunk, turns) == turns * chunk
  {
    if turns > 0 {
      TotalIsProduct(chunk, turns - 1);
      MulSuccessor(turns - 1, chunk);
    }
  }

  lemma HundredChunks(chunk: nat)
    ensures Total(chunk, 100) == 100 * chunk
  {
    TotalIsProduct(chunk, 100);
  }

  lemma TurnProgresses(l: Layout, start: nat, from: nat, end: nat, written: int, least: nat)
    requires l.Valid() && from < l.Size() && end < l.Size() && Progressed(l, start, from, end, written, least)
    ensures var n := ChunkLength(l, from, end);
            Progressed(l, start, Wrapped(l, from + n), end, written + n, least + l.chunk)
  {
  }

  lemma CompletionFits(l: Layout, pointer: nat)
    requires l.Valid() && pointer < l.Size()
    ensures var lastStarted := pointer / l.payload * l.payload;
            && lastStarted <= pointer < lastStarted + l.payload <= l.Size()
            && (lastStarted == pointer ==> pointer % l.payload == 0)
            && (lastStarted + l.payload) % l.payload == 0
  {
    var q := pointer / l.payload;
    DivisionSplits(pointer, l.payload);
    if q >= l.slots {
      MulMonotone(l.slots, q, l.payload);
    }
    MulMonotone(q + 1, l.slots, l.payload);
    MulSuccessor(q, l.payload);
    DivisionIs((q + 1) * l.payload, l.payload, q + 1, 0);
  }

  /** The recording thread, between two samples of the newest element. */
  class Recorder {
    const layout: Layout
    var pointer: nat
    var bytesWritten: nat
    var nextTimestampToRecord: nat
    ghost var file: seq<int>

    constructor (l: Layout, start: nat)
      ensures layout == l && pointer == start && bytesWritten == 0 && nextTimestampToRecord == 0 && file == []
    {
      layout, pointer, bytesWritten, nextTimestampToRecord, file := l, start, 0, 0, [];
    }

    ghost predicate Inside(memory: seq<Record>)
      reads this
    {
      WholeMemory(layout, memory) && pointer < layout.Size()
    }

    /** Writes `n` bytes from the pointer on; they do not go around the end of the buffer. */
    method WriteBytes(memory: seq<Record>, n: nat)
      requires Inside(memory) && pointer + n <= layout.Size()
      modifies this`file, this`bytesWritten
      ensures file == old(file) + Route(layout, memory, pointer, n) && bytesWritten == old(bytesWritten) + n
    {
      file := file + Route(layout, memory, pointer, n);
      bytesWritten := bytesWritten + n;
    }

    /** One turn of the inner loop: it writes the bytes that the pointer moves over. */
    method Turn(memory: seq<Record>, end: nat)
      requires Inside(memory) && end < layout.Size()
      modifies this
      ensures Inside(memory)
      ensures var n := ChunkLength(layout, old(pointer), end);
              && pointer == Wrapped(layout, old(pointer) + n) && bytesWritten == old(bytesWritten) + n
              && file == old(file) + Route(layout, memory, old(pointer), n)
      ensures nextTimestampToRecord == TimestampUnder(layout, memory, pointer)
    {
      if pointer + layout.chunk < end {
        WriteBytes(memory, layout.chunk);
        pointer := pointer + layout.chunk;
      } else if end < pointer {
        if pointer + layout.chunk < layout.Size() {
          WriteBytes(memory, layout.chunk);
          pointer := pointer + layout.chunk;
        } else {
          WriteBytes(memory, layout.Size() - pointer);
          pointer := 0;
        }
      }
      if pointer == layout.Size() {
        pointer := 0;
      }
      nextTimestampToRecord := TimestampUnder(layout, memory, pointer);
    }

    /** One more turn of those that began with the pointer at `start`. */
    method NextTurn(memory: seq<Record>, end: nat,
                    ghost start: nat, ghost before: seq<int>, ghost counted: nat, ghost least: nat)
      requires Inside(memory) && end < layout.Size() && start < layout.Size()
      requires Followed(layout, memory, start, pointer, end, before, file, bytesWritten - counted)
      requires Progressed(layout, start, pointer, end, bytesWritten - counted, least)
      modifies this
      ensures Inside(memory) && Followed(layout, memory, start, pointer, end, before, file, bytesWritten - counted)
      ensures nextTimestampToRecord == TimestampUnder(layout, memory, pointer)
      ensures Progressed(layout, start, pointer, end, bytesWritten - counted, least + layout.chunk)
    {
      ghost var from, written := pointer, bytesWritten - counted;
      TurnFollows(layout, memory, start, from, end, before, file, written);
      Turn(memory, end);
      TurnProgresses(layout, start, from, end, written, least);
    }

    /** A hundred turns towards one sample of the newest element: the file continues, on the circular
        buffer, exactly where it stopped, the element is not overtaken, and unless it was reached up to
        one chunk, at least 99 chunks were written. */
    method Turns(memory: seq<Record>, end: nat)
      requires Inside(memory) && end < layout.Size()
      modifies this
      ensures Inside(memory)
      ensures Followed(layout, memory, old(pointer), pointer, end, old(file), file, bytesWritten - old(bytesWritten))
      ensures nextTimestampToRecord == TimestampUnder(layout, memory, pointer)
      ensures layout.chunk >= 1 ==>
                || pointer <= end <= pointer + layout.chunk
                || bytesWritten >= old(bytesWritten) + 99 * layout.chunk
    {
      ghost var start, before, counted := pointer, file, bytesWritten;
      var consideredChunks := 0;
      while consideredChunks < 100
        invariant consideredChunks <= 100 && Inside(memory)
        invariant Followed(layout, memory, start, pointer, end, before, file, bytesWritten - counted)
        invariant consideredChunks > 0 ==> nextTimestampToRecord == TimestampUnder(layout, memory, pointer)
        invariant Progressed(layout, start, pointer, end, bytesWritten - counted, Total(layout.chunk, consideredChunks))
      {
        NextTurn(memory, end, start, before, counted, Total(layout.chunk, consideredChunks));
        consideredChunks := consideredChunks + 1;
      }
      HundredChunks(layout.chunk);
    }

    /** Completes the element the pointer is inside of, so that the recording ends with a whole one. */
    method Complete(memory: seq<Record>)
      requires Inside(memory)
      modifies this
      ensures pointer == old(pointer) && nextTimestampToRecord == NEVER
      ensures var n := bytesWritten - old(bytesWritten);
              && 0 <= n < layout.payload && pointer + n <= layout.Size() && (pointer + n) % layout.payload == 0
              && file == old(file) + Route(layout, memory, pointer, n)
    {
      var lastStarted := pointer / layout.payload * layout.payload;
      CompletionFits(layout, pointer);
      if lastStarted != pointer {
        WriteBytes(memory, lastStarted + layout.payload - pointer);
      }
      nextTimestampToRecord := NEVER;
    }
  }
}
