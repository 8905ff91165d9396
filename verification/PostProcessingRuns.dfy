/** Deferred post-processing over whole runs: arrivals in any order, removals of the oldest element by
    the cleanup, and passes, interleaved in any way. */
module PostProcessingRuns {
  import opened Elements
  import opened PostProcessing

  /** A pass: the watermark before it, or the oldest timestamp if it was the first, and after it, what was
      stored, and what it processed. */
  datatype Sweep = Sweep(start: nat, end: nat, stored: seq<Item>, items: seq<Item>)

  /** The buffer and the progress, and the history: where the first window started, the passes, everything
      that ever arrived, what arrived behind the watermark, and what was removed before its turn. */
  datatype State = State(
    buffer: seq<Item>, progress: Progress, initial: nat, sweeps: seq<Sweep>,
    arrived: set<Item>, late: set<Item>, missed: set<Item>)

  datatype Action = Insert(x: Item) | RemoveOldest | Pass

  /** How many items of an ordered buffer come before `x`. */
  function PlaceOf(buffer: seq<Item>, x: Item): (k: nat)
    ensures k <= |buffer|
    ensures forall i | 0 <= i < k :: Before(buffer[i], x)
    ensures k < |buffer| ==> !Before(buffer[k], x)
  {
    if buffer == [] || !Before(buffer[0], x) then 0 else 1 + PlaceOf(buffer[1..], x)
  }

  /** Inserting into the ordered set; an item that is already there stays. */
  function Inserted(buffer: seq<Item>, x: Item): seq<Item> {
    var k := PlaceOf(buffer, x);
    if k < |buffer| && buffer[k] == x then buffer else buffer[..k] + [x] + buffer[k..]
  }

  predicate IsLate(p: Progress, x: Item) {
    !p.firstCycle && x.timestamp < p.watermark
  }

  /** The newest element is never removed. */
  ghost predicate Enabled(s: State, a: Action) {
    match a
    case Insert(x) => x.timestamp < U64
    case RemoveOldest => |s.buffer| >= 2
    case Pass => Ready(s.progress, s.buffer)
  }

  ghost function Apply(s: State, a: Action, delay: nat): State
    requires Enabled(s, a)
  {
    match a
    case Insert(x) =>
      if x in s.buffer then s
      else s.(buffer := Inserted(s.buffer, x), arrived := s.arrived + {x}, missed := s.missed - {x},
              late := if IsLate(s.progress, x) then s.late + {x} else s.late)
    case RemoveOldest =>
      s.(buffer := s.buffer[1..],
         missed := if s.buffer[0] in s.progress.processed then s.missed else s.missed + {s.buffer[0]})
    case Pass =>
      var start, next := StartOf(s.progress, s.buffer), AfterPass(s.progress, s.buffer, delay);
      s.(progress := next,
         sweeps := s.sweeps + [Sweep(start, next.watermark, s.buffer,
                                     Added(next.processed, |s.progress.processed|))],
         initial := if s.progress.firstCycle then s.buffer[0].timestamp else s.initial)
  }

  /** What was processed after the first `n` items. */
  function Added(processed: seq<Item>, n: nat): seq<Item> {
    if n <= |processed| then processed[n..] else []
  }

  // The invariant

  ghost predicate BufferInv(s: State) {
    && Ordered(s.buffer)
    && (forall x | x in s.buffer :: x in s.arrived && x !in s.missed)
    && (forall x | x in s.missed :: x !in s.progress.processed)
  }

  ghost predicate ProgressInv(s: State) {
    var p := s.progress;
    && Ordered(p.processed)
    && if p.firstCycle then p.processed == [] && s.late == {}
       else && s.initial <= p.watermark && s.buffer != []
            && p.watermark <= s.buffer[|s.buffer| - 1].timestamp
            && forall x | x in p.processed :: s.initial <= x.timestamp < p.watermark
  }

  /** Whatever arrived in time is stored, processed or missed, and is processed exactly when the
      watermark has passed it and it was not missed. */
  ghost predicate Accounted(s: State, x: Item) {
    var p := s.progress;
    && (x in s.buffer || x in p.processed || x in s.missed)
    && (x in p.processed <==> !p.firstCycle && x.timestamp < p.watermark && x !in s.missed)
  }

  ghost predicate AccountInv(s: State) {
    forall x | x in s.arrived && x !in s.late :: Accounted(s, x)
  }

  ghost predicate Inv(s: State) {
    BufferInv(s) && ProgressInv(s) && AccountInv(s)
  }

  // Insertion

  lemma PlaceOfSplits(buffer: seq<Item>, x: Item)
    requires Ordered(buffer) && x !in buffer
    ensures forall i | PlaceOf(buffer, x) <= i < |buffer| :: Before(x, buffer[i])
  {
    var k := PlaceOf(buffer, x);
    forall i | k <= i < |buffer| ensures Before(x, buffer[i]) {
      assert i > k ==> Before(buffer[k], buffer[i]);
    }
  }

  lemma InsertedContains(buffer: seq<Item>, x: Item)
    requires x !in buffer
    ensures forall y :: y in Inserted(buffer, x) <==> y in buffer || y == x
  {
    var k := PlaceOf(buffer, x);
    assert buffer == buffer[..k] + buffer[k..];
  }

  lemma InsertedIsOrdered(buffer: seq<Item>, x: Item)
    requires Ordered(buffer) && x !in buffer && x.timestamp < U64
    ensures Ordered(Inserted(buffer, x))
  {
    var k, t := PlaceOf(buffer, x), Inserted(buffer, x);
    PlaceOfSplits(buffer, x);
    assert forall i | 0 <= i < k :: t[i] == buffer[i];
    assert forall i | k < i < |t| :: t[i] == buffer[i - 1];
    forall i, j | 0 <= i < j < |t| ensures Before(t[i], t[j]) {
      InsertedPair(buffer, x, i, j);
    }
  }

  lemma InsertedPair(buffer: seq<Item>, x: Item, i: nat, j: nat)
    requires Ordered(buffer) && x !in buffer && i < j < |Inserted(buffer, x)|
    ensures Before(Inserted(buffer, x)[i], Inserted(buffer, x)[j])
  {
    var k := PlaceOf(buffer, x);
    PlaceOfSplits(buffer, x);
    if i < k < j {
      assert Before(buffer[i], x) && Before(x, buffer[j - 1]);
    }
  }

  lemma InsertKeepsInv(s: State, x: Item, delay: nat)
    requires Inv(s) && Enabled(s, Insert(x)) && x !in s.buffer
    ensures Inv(Apply(s, Insert(x), delay))
  {
    var t := Apply(s, Insert(x), delay);
    InsertedIsOrdered(s.buffer, x);
    InsertedContains(s.buffer, x);
    assert BufferInv(t);
    assert ProgressInv(t) by {
      if !s.progress.firstCycle {
        InsertKeepsNewest(s.buffer, x);
      }
    }
    forall y | y in t.arrived && y !in t.late ensures Accounted(t, y) {
      assert y == x || Accounted(s, y);
    }
  }

  lemma InsertKeepsNewest(buffer: seq<Item>, x: Item)
    requires Ordered(buffer) && buffer != [] && x !in buffer
    ensures var t := Inserted(buffer, x); t != [] && t[|t| - 1].timestamp >= buffer[|buffer| - 1].timestamp
  {
  }

  // Removal

  lemma RemoveOldestKeepsInv(s: State, delay: nat)
    requires Inv(s) && Enabled(s, RemoveOldest)
    ensures Inv(Apply(s, RemoveOldest, delay))
  {
    var t := Apply(s, RemoveOldest, delay);
    assert s.buffer == [s.buffer[0]] + t.buffer;
    assert s.buffer[0] !in t.buffer by {
      assert forall i | 0 < i < |s.buffer| :: Before(s.buffer[0], s.buffer[i]);
    }
    forall i, j | 0 <= i < j < |t.buffer| ensures Before(t.buffer[i], t.buffer[j]) {
      assert Before(s.buffer[i + 1], s.buffer[j + 1]);
    }
    forall y | y in t.arrived && y !in t.late ensures Accounted(t, y) {
      assert Accounted(s, y);
    }
  }

  // Passes

  lemma OrderedConcat(a: seq<Item>, b: seq<Item>, border: nat)
    requires Ordered(a) && Ordered(b)
    requires forall x | x in a :: x.timestamp < border
    requires forall x | x in b :: border <= x.timestamp
    ensures Ordered(a + b)
  {
    forall i, j | 0 <= i < j < |a + b| ensures Before((a + b)[i], (a + b)[j]) {
      if i < |a| <= j {
        assert a[i] in a && b[j - |a|] in b;
      }
    }
  }

  /** What a pass adds is the window, and nothing that was processed before. */
  lemma PassAddsWindow(p: Progress, buffer: seq<Item>, delay: nat)
    requires Ready(p, buffer) && Ordered(p.processed)
    requires forall x | x in p.processed :: x.timestamp < StartOf(p, buffer)
    ensures var q, start := AfterPass(p, buffer, delay), StartOf(p, buffer);
            && !q.firstCycle && start <= q.watermark <= buffer[|buffer| - 1].timestamp
            && Ordered(q.processed)
            && forall x :: x in q.processed <==>
                 x in p.processed || (x in buffer && start <= x.timestamp < q.watermark)
  {
    var q, start := AfterPass(p, buffer, delay), StartOf(p, buffer);
    var window := Window(buffer, start, q.watermark);
    WindowIsOrdered(buffer, start, q.watermark);
    forall x ensures x in window <==> x in buffer && start <= x.timestamp < q.watermark {
      WindowIsFilter(buffer, start, q.watermark, x);
    }
    OrderedConcat(p.processed, window, start);
  }

  lemma PassKeepsInv(s: State, delay: nat)
    requires Inv(s) && Enabled(s, Pass)
    ensures Inv(Apply(s, Pass, delay))
  {
    var t, p := Apply(s, Pass, delay), s.progress;
    PassAddsWindow(p, s.buffer, delay);
    assert forall x | x in s.buffer :: s.buffer[0].timestamp <= x.timestamp by {
      forall i | 0 <= i < |s.buffer| ensures s.buffer[0].timestamp <= s.buffer[i].timestamp {
        assert i > 0 ==> Before(s.buffer[0], s.buffer[i]);
      }
    }
    assert ProgressInv(t);
    forall x | x in t.arrived && x !in t.late ensures Accounted(t, x) {
      assert Accounted(s, x);
    }
  }

  // Runs

  ghost predicate Runs(s: State, actions: seq<Action>, t: State, delay: nat)
    decreases |actions|
  {
    if actions == [] then s == t
    else Enabled(s, actions[0]) && Runs(Apply(s, actions[0], delay), actions[1..], t, delay)
  }

  ghost predicate Initial(s: State) {
    s == State([], Progress(true, 0, []), 0, [], {}, {}, {})
  }

  ghost predicate Reachable(t: State, delay: nat) {
    exists s, actions :: Initial(s) && Runs(s, actions, t, delay)
  }

  lemma {:induction false} RunKeepsInv(s: State, actions: seq<Action>, t: State, delay: nat)
    requires Inv(s) && Runs(s, actions, t, delay)
    ensures Inv(t)
    decreases |actions|
  {
    if actions != [] {
      match actions[0] {
        case Insert(x) => if x !in s.buffer { InsertKeepsInv(s, x, delay); }
        case RemoveOldest => RemoveOldestKeepsInv(s, delay);
        case Pass => PassKeepsInv(s, delay);
      }
      RunKeepsInv(Apply(s, actions[0], delay), actions[1..], t, delay);
    }
  }

  lemma ReachableKeepsInv(t: State, delay: nat)
    requires Reachable(t, delay)
    ensures Inv(t)
  {
    var s, actions :| Initial(s) && Runs(s, actions, t, delay);
    RunKeepsInv(s, actions, t, delay);
  }

  // The windows

  /** The windows follow each other without gap or overlap from one tick to another. */
  ghost predicate Tile(sweeps: seq<Sweep>, from: nat, to: nat) {
    if sweeps == [] then
      from == to
    else
      var last := sweeps[|sweeps| - 1];
      last.start <= last.end == to && Tile(sweeps[..|sweeps| - 1], from, last.start)
  }

  /** What the passes processed, one after the other. */
  function Swept(sweeps: seq<Sweep>): seq<Item> {
    if sweeps == [] then [] else Swept(sweeps[..|sweeps| - 1]) + sweeps[|sweeps| - 1].items
  }

  ghost predicate InWindow(w: Sweep) {
    forall x | x in w.items :: w.start <= x.timestamp < w.end
  }

  /** The passes run through the ticks from one to another, and this is what they processed, each within
      its window. */
  ghost predicate SweepsAre(sweeps: seq<Sweep>, from: nat, to: nat, processed: seq<Item>) {
    && Tile(sweeps, from, to) && processed == Swept(sweeps)
    && forall i | 0 <= i < |sweeps| :: InWindow(sweeps[i])
  }

  ghost predicate SweepsInv(s: State) {
    if s.progress.firstCycle then s.sweeps == [] && s.progress.processed == []
    else SweepsAre(s.sweeps, s.initial, s.progress.watermark, s.progress.processed)
  }

  lemma SweepOneMore(sweeps: seq<Sweep>, w: Sweep, from: nat, processed: seq<Item>)
    requires SweepsAre(sweeps, from, w.start, processed) && w.start <= w.end && InWindow(w)
    ensures SweepsAre(sweeps + [w], from, w.end, processed + w.items)
  {
    assert (sweeps + [w])[..|sweeps|] == sweeps;
  }

  /** A pass processed what the delay had passed for, and ended where that ends. */
  ghost predicate Lags(w: Sweep, delay: nat) {
    w.stored != [] && w.end == EndOf(w.stored, w.start, delay) && DelayHasPassed(w.items, w.stored, w.start, delay)
  }

  ghost predicate LagInv(s: State, delay: nat) {
    forall i | 0 <= i < |s.sweeps| :: Lags(s.sweeps[i], delay)
  }

  lemma PassSweeps(s: State, delay: nat)
    requires ProgressInv(s) && Enabled(s, Pass)
    ensures var t := Apply(s, Pass, delay);
            && |t.sweeps| == |s.sweeps| + 1 && t.sweeps[..|s.sweeps|] == s.sweeps
            && var w := t.sweeps[|s.sweeps|];
               && w.start == StartOf(s.progress, s.buffer) <= w.end == t.progress.watermark && w.stored == s.buffer
               && t.progress.processed == s.progress.processed + w.items && InWindow(w) && Lags(w, delay)
  {
    var items := AfterPassLags(s.progress, s.buffer, delay);
    assert (s.progress.processed + items)[|s.progress.processed|..] == items;
  }

  lemma PassKeepsSweeps(s: State, delay: nat)
    requires ProgressInv(s) && SweepsInv(s) && LagInv(s, delay) && Enabled(s, Pass)
    ensures SweepsInv(Apply(s, Pass, delay)) && LagInv(Apply(s, Pass, delay), delay)
  {
    var t := Apply(s, Pass, delay);
    PassSweeps(s, delay);
    assert SweepsAre(s.sweeps, t.initial, StartOf(s.progress, s.buffer), s.progress.processed);
    SweepOneMore(s.sweeps, t.sweeps[|s.sweeps|], t.initial, s.progress.processed);
  }

  lemma {:induction false} RunKeepsSweeps(s: State, actions: seq<Action>, t: State, delay: nat)
    requires Inv(s) && SweepsInv(s) && LagInv(s, delay) && Runs(s, actions, t, delay)
    ensures SweepsInv(t) && LagInv(t, delay)
    decreases |actions|
  {
    if actions != [] {
      var next := Apply(s, actions[0], delay);
      if actions[0].Pass? {
        PassKeepsSweeps(s, delay);
      }
      RunKeepsInv(s, [actions[0]], next, delay);
      RunKeepsSweeps(next, actions[1..], t, delay);
    }
  }

  /** Whether a tick lies in the i-th window. */
  ghost predicate In(sweeps: seq<Sweep>, i: int, tick: nat) {
    0 <= i < |sweeps| && sweeps[i].start <= tick < sweeps[i].end
  }

  lemma {:induction false} TileIsPartition(sweeps: seq<Sweep>, from: nat, to: nat, tick: nat)
    requires Tile(sweeps, from, to)
    ensures from <= to
    ensures from <= tick < to <==> exists i :: In(sweeps, i, tick)
    ensures forall i, j :: In(sweeps, i, tick) && In(sweeps, j, tick) ==> i == j
  {
    if sweeps != [] {
      var n := |sweeps| - 1;
      var init, last := sweeps[..n], sweeps[n];
      TileIsPartition(init, from, last.start, tick);
      assert forall i :: In(init, i, tick) <==> In(sweeps, i, tick) && i < n;
      if last.start <= tick < last.end {
        assert In(sweeps, n, tick);
      }
    }
  }

  /** Over any run the passes partition the ticks from the start of the first window to the watermark:
      each of them is in the window of exactly one pass, and what was processed is what the passes
      processed one after the other, each within its window. */
  lemma PassesPartition(s: State, delay: nat, tick: nat)
    requires Reachable(s, delay) && !s.progress.firstCycle
    ensures s.initial <= tick < s.progress.watermark <==> exists i :: In(s.sweeps, i, tick)
    ensures forall i, j :: In(s.sweeps, i, tick) && In(s.sweeps, j, tick) ==> i == j
    ensures s.progress.processed == Swept(s.sweeps) && forall i | 0 <= i < |s.sweeps| :: InWindow(s.sweeps[i])
  {
    var init, actions :| Initial(init) && Runs(init, actions, s, delay);
    RunKeepsSweeps(init, actions, s, delay);
    TileIsPartition(s.sweeps, s.initial, s.progress.watermark, tick);
  }

  /** Over any run each pass processed exactly what was stored then, not older than where it started, and
      more than the delay older than the newest; its watermark is the delay behind the newest, unless that
      is not past where it started. */
  lemma PassesRespectDelay(s: State, delay: nat, i: nat)
    requires Reachable(s, delay) && i < |s.sweeps|
    ensures var w := s.sweeps[i];
            && w.stored != []
            && var newest := w.stored[|w.stored| - 1].timestamp;
               && w.end == (if newest > w.start + delay then newest - delay else w.start)
               && forall x :: x in w.items <==> x in w.stored && w.start <= x.timestamp && x.timestamp + delay < newest
  {
    var init, actions :| Initial(init) && Runs(init, actions, s, delay);
    RunKeepsSweeps(init, actions, s, delay);
  }

  lemma {:induction false} SweptBySome(sweeps: seq<Sweep>, x: Item) returns (i: nat)
    requires x in Swept(sweeps)
    ensures i < |sweeps| && x in sweeps[i].items
  {
    var n := |sweeps| - 1;
    if x in sweeps[n].items {
      i := n;
    } else {
      i := SweptBySome(sweeps[..n], x);
    }
  }

  /** So nothing is ever processed that was not more than the delay older than the newest element stored
      when it was. */
  lemma ProcessedOnlyAfterDelay(s: State, delay: nat, x: Item)
    requires Reachable(s, delay) && x in s.progress.processed
    ensures exists i :: 0 <= i < |s.sweeps| && x in s.sweeps[i].items
                        && exists y :: y in s.sweeps[i].stored && x.timestamp + delay < y.timestamp
  {
    var init, actions :| Initial(init) && Runs(init, actions, s, delay);
    RunKeepsSweeps(init, actions, s, delay);
    var i := SweptBySome(s.sweeps, x);
    PassesRespectDelay(s, delay, i);
    var stored := s.sweeps[i].stored;
    assert stored[|stored| - 1] in stored;
  }

  /** Over any run, what was processed is in strictly increasing order, so nothing is processed twice,
      and lies between the start of the first window and the watermark. */
  lemma ProcessedOnceInOrder(s: State, delay: nat)
    requires Reachable(s, delay)
    ensures forall i, j | 0 <= i < j < |s.progress.processed| ::
              Before(s.progress.processed[i], s.progress.processed[j])
    ensures forall x | x in s.progress.processed :: s.initial <= x.timestamp < s.progress.watermark
  {
    ReachableKeepsInv(s, delay);
  }

  /** Every element that arrived at or above the watermark of its time and was not removed before its
      turn has been processed exactly when the watermark has passed it. */
  lemma OnTimeIsProcessedExactlyWhenPassed(s: State, delay: nat, x: Item)
    requires Reachable(s, delay) && !s.progress.firstCycle
    requires x in s.arrived && x !in s.late && x !in s.missed
    ensures x in s.progress.processed <==> x.timestamp < s.progress.watermark
    ensures x !in s.progress.processed ==> x in s.buffer
  {
    ReachableKeepsInv(s, delay);
    assert Accounted(s, x);
  }

  /** With the newest element never removed, a pass finds a watermark that is not ahead of it: the
      unsigned subtractions of a pass do not wrap. */
  lemma WatermarkNeverAheadOfNewest(s: State, delay: nat)
    requires Reachable(s, delay) && s.buffer != []
    ensures Enabled(s, Pass)
  {
    ReachableKeepsInv(s, delay);
    if s.progress.firstCycle && |s.buffer| > 1 {
      assert Before(s.buffer[0], s.buffer[|s.buffer| - 1]);
    }
  }

  /** Late arrivals are the only ones that stay in the buffer behind the watermark unprocessed. */
  lemma OnlyLateArrivalsStayBehind(s: State, delay: nat, x: Item)
    requires Reachable(s, delay) && !s.progress.firstCycle
    requires x in s.buffer && x.timestamp < s.progress.watermark && x !in s.progress.processed
    ensures x in s.late
  {
    ReachableKeepsInv(s, delay);
    assert x !in s.late ==> Accounted(s, x);
  }
}
