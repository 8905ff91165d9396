/** The search for an aligned element at the beginning of a zero-copy recording: when it fails, and that
    the recording does not recover from it. */
module ZeroCopyAlignment {
  import opened Arithmetic
  import opened IterableQueueModel
  import opened ZeroCopyRecorder
  import opened ZeroCopyProtocol

  /** The recorder's own steps from a point in the search: on to an aligned element, or past the end. */
  ghost function Searched(l: Layout, s: State): (t: State)
    requires Inv(l, s) && s.phase.Aligning?
    ensures Inv(l, t) && (t.phase.Aligning? || t.phase.Stuck?)
    decreases |s.trace.log| - s.trace.frame
  {
    if l.aligned[s.begin] then s else
      var t := Apply(l, s, Skip);
      SkipKeepsInv(l, s);
      if t.phase.Stuck? then t else Searched(l, t)
  }

  /** Left alone, the search fails exactly when no stored element is aligned; otherwise it stops at one
      from which the recording can go on. */
  lemma {:induction false} SearchFailsExactlyWhenNoneAligned(l: Layout, s: State)
    requires Inv(l, s) && s.phase.Aligning?
    ensures Searched(l, s).phase.Stuck? <==> NoneAligned(l, s.readIndex, Held(s))
    ensures !Searched(l, s).phase.Stuck? ==> Enabled(l, Searched(l, s), Position)
    decreases |s.trace.log| - s.trace.frame
  {
    var k := s.trace.frame - s.trace.popped;
    assert s.begin == Hop(s.readIndex, k, l.slots);
    if !l.aligned[s.begin] {
      var t := Apply(l, s, Skip);
      SkipKeepsInv(l, s);
      SkipLeavesExactlyAtNewest(l, s);
      if t.phase.Stuck? {
        NoneAlignedUpTo(l, s.readIndex, k);
      } else {
        SearchFailsExactlyWhenNoneAligned(l, t);
      }
    }
  }

  lemma NoneAlignedUpTo(l: Layout, from: nat, k: nat)
    requires l.Valid() && from < l.slots && k < l.slots
    requires NoneAligned(l, from, k) && !l.aligned[Hop(from, k, l.slots)]
    ensures NoneAligned(l, from, k + 1)
  {
  }

  /** The same in every reachable state of a run with the other threads. */
  lemma AlignmentFailsExactlyWhenNoneIsAligned(l: Layout, s: State)
    requires Reachable(l, s) && s.phase.Aligning?
    ensures Inv(l, s)
    ensures Searched(l, s).phase.Stuck? <==> NoneAligned(l, s.readIndex, Held(s))
    ensures !Searched(l, s).phase.Stuck? ==> Enabled(l, Searched(l, s), Position)
  {
    ReachableKeepsInv(l, s);
    SearchFailsExactlyWhenNoneAligned(l, s);
  }

  /** And what it stops at is the first aligned element of those stored when the recording began: the file
      begins with that one, and the pointer is put at its first byte. */
  lemma BeginsAtFirstAligned(l: Layout, s: State)
    requires Reachable(l, s) && s.phase.Aligning? && Enabled(l, s, Position)
    ensures var k := s.trace.first - s.trace.popped;
            && 0 <= k < Held(s) && k < l.slots && s.readIndex < l.slots && l.aligned[Hop(s.readIndex, k, l.slots)]
            && (forall i | 0 <= i < k :: !l.aligned[Hop(s.readIndex, i, l.slots)])
            && Apply(l, s, Position).pointer == Hop(s.readIndex, k, l.slots) * l.payload
    ensures Apply(l, s, Position).file == [] && Apply(l, s, Position).trace.first == s.trace.first
  {
    ReachableKeepsInv(l, s);
  }

  /** A stuck recording stays stuck whatever happens: it writes nothing, the end of the recording time
      does not end it, its watermark keeps the cleanup from popping anything, and so the producer can
      add no more than fits into the ring. */
  lemma {:induction false} StuckForEver(l: Layout, s: State, actions: seq<Action>, t: State)
    requires Inv(l, s) && s.phase.Stuck? && Runs(l, s, actions, t)
    ensures t.phase.Stuck? && t.file == [] && t.trace.popped == s.trace.popped
    ensures |t.trace.log| < s.trace.popped + l.slots
    decreases |actions|
  {
    if actions != [] {
      var next := Apply(l, s, actions[0]);
      StepKeepsInv(l, s, actions[0]);
      assert next.phase.Stuck? && next.trace.popped == s.trace.popped;
      StuckForEver(l, next, actions[1..], t);
    }
  }

  // Reaching it

  lemma {:induction false} RunsThenStep(l: Layout, s: State, actions: seq<Action>, t: State, a: Action)
    requires l.Valid() && Runs(l, s, actions, t) && Enabled(l, t, a)
    ensures Runs(l, s, actions + [a], Apply(l, t, a))
    decreases |actions|
  {
    if actions == [] {
      assert [a][1..] == [];
      assert Runs(l, Apply(l, s, a), [a][1..], Apply(l, t, a));
    } else {
      RunsThenStep(l, Apply(l, s, actions[0]), actions[1..], t, a);
      assert (actions + [a])[1..] == actions[1..] + [a];
    }
  }

  lemma ReachNext(l: Layout, s: State, a: Action) returns (t: State)
    requires Reachable(l, s) && Enabled(l, s, a)
    ensures Reachable(l, t) && t == Apply(l, s, a)
  {
    var init, actions :| Initial(l, init) && Runs(l, init, actions, s);
    RunsThenStep(l, init, actions, s, a);
    t := Apply(l, s, a);
  }

  /** Before any recording, `i` elements were pushed and popped again: the ring is empty at slot i. */
  ghost predicate Cleared(l: Layout, s: State, i: nat) {
    && Reachable(l, s) && |s.records| == l.slots && s.readIndex == s.writeIndex == i < l.slots
    && s.phase.Off? && s.watermark == NEVER
    && |s.trace.log| == s.trace.popped == i && Newest(s.trace.log) == i
  }

  function Blank(l: Layout, timestamp: nat): Record {
    Record(timestamp, seq(l.payload, _ => 0))
  }

  /** One element is pushed into the empty ring. */
  lemma PushOne(l: Layout, s: State, i: nat) returns (t: State)
    requires Cleared(l, s, i)
    ensures Reachable(l, t) && |t.records| == l.slots && t.records[i] == Blank(l, i + 1)
    ensures t.readIndex == i && t.writeIndex == Following(i, l.slots) != i
    ensures t.phase.Off? && t.watermark == NEVER && t.trace.popped == i
    ensures t.trace.log == s.trace.log + [Blank(l, i + 1)]
  {
    t := ReachNext(l, s, Construct(Blank(l, i + 1)));
    t := ReachNext(l, t, Publish);
  }

  lemma {:induction false} ClearedAt(l: Layout, i: nat) returns (s: State)
    requires l.Valid() && i < l.slots < MAX_SIZE
    ensures Cleared(l, s, i)
  {
    if i == 0 {
      s := State(seq(l.slots, _ => Blank(l, 0)), 0, 0, Off, NEVER, 0, 0, 0, [], Trace([], 0, 0, 0, 0, 0, 0));
      assert Initial(l, s) && Runs(l, s, [], s);
    } else {
      s := ClearedAt(l, i - 1);
      s := PushOne(l, s, i - 1);
      s := ReachNext(l, s, Pop);
    }
  }

  /** A recording that begins with a single stored element at an unaligned slot gets stuck. */
  lemma StuckAt(l: Layout, i: nat) returns (s: State)
    requires l.Valid() && i < l.slots < MAX_SIZE && !l.aligned[i]
    ensures Reachable(l, s) && s.phase.Stuck?
  {
    s := ClearedAt(l, i);
    s := PushOne(l, s, i);
    s := ReachNext(l, s, Begin);
    s := ReachNext(l, s, Anchor);
    s := ReachNext(l, s, Skip);
  }

  /** Some run gets stuck exactly when some slot is not aligned. */
  lemma StuckIsReachableExactlyWhenMisaligned(l: Layout)
    requires l.Valid() && l.slots < MAX_SIZE
    ensures (exists s :: Reachable(l, s) && s.phase.Stuck?) <==> (exists i | 0 <= i < l.slots :: !l.aligned[i])
  {
    if i :| 0 <= i < l.slots && !l.aligned[i] {
      var s := StuckAt(l, i);
    } else {
      forall s | Reachable(l, s) ensures !s.phase.Stuck? {
        ReachableKeepsInv(l, s);
      }
    }
  }

  // The address past the end

  /** The slots are the ones at multiples of the alignment size. */
  ghost predicate AddressesOf(l: Layout, base: nat, alignment: nat) {
    alignment >= 1 && forall i | 0 <= i < |l.aligned| :: l.aligned[i] <==> (base + i * l.payload) % alignment == 0
  }

  lemma MultipleOf(x: nat, k: nat, alignment: nat)
    requires alignment >= 1 && x == k * alignment
    ensures x % alignment == 0
  {
    DivisionIs(x, alignment, k, 0);
  }

  /** If past-the-end were aligned, the payload would be a whole number of alignment units, since the
      largest index plus one is. */
  lemma PayloadIsMultiple(payload: nat, alignment: nat, q: nat, b: nat, m: nat) returns (k: nat)
    requires alignment >= 1 && END_INDEX + 1 == q * alignment
    requires b * alignment + END_INDEX * payload == m * alignment
    ensures payload == k * alignment
  {
    var x := q * payload + b - m;
    MulDistributes(q * payload + b, m, alignment);
    MulDistributes(q * payload, b, alignment);
    MulAssociates(q, payload, alignment);
    MulAssociates(q, alignment, payload);
    assert payload == x * alignment;
    if x < 0 {
      MulNegates(x, alignment);
      MulMonotone(1, -x, alignment);
    }
    k := x;
  }

  /** The loop that is stuck compares the address of the past-the-end index again and again. For an
      alignment that divides 2^32, as every power of two up to it does, and memory that starts aligned,
      that address is not aligned either if that of any slot is not. */
  lemma PastTheEndIsMisaligned(l: Layout, base: nat, alignment: nat, i: nat)
    requires AddressesOf(l, base, alignment) && base % alignment == 0 && (END_INDEX + 1) % alignment == 0
    requires i < |l.aligned| && !l.aligned[i]
    ensures (base + END_INDEX * l.payload) % alignment != 0
  {
    var address := base + END_INDEX * l.payload;
    DivisionSplits(base, alignment);
    DivisionSplits(address, alignment);
    DivisionSplits(END_INDEX + 1, alignment);
    if address % alignment == 0 {
      var b := base / alignment;
      var k := PayloadIsMultiple(l.payload, alignment, (END_INDEX + 1) / alignment, b, address / alignment);
      MulAssociates(i, k, alignment);
      MulDistributes(b, i * k, alignment);
      MultipleOf(base + i * l.payload, b + i * k, alignment);
      assert false;
    }
  }
}
