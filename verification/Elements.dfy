/** The data held by a latency buffer: time-stamped elements, each made of a fixed number of
    frames that are a fixed number of clock ticks apart. */
module Elements {

  datatype Frame = Frame(timestamp: nat, data: int)

  /** A readout element: its own timestamp and the frames it aggregates. */
  datatype Element = Element(timestamp: nat, frames: seq<Frame>)

  /** Number of values of the 64-bit timestamps and unsigned differences. */
  const U64: nat := 0x1_0000_0000_0000_0000

  /** 64-bit unsigned subtraction, which wraps. */
  function SubU64(a: nat, b: nat): (r: nat)
    requires a < U64 && b < U64
    ensures r < U64
    ensures r == (a - b) % U64
  {
    if b <= a then a - b else U64 + a - b
  }

  /** What one element type fixes: frames per element and ticks per frame. */
  datatype Format = Format(numFrames: nat, tickDiff: nat) {
    predicate Valid() {
      numFrames >= 1 && tickDiff >= 1
    }

    /** Ticks covered by one whole element. */
    function Span(): nat {
      tickDiff * numFrames
    }
  }

  /** The first frame carries `first`, and each later one is `tickDiff` ticks after the one before. */
  ghost predicate Consecutive(fs: seq<Frame>, first: nat, tickDiff: nat) {
    fs != [] ==> fs[0].timestamp == first && Consecutive(fs[1..], first + tickDiff, tickDiff)
  }

  /** The frames of `e` are complete and carry the ticks that follow its timestamp. */
  ghost predicate WellFormed(e: Element, fmt: Format) {
    |e.frames| == fmt.numFrames && Consecutive(e.frames, e.timestamp, fmt.tickDiff)
  }

  lemma {:induction false} ConsecutiveTicks(fs: seq<Frame>, first: nat, tickDiff: nat, k: nat)
    requires Consecutive(fs, first, tickDiff) && k < |fs|
    ensures fs[k].timestamp == first + k * tickDiff
  {
    if k > 0 {
      ConsecutiveTicks(fs[1..], first + tickDiff, tickDiff, k - 1);
      assert (k - 1) * tickDiff + tickDiff == k * tickDiff;
    }
  }

  /** Later elements are at least `gap` ticks after earlier ones. */
  ghost predicate Spaced(s: seq<Element>, gap: nat) {
    forall i, j | 0 <= i < j < |s| :: s[i].timestamp + gap <= s[j].timestamp
  }

  /** Timestamps never decrease along the buffer. */
  ghost predicate Sorted(s: seq<Element>) {
    Spaced(s, 0)
  }

  /** Timestamps strictly increase along the buffer. */
  ghost predicate Increasing(s: seq<Element>) {
    Spaced(s, 1)
  }

  /** Every element is exactly `step` ticks after the one before it. */
  ghost predicate EquallySpaced(s: seq<Element>, step: nat) {
    forall i | 0 <= i < |s| :: s[i].timestamp == s[0].timestamp + i * step
  }

  lemma {:induction false} SpacedByNeighbours(s: seq<Element>, gap: nat)
    requires forall i | 0 <= i < |s| - 1 :: s[i].timestamp + gap <= s[i + 1].timestamp
    ensures Spaced(s, gap)
  {
    if |s| > 1 {
      var init := s[..|s| - 1];
      SpacedByNeighbours(init, gap);
      forall i, j | 0 <= i < j < |s| ensures s[i].timestamp + gap <= s[j].timestamp {
        if j == |s| - 1 {
          assert s[i] == init[i];
          assert i < j - 1 ==> init[i].timestamp + gap <= init[j - 1].timestamp;
        } else {
          assert s[i] == init[i] && s[j] == init[j];
        }
      }
    }
  }

  /** Equal spacing is spacing by at least one step. */
  lemma EquallySpacedIsSpaced(s: seq<Element>, step: nat)
    requires EquallySpaced(s, step)
    ensures Spaced(s, step)
  {
    forall i, j | 0 <= i < j < |s| ensures s[i].timestamp + step <= s[j].timestamp {
      assert (i + 1) * step <= j * step;
      assert (i + 1) * step == i * step + step;
    }
  }
}
