/** The registry of frame errors, and why its silence justifies the constant-time search. */
module FrameErrorRegistryModel {
  import opened Arithmetic
  import opened Elements
  import opened IterableQueueModel
  import opened Searches

  datatype ErrorInterval = ErrorInterval(startTs: nat, endTs: nat)

  type Errors = map<string, ErrorInterval>

  const MISSING_FRAMES := "MISSING_FRAMES"

  /** The registrations that a cleanup up to `ts` leaves: those that do not end before it. */
  function Remaining(errors: Errors, ts: nat): Errors {
    map name | name in errors && !(ts > errors[name].endTs) :: errors[name]
  }

  class FrameErrorRegistry {
    var errors: Errors

    constructor ()
      ensures errors == map[]
    {
      errors := map[];
    }

    /** A new interval replaces the one registered under the same name. */
    method AddError(name: string, error: ErrorInterval)
      modifies this
      ensures errors == old(errors)[name := error]
    {
      errors := errors - {name};
      errors := errors[name := error];
    }

    method RemoveErrorsUntil(ts: nat)
      modifies this
      ensures errors == Remaining(old(errors), ts)
      ensures forall name :: name in errors <==> name in old(errors) && ts <= old(errors)[name].endTs
      ensures forall name | name in errors :: errors[name] == old(errors)[name]
    {
      var todo := errors.Keys;
      while todo != {}
        invariant todo <= errors.Keys <= old(errors).Keys
        invariant forall name | name in errors :: errors[name] == old(errors)[name]
        invariant forall name | name in old(errors) && name !in todo ::
                    name in errors <==> !(ts > old(errors)[name].endTs)
        decreases |todo|
      {
        var name :| name in todo;
        todo := todo - {name};
        if ts > errors[name].endTs {
          errors := errors - {name};
        }
      }
    }

    predicate HasError(name: string)
      reads this
    {
      name in errors
    }

    predicate HasAnyError()
      reads this
    {
      errors != map[]
    }
  }

  // The life of the buffer next to its registry

  /** `seen` are the elements the raw processor has preprocessed, `written` how many of them have
      been offered to the buffer, and `kept` the positions of those the buffer now holds. */
  datatype State = State(seen: seq<Element>, written: nat, kept: seq<nat>, errors: Errors, dropped: bool)

  datatype Action =
    | Preprocess(e: Element)
    | Write
    | Pop
    | ForgetOldErrors
    | OtherError(name: string, error: ErrorInterval)

  const INIT := State([], 0, [], map[], false)

  /** Elements come at least one step apart and one at a time; the cleanup never empties the buffer. */
  ghost predicate Enabled(s: State, a: Action, step: nat) {
    match a
    case Preprocess(e) =>
      && s.written == |s.seen|
      && (s.seen != [] ==> s.seen[|s.seen| - 1].timestamp + step <= e.timestamp)
    case Write => s.written < |s.seen|
    case Pop => |s.kept| >= 2
    case ForgetOldErrors => s.kept != [] && s.kept[0] < |s.seen|
    case OtherError(name, _) => name != MISSING_FRAMES
  }

  /** One step. A gap before an element is registered when it is preprocessed, as an interval that
      ends at the element; a full buffer drops the write. */
  ghost function Apply(s: State, a: Action, step: nat, capacity: nat): State
    requires Enabled(s, a, step)
  {
    match a
    case Preprocess(e) =>
      var gap := s.seen != [] && s.seen[|s.seen| - 1].timestamp + step != e.timestamp;
      var errors := if gap then
                      s.errors[MISSING_FRAMES := ErrorInterval(s.seen[|s.seen| - 1].timestamp + step, e.timestamp)]
                    else s.errors;
      s.(seen := s.seen + [e], errors := errors)
    case Write =>
      if |s.kept| < capacity then
        s.(written := s.written + 1, kept := s.kept + [s.written])
      else
        s.(written := s.written + 1, dropped := true)
    case Pop => s.(kept := s.kept[1..])
    case ForgetOldErrors => s.(errors := Remaining(s.errors, s.seen[s.kept[0]].timestamp))
    case OtherError(name, error) => s.(errors := s.errors[name := error])
  }

  /** `t` is what a run of actions makes of `s`. */
  ghost predicate Runs(s: State, actions: seq<Action>, t: State, step: nat, capacity: nat)
    decreases |actions|
  {
    if actions == [] then
      s == t
    else
      Enabled(s, actions[0], step) && Runs(Apply(s, actions[0], step, capacity), actions[1..], t, step, capacity)
  }

  /** The live elements, oldest first. */
  ghost function Live(s: State): seq<Element>
    requires KeptInOrder(s)
  {
    seq(|s.kept|, i requires 0 <= i < |s.kept| => s.seen[s.kept[i]])
  }

  ghost predicate KeptInOrder(s: State) {
    && s.written <= |s.seen|
    && (forall i | 0 <= i < |s.kept| :: s.kept[i] < s.written)
    && (forall i, j | 0 <= i < j < |s.kept| :: s.kept[i] < s.kept[j])
  }

  /** Nothing between the oldest and the newest live element was dropped. */
  ghost predicate Unbroken(s: State) {
    forall i | 0 <= i < |s.kept| :: s.kept[i] == s.kept[0] + i
  }

  /** Element `j` did not come one step after its predecessor. */
  ghost predicate GapBefore(seen: seq<Element>, j: int, step: nat) {
    1 <= j < |seen| && seen[j].timestamp != seen[j - 1].timestamp + step
  }

  /** Every gap before the oldest live element or later is registered, with an interval that reaches it. */
  ghost predicate GapsRegistered(s: State, step: nat) {
    s.kept != [] ==>
      forall j | s.kept[0] <= j && GapBefore(s.seen, j, step) ::
        MISSING_FRAMES in s.errors && s.errors[MISSING_FRAMES].endTs >= s.seen[j].timestamp
  }

  /** A registered interval ends at the element behind some gap. */
  ghost predicate RegisteredIsGap(s: State, step: nat) {
    MISSING_FRAMES in s.errors ==>
      exists j :: GapBefore(s.seen, j, step) && s.errors[MISSING_FRAMES].endTs == s.seen[j].timestamp
  }

  ghost predicate Inv(s: State, step: nat) {
    && KeptInOrder(s)
    && Spaced(s.seen, step)
    && |s.seen| <= s.written + 1
    && (s.written > 0 <==> s.kept != [])
    && GapsRegistered(s, step)
    && (!s.dropped ==> Unbroken(s) && (s.kept != [] ==> s.kept[|s.kept| - 1] == s.written - 1))
  }

  lemma StepKeepsInv(s: State, a: Action, step: nat, capacity: nat)
    requires Inv(s, step) && Enabled(s, a, step) && step >= 1 && capacity >= 1
    ensures Inv(Apply(s, a, step, capacity), step)
  {
    match a
    case Preprocess(e) => PreprocessKeepsInv(s, e, step, capacity);
    case Write => WriteKeepsInv(s, step, capacity);
    case Pop => PopKeepsInv(s, step, capacity);
    case ForgetOldErrors => ForgetKeepsInv(s, step, capacity);
    case OtherError(name, error) =>
  }

  lemma SpacedPush(seen: seq<Element>, e: Element, step: nat)
    requires Spaced(seen, step) && (seen != [] ==> seen[|seen| - 1].timestamp + step <= e.timestamp)
    ensures Spaced(seen + [e], step)
  {
    forall i, j | 0 <= i < j < |seen + [e]| ensures (seen + [e])[i].timestamp + step <= (seen + [e])[j].timestamp {
      if j == |seen| && i < j - 1 {
        assert seen[i].timestamp + step <= seen[j - 1].timestamp;
      }
    }
  }

  lemma PreprocessRegistersGaps(s: State, e: Element, step: nat, capacity: nat)
    requires GapsRegistered(s, step) && Enabled(s, Preprocess(e), step)
    requires Spaced(s.seen, step) && Spaced(s.seen + [e], step)
    ensures GapsRegistered(Apply(s, Preprocess(e), step, capacity), step)
  {
    var t := Apply(s, Preprocess(e), step, capacity);
    forall j | t.kept != [] && t.kept[0] <= j && GapBefore(t.seen, j, step)
      ensures MISSING_FRAMES in t.errors && t.errors[MISSING_FRAMES].endTs >= t.seen[j].timestamp
    {
      if j < |s.seen| {
        assert GapBefore(s.seen, j, step);
        assert t.seen[j] == s.seen[j] && t.seen[j - 1] == s.seen[j - 1];
        assert t.seen[j].timestamp + step <= t.seen[|s.seen|].timestamp;
      }
    }
  }

  lemma PreprocessKeepsInv(s: State, e: Element, step: nat, capacity: nat)
    requires Inv(s, step) && Enabled(s, Preprocess(e), step)
    ensures Inv(Apply(s, Preprocess(e), step, capacity), step)
  {
    SpacedPush(s.seen, e, step);
    PreprocessRegistersGaps(s, e, step, capacity);
  }

  lemma WriteKeepsInv(s: State, step: nat, capacity: nat)
    requires Inv(s, step) && Enabled(s, Write, step) && capacity >= 1
    ensures Inv(Apply(s, Write, step, capacity), step)
  {
  }

  lemma PopKeepsInv(s: State, step: nat, capacity: nat)
    requires Inv(s, step) && Enabled(s, Pop, step)
    ensures Inv(Apply(s, Pop, step, capacity), step)
  {
    assert s.kept[0] < s.kept[1];
  }

  lemma ForgetKeepsInv(s: State, step: nat, capacity: nat)
    requires Inv(s, step) && Enabled(s, ForgetOldErrors, step) && step >= 1
    ensures Inv(Apply(s, ForgetOldErrors, step, capacity), step)
  {
    var t := Apply(s, ForgetOldErrors, step, capacity);
    forall j | s.kept[0] <= j && GapBefore(s.seen, j, step)
      ensures MISSING_FRAMES in t.errors && t.errors[MISSING_FRAMES].endTs >= s.seen[j].timestamp
    {
      assert s.kept[0] < j ==> s.seen[s.kept[0]].timestamp + step <= s.seen[j].timestamp;
    }
  }

  lemma {:induction false} RunKeepsInv(s: State, actions: seq<Action>, t: State, step: nat, capacity: nat)
    requires Inv(s, step) && step >= 1 && capacity >= 1 && Runs(s, actions, t, step, capacity)
    ensures Inv(t, step)
    decreases |actions|
  {
    if actions != [] {
      StepKeepsInv(s, actions[0], step, capacity);
      RunKeepsInv(Apply(s, actions[0], step, capacity), actions[1..], t, step, capacity);
    }
  }

  /** Without a registered error, the preprocessed elements from the oldest live one on are equally
      spaced. */
  lemma {:induction false} SilenceMeansNoGap(s: State, step: nat, j: nat)
    requires Inv(s, step) && MISSING_FRAMES !in s.errors && s.kept != [] && s.kept[0] <= j < |s.seen|
    ensures s.seen[j].timestamp == s.seen[s.kept[0]].timestamp + (j - s.kept[0]) * step
  {
    if j > s.kept[0] {
      SilenceMeansNoGap(s, step, j - 1);
      assert !GapBefore(s.seen, j, step);
      MulSuccessor(j - 1 - s.kept[0], step);
    }
  }

  lemma SilentAtIndexExactlyWhenUnbroken(s: State, step: nat, i: nat)
    requires Inv(s, step) && MISSING_FRAMES !in s.errors && i < |s.kept| && step >= 1
    ensures Live(s)[i].timestamp == Live(s)[0].timestamp + i * step <==> s.kept[i] == s.kept[0] + i
  {
    assert s.kept[0] <= s.kept[i];
    SilenceMeansNoGap(s, step, s.kept[i]);
    SameMultiple(s.kept[i] - s.kept[0], i, step);
  }

  lemma SameMultiple(k: nat, i: nat, step: nat)
    requires step >= 1
    ensures k * step == i * step <==> k == i
  {
    MulDistributes(k, i, step);
    if k * step == i * step {
      SmallMultipleIsZero(k - i, step);
    }
  }

  /** In every reachable state without a registered error, the live buffer is equally spaced exactly
      when no element between the oldest and the newest live one was dropped. */
  lemma SilenceIsSoundExactlyWhenUnbroken(actions: seq<Action>, t: State, step: nat, capacity: nat)
    requires step >= 1 && capacity >= 1 && Runs(INIT, actions, t, step, capacity)
    ensures KeptInOrder(t)
    ensures MISSING_FRAMES !in t.errors ==> (EquallySpaced(Live(t), step) <==> Unbroken(t))
  {
    RunKeepsInv(INIT, actions, t, step, capacity);
    if MISSING_FRAMES !in t.errors {
      forall i | 0 <= i < |t.kept|
        ensures Live(t)[i].timestamp == Live(t)[0].timestamp + i * step <==> t.kept[i] == t.kept[0] + i
      {
        SilentAtIndexExactlyWhenUnbroken(t, step, i);
      }
    }
  }

  /** While no write is dropped, silence of the registry is always sound, whatever the cleanup has
      popped and forgotten. */
  lemma SilenceIsSoundWithoutDrops(actions: seq<Action>, t: State, step: nat, capacity: nat)
    requires step >= 1 && capacity >= 1 && Runs(INIT, actions, t, step, capacity) && !t.dropped
    ensures KeptInOrder(t)
    ensures MISSING_FRAMES !in t.errors ==> EquallySpaced(Live(t), step)
  {
    RunKeepsInv(INIT, actions, t, step, capacity);
    SilenceIsSoundExactlyWhenUnbroken(actions, t, step, capacity);
  }

  /** Hence the choice of the search by the registry: on a queue that holds the live elements, the
      constant-time search may replace the bisection exactly when nothing in between was dropped. */
  lemma FastPathExactlyWhenUnbroken(actions: seq<Action>, t: State, fmt: Format, capacity: nat, q: IterableQueue)
    requires fmt.Valid() && fmt.Span() >= 1 && capacity >= 1 && Runs(INIT, actions, t, fmt.Span(), capacity)
    requires KeptInOrder(t) && t.kept != [] && q.Valid() && q.Contents() == Live(t) && MISSING_FRAMES !in t.errors
    ensures (forall key: nat :: Interchangeable(q, fmt, key)) <==> Unbroken(t)
  {
    RunKeepsInv(INIT, actions, t, fmt.Span(), capacity);
    SilenceIsSoundExactlyWhenUnbroken(actions, t, fmt.Span(), capacity);
    InterchangeableExactlyWhenEquallySpaced(q, fmt);
  }

  lemma PreprocessRegistersOnlyGaps(s: State, e: Element, step: nat, capacity: nat)
    requires RegisteredIsGap(s, step) && Enabled(s, Preprocess(e), step)
    ensures RegisteredIsGap(Apply(s, Preprocess(e), step, capacity), step)
  {
    var t := Apply(s, Preprocess(e), step, capacity);
    if t.errors != s.errors {
      assert GapBefore(t.seen, |s.seen|, step);
    } else if MISSING_FRAMES in s.errors {
      var j :| GapBefore(s.seen, j, step) && s.errors[MISSING_FRAMES].endTs == s.seen[j].timestamp;
      assert GapBefore(t.seen, j, step) && t.seen[j] == s.seen[j];
    }
  }

  lemma StepRegistersOnlyGaps(s: State, a: Action, step: nat, capacity: nat)
    requires RegisteredIsGap(s, step) && Enabled(s, a, step)
    ensures RegisteredIsGap(Apply(s, a, step, capacity), step)
  {
    if a.Preprocess? {
      PreprocessRegistersOnlyGaps(s, a.e, step, capacity);
    } else {
      assert Apply(s, a, step, capacity).seen == s.seen;
    }
  }

  lemma {:induction false} RunRegistersOnlyGaps(s: State, actions: seq<Action>, t: State, step: nat, capacity: nat)
    requires RegisteredIsGap(s, step) && Runs(s, actions, t, step, capacity)
    ensures RegisteredIsGap(t, step)
    decreases |actions|
  {
    if actions != [] {
      StepRegistersOnlyGaps(s, actions[0], step, capacity);
      RunRegistersOnlyGaps(Apply(s, actions[0], step, capacity), actions[1..], t, step, capacity);
    }
  }

  /** Forgetting goes as far as it may: right after it the registry is silent exactly when no gap comes
      before the oldest live element or later. An older gap is forgotten, a later one is not. */
  lemma ForgettingSilencesExactly(actions: seq<Action>, s: State, t: State, step: nat, capacity: nat)
    requires step >= 1 && capacity >= 1 && Runs(INIT, actions, s, step, capacity)
    requires Enabled(s, ForgetOldErrors, step) && t == Apply(s, ForgetOldErrors, step, capacity)
    ensures MISSING_FRAMES in t.errors <==> exists j :: t.kept[0] <= j && GapBefore(t.seen, j, step)
  {
    RunKeepsInv(INIT, actions, s, step, capacity);
    RunRegistersOnlyGaps(INIT, actions, s, step, capacity);
    StepKeepsInv(s, ForgetOldErrors, step, capacity);
    StepRegistersOnlyGaps(s, ForgetOldErrors, step, capacity);
    if MISSING_FRAMES in t.errors {
      var j :| GapBefore(t.seen, j, step) && t.errors[MISSING_FRAMES].endTs == t.seen[j].timestamp;
      assert t.seen[t.kept[0]].timestamp <= t.seen[j].timestamp && t.kept[0] <= j;
    }
  }

  /** While nothing is popped, as long as a request runs, the live elements only become more. */
  lemma {:induction false} KeptGrows(s: State, actions: seq<Action>, t: State, step: nat, capacity: nat)
    requires Runs(s, actions, t, step, capacity) && Pop !in actions
    ensures s.seen <= t.seen && s.kept <= t.kept
    decreases |actions|
  {
    if actions != [] {
      KeptGrows(Apply(s, actions[0], step, capacity), actions[1..], t, step, capacity);
    }
  }

  lemma LiveGrows(s: State, actions: seq<Action>, t: State, step: nat, capacity: nat)
    requires Inv(s, step) && step >= 1 && capacity >= 1 && Runs(s, actions, t, step, capacity) && Pop !in actions
    ensures Inv(t, step) && Live(s) <= Live(t) && s.kept <= t.kept && s.seen <= t.seen
  {
    KeptGrows(s, actions, t, step, capacity);
    RunKeepsInv(s, actions, t, step, capacity);
  }

  /** What silence at one moment says of the elements that were live at an earlier one. */
  lemma SilenceCoversEarlier(u: State, s: State, step: nat, i: nat)
    requires Inv(u, step) && Inv(s, step) && step >= 1 && u.seen <= s.seen && u.kept <= s.kept && i < |u.kept|
    requires MISSING_FRAMES !in s.errors
    ensures Live(u)[i].timestamp == Live(u)[0].timestamp + (u.kept[i] - u.kept[0]) * step
    ensures u.kept[i] - u.kept[0] >= i
  {
    assert s.kept[i] == u.kept[i] && s.kept[0] == u.kept[0];
    if i > 0 {
      SilenceCoversEarlier(u, s, step, i - 1);
    }
    SilenceMeansNoGap(s, step, u.kept[i]);
  }

  lemma LiveIsSpaced(s: State, step: nat)
    requires Inv(s, step)
    ensures Spaced(Live(s), step)
  {
  }

  /** For all keys between the oldest and the newest timestamp of the beginning `c` the index arithmetic
      gives the linear position on the whole. */
  ghost predicate LinearUpTo(c: seq<Element>, last: seq<Element>, fmt: Format)
    requires c != [] && fmt.Valid()
  {
    forall key: nat | c[0].timestamp <= key <= c[|c| - 1].timestamp ::
      Position(last, fmt, key, false) == FirstAtLeast(last, key)
  }

  lemma WithoutGapsLinear(c: seq<Element>, last: seq<Element>, fmt: Format)
    requires fmt.Valid() && c != [] && c <= last && EquallySpaced(c, fmt.Span()) && Spaced(last, fmt.Span())
    ensures LinearUpTo(c, last, fmt)
  {
    SpacedIsSorted(last, fmt.Span());
    forall key: nat | c[0].timestamp <= key <= c[|c| - 1].timestamp
      ensures Position(last, fmt, key, false) == FirstAtLeast(last, key)
    {
      PositionInsideBeginning(c, last, fmt, key, false);
    }
  }

  lemma UnbrokenHasNoGaps(u: State, s: State, step: nat)
    requires Inv(u, step) && Inv(s, step) && step >= 1 && u.seen <= s.seen && u.kept <= s.kept
    requires MISSING_FRAMES !in s.errors && Unbroken(u)
    ensures EquallySpaced(Live(u), step)
  {
    forall i | 0 <= i < |u.kept| ensures Live(u)[i].timestamp == Live(u)[0].timestamp + i * step {
      SilenceCoversEarlier(u, s, step, i);
    }
  }

  lemma SpacedIsSorted(c: seq<Element>, gap: nat)
    requires Spaced(c, gap)
    ensures Sorted(c)
  {
  }

  /** A live element behind a dropped one comes later than its position says, and not after the newest. */
  lemma BrokenHasGap(u: State, s: State, step: nat) returns (i: nat)
    requires Inv(u, step) && Inv(s, step) && step >= 1 && u.seen <= s.seen && u.kept <= s.kept
    requires MISSING_FRAMES !in s.errors && !Unbroken(u)
    ensures i < |u.kept| && Live(u)[i].timestamp > Live(u)[0].timestamp + i * step
  {
    i :| 0 <= i < |u.kept| && u.kept[i] != u.kept[0] + i;
    SilenceCoversEarlier(u, s, step, i);
    LargerMultiple(u.kept[i] - u.kept[0], i, step);
  }

  lemma LargerMultiple(k: nat, i: nat, step: nat)
    requires step >= 1 && k > i
    ensures k * step > i * step
  {
    MulMonotone(i + 1, k, step);
    MulSuccessor(i, step);
  }

  lemma WithGapNotLinear(c: seq<Element>, last: seq<Element>, fmt: Format, i: nat)
    requires fmt.Valid() && c <= last && Spaced(last, fmt.Span()) && Spaced(c, fmt.Span())
    requires i < |c| && c[i].timestamp > c[0].timestamp + i * fmt.Span()
    ensures !LinearUpTo(c, last, fmt)
  {
    assert i < |c| - 1 ==> c[i].timestamp + fmt.Span() <= c[|c| - 1].timestamp;
    GapMisleads(c, last, fmt, i);
  }

  lemma LinearExactlyWhenUnbroken(u: State, s: State, last: seq<Element>, fmt: Format)
    requires fmt.Valid() && fmt.Span() >= 1 && Inv(u, fmt.Span()) && Inv(s, fmt.Span())
    requires u.seen <= s.seen && u.kept <= s.kept && u.kept != [] && MISSING_FRAMES !in s.errors
    requires Live(u) <= last && Spaced(last, fmt.Span())
    ensures LinearUpTo(Live(u), last, fmt) <==> Unbroken(u)
  {
    if Unbroken(u) {
      UnbrokenHasNoGaps(u, s, fmt.Span());
      WithoutGapsLinear(Live(u), last, fmt);
    } else {
      var i := BrokenHasGap(u, s, fmt.Span());
      LiveIsSpaced(u, fmt.Span());
      WithGapNotLinear(Live(u), last, fmt, i);
    }
  }

  /** A request reads the newest timestamp at `u` and the registry at `s`, where it is silent, and runs on
      to `t`; nothing is popped meanwhile, but elements may be preprocessed, written and dropped. The
      constant-time search then gives the linear position on the buffer of `t` for all keys between the
      oldest and that newest timestamp if and only if nothing between those two was dropped. */
  lemma SilenceLastsExactlyWhenUnbroken(before: seq<Action>, u: State, between: seq<Action>, s: State,
                                        after: seq<Action>, t: State, fmt: Format, capacity: nat)
    requires fmt.Valid() && fmt.Span() >= 1 && capacity >= 1 && Runs(INIT, before, u, fmt.Span(), capacity)
    requires Runs(u, between, s, fmt.Span(), capacity) && Runs(s, after, t, fmt.Span(), capacity)
    requires Pop !in between && Pop !in after && u.kept != [] && MISSING_FRAMES !in s.errors
    ensures KeptInOrder(u) && KeptInOrder(s) && KeptInOrder(t) && Live(u) <= Live(s) <= Live(t)
    ensures LinearUpTo(Live(u), Live(t), fmt) <==> Unbroken(u)
  {
    var step := fmt.Span();
    RunKeepsInv(INIT, before, u, step, capacity);
    LiveGrows(u, between, s, step, capacity);
    LiveGrows(s, after, t, step, capacity);
    LiveIsSpaced(t, step);
    LinearExactlyWhenUnbroken(u, s, Live(t), fmt);
  }

  lemma RunsStep(s: State, a: Action, rest: seq<Action>, t: State, step: nat, capacity: nat)
    requires Enabled(s, a, step) && Runs(Apply(s, a, step, capacity), rest, t, step, capacity)
    ensures Runs(s, [a] + rest, t, step, capacity)
  {
    assert ([a] + rest)[1..] == rest;
  }

  /** Two elements fill two usable slots, whatever the run does after that. */
  lemma FillTwoSlots(e: seq<Element>, rest: seq<Action>, t: State)
    requires |e| == 2 && e[0].timestamp + 1 == e[1].timestamp
    requires Runs(State(e, 2, [0, 1], map[], false), rest, t, 1, 2)
    ensures exists actions :: Runs(INIT, actions, t, 1, 2)
  {
    assert [0] + [1] == [0, 1];
    RunsStep(State(e, 1, [0], map[], false), Write, rest, t, 1, 2);
    var run := [Write] + rest;
    assert e[..1] + [e[1]] == e;
    RunsStep(State(e[..1], 1, [0], map[], false), Preprocess(e[1]), run, t, 1, 2);
    run := [Preprocess(e[1])] + run;
    var none: seq<nat> := [];
    assert none + [0] == [0];
    RunsStep(State(e[..1], 0, none, map[], false), Write, run, t, 1, 2);
    run := [Write] + run;
    assert [] + [e[0]] == e[..1];
    RunsStep(INIT, Preprocess(e[0]), run, t, 1, 2);
  }

  /** A dropped write does break it: with two usable slots, element 2 is dropped, element 0 popped
      and element 3 written, and nothing is registered. */
  lemma DropBreaksSilence(e: seq<Element>, t: State)
    requires e == [Element(0, []), Element(1, []), Element(2, []), Element(3, [])]
    requires t == State(e, 4, [1, 3], map[], true)
    ensures exists actions :: Runs(INIT, actions, t, 1, 2)
    ensures MISSING_FRAMES !in t.errors && KeptInOrder(t) && !EquallySpaced(Live(t), 1)
  {
    RunsStep(State(e, 3, [1], map[], true), Write, [], t, 1, 2);
    var run := [Write] + [];
    assert e[..3] + [e[3]] == e;
    RunsStep(State(e[..3], 3, [1], map[], true), Preprocess(e[3]), run, t, 1, 2);
    run := [Preprocess(e[3])] + run;
    RunsStep(State(e[..3], 3, [0, 1], map[], true), Pop, run, t, 1, 2);
    run := [Pop] + run;
    RunsStep(State(e[..3], 2, [0, 1], map[], false), Write, run, t, 1, 2);
    run := [Write] + run;
    assert e[..2] + [e[2]] == e[..3];
    RunsStep(State(e[..2], 2, [0, 1], map[], false), Preprocess(e[2]), run, t, 1, 2);
    FillTwoSlots(e[..2], [Preprocess(e[2])] + run, t);
    assert Live(t)[1].timestamp == 3;
  }
}
