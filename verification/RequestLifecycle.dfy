/** The life of a data request: posted to the pool, executed, perhaps put on the waiting list and
    posted again, answered. The buffer it is executed on changes meanwhile. */
module RequestLifecycle {
  import opened RequestWindow

  datatype Request = Request(begin: nat, end: nat)

  /** Why a request was posted. */
  datatype Cause = Fresh | ByData | ByTimeout

  /** One request on its way: `id` is its position among all issued requests, `runs` how often
      data_request has been executed for it and `code` what the last execution returned. */
  datatype Ticket = Ticket(id: nat, isRetry: bool, cause: Cause, runs: nat, code: ResultCode)

  datatype Counters = Counters(found: nat, bad: nat, oldWindow: nat, delayed: nat, timedOut: nat)

  /** What the request handler sees of the latency buffer. */
  datatype Buffer = Empty | Range(oldest: nat, newest: nat)

  /** `codes` is the history of what the executions returned. */
  datatype State = State(
    buffer: Buffer,
    issued: seq<Request>, pool: seq<Ticket>, executed: seq<Ticket>, waiting: seq<Ticket>, answered: seq<Ticket>,
    counters: Counters, codes: seq<ResultCode>, running: bool)

  datatype Action =
    | Arrive(ts: nat) | CleanUp(oldest: nat)
    | Issue(r: Request) | Execute(i: nat, found: bool) | Dispatch(i: nat) | CheckWaiting(expired: set<nat>)
    | Stop

  /** The waiting list is used only with a positive timeout. */
  datatype Config = Config(timeoutMs: int)

  /** Nothing stored, nothing requested, nothing counted. */
  predicate Initial(s: State) {
    && s.buffer.Empty? && s.issued == [] && s.codes == [] && s.counters == Counters(0, 0, 0, 0, 0)
    && s.pool == [] && s.executed == [] && s.waiting == [] && s.answered == [] && s.running
  }

  /** The result code of one execution. Whether the search for the start of the window leads to an element
      depends on more than is modelled here: on gaps, on what is registered, and on pushes meanwhile. */
  function Outcome(buffer: Buffer, r: Request, found: bool): ResultCode {
    match buffer
    case Empty => NotFound
    case Range(oldest, newest) => ClassifyFound(oldest, newest, found, r.begin, r.end)
  }

  /** The counters one execution increments. */
  function Count(k: Counters, code: ResultCode): Counters {
    match code
    case TooOld => k.(oldWindow := k.oldWindow + 1, bad := k.bad + 1)
    case PartiallyOld => k.(oldWindow := k.oldWindow + 1, found := k.found + 1)
    case Found => k.(found := k.found + 1)
    case Partial => k.(delayed := k.delayed + 1)
    case NotYet => k.(delayed := k.delayed + 1)
    case NotFound => k.(bad := k.bad + 1)
    case Unknown => k.(bad := k.bad + 1)
  }

  predicate Retryable(code: ResultCode) {
    code == NotYet || code == Partial
  }

  /** The newest timestamp, 0 for an empty buffer. */
  function Newest(buffer: Buffer): nat {
    if buffer.Empty? then 0 else buffer.newest
  }

  // One pass over the waiting list

  /** The element is re-issued because its window has been passed, or because it has waited too long. */
  predicate Released(t: Ticket, end: nat, newest: nat, expired: set<nat>) {
    end < newest || t.id in expired
  }

  function Reissued(t: Ticket, end: nat, newest: nat): Ticket {
    t.(isRetry := true, cause := if end < newest then ByData else ByTimeout)
  }

  ghost predicate Known(ts: seq<Ticket>, issued: seq<Request>) {
    forall t | t in ts :: t.id < |issued|
  }

  function StillWaiting(ws: seq<Ticket>, issued: seq<Request>, newest: nat, expired: set<nat>): (r: seq<Ticket>)
    requires Known(ws, issued)
    ensures forall t | t in r :: t in ws
  {
    if ws == [] then
      []
    else
      (if Released(ws[0], issued[ws[0].id].end, newest, expired) then [] else [ws[0]])
      + StillWaiting(ws[1..], issued, newest, expired)
  }

  function Retries(ws: seq<Ticket>, issued: seq<Request>, newest: nat, expired: set<nat>): (r: seq<Ticket>)
    requires Known(ws, issued)
    ensures forall t | t in r :: exists w :: w in ws && t == Reissued(w, issued[w.id].end, newest)
  {
    if ws == [] then
      []
    else
      (if Released(ws[0], issued[ws[0].id].end, newest, expired)
       then [Reissued(ws[0], issued[ws[0].id].end, newest)] else [])
      + Retries(ws[1..], issued, newest, expired)
  }

  /** Which tickets a pass leaves: those that have not expired and whose window has not been passed. */
  lemma {:induction false} PassLeaves(ws: seq<Ticket>, issued: seq<Request>, newest: nat, expired: set<nat>, t: Ticket)
    requires Known(ws, issued)
    ensures t in StillWaiting(ws, issued, newest, expired) <==>
              t in ws && t.id !in expired && newest <= issued[t.id].end
  {
    if ws != [] {
      assert ws == [ws[0]] + ws[1..];
      PassLeaves(ws[1..], issued, newest, expired, t);
    }
  }

  /** `t` is what `w` is posted as: a retry, because of data exactly when its window has been passed. */
  ghost predicate PostedAs(w: Ticket, t: Ticket, issued: seq<Request>, newest: nat, expired: set<nat>)
    requires w.id < |issued|
  {
    && (issued[w.id].end < newest || w.id in expired)
    && t.isRetry && t.cause == (if issued[w.id].end < newest then ByData else ByTimeout)
    && t.id == w.id && t.runs == w.runs && t.code == w.code
  }

  /** And which it posts: all others, as retries. */
  lemma {:induction false} PassPosts(ws: seq<Ticket>, issued: seq<Request>, newest: nat, expired: set<nat>, t: Ticket)
    requires Known(ws, issued)
    ensures t in Retries(ws, issued, newest, expired) <==>
              exists w :: w in ws && PostedAs(w, t, issued, newest, expired)
  {
    if ws != [] {
      assert ws == [ws[0]] + ws[1..];
      PassPosts(ws[1..], issued, newest, expired, t);
      assert PostedAs(ws[0], t, issued, newest, expired) <==>
               Released(ws[0], issued[ws[0].id].end, newest, expired)
               && t == Reissued(ws[0], issued[ws[0].id].end, newest);
    }
  }

  /** How many have expired without their window having been passed. */
  function Overdue(ws: seq<Ticket>, issued: seq<Request>, newest: nat, expired: set<nat>): nat
    requires Known(ws, issued)
  {
    if ws == [] then 0
    else (if ws[0].id in expired && newest <= issued[ws[0].id].end then 1 else 0)
         + Overdue(ws[1..], issued, newest, expired)
  }

  /** What tickets are counted for: carrying a request, or having been posted by a timeout. */
  datatype Mark = Carries(id: nat) | TimedOut

  predicate Has(t: Ticket, mark: Mark) {
    match mark
    case Carries(id) => t.id == id
    case TimedOut => t.cause == ByTimeout
  }

  function Tally(ts: seq<Ticket>, mark: Mark): nat {
    if ts == [] then 0 else (if Has(ts[0], mark) then 1 else 0) + Tally(ts[1..], mark)
  }

  // The state machine

  ghost predicate Enabled(s: State, a: Action) {
    match a
    case Arrive(ts) => Newest(s.buffer) <= ts
    case CleanUp(oldest) => s.buffer.Range? && s.buffer.oldest <= oldest <= s.buffer.newest
    case Issue(_) => true
    case Execute(i, _) => i < |s.pool| && s.pool[i].id < |s.issued|
    case Dispatch(i) => i < |s.executed|
    case CheckWaiting(_) => s.running && Known(s.waiting, s.issued)
    case Stop => s.running
  }

  function Without<T>(xs: seq<T>, i: nat): seq<T>
    requires i < |xs|
  {
    xs[..i] + xs[i + 1..]
  }

  ghost function Apply(s: State, a: Action, cfg: Config): State
    requires Enabled(s, a)
  {
    match a
    case Arrive(ts) => s.(buffer := Range(if s.buffer.Empty? then ts else s.buffer.oldest, ts))
    case CleanUp(oldest) => s.(buffer := Range(oldest, s.buffer.newest))
    case Issue(r) => s.(issued := s.issued + [r], pool := s.pool + [Ticket(|s.issued|, false, Fresh, 0, Unknown)])
    case Execute(i, found) =>
      var t := s.pool[i];
      var code := Outcome(s.buffer, s.issued[t.id], found);
      s.(pool := Without(s.pool, i), executed := s.executed + [t.(runs := t.runs + 1, code := code)],
         counters := Count(s.counters, code), codes := s.codes + [code])
    case Dispatch(i) =>
      var t := s.executed[i];
      if Retryable(t.code) && cfg.timeoutMs > 0 && !t.isRetry then
        s.(executed := Without(s.executed, i), waiting := s.waiting + [t])
      else
        s.(executed := Without(s.executed, i), answered := s.answered + [t])
    case CheckWaiting(expired) =>
      var newest := Newest(s.buffer);
      var retries := Retries(s.waiting, s.issued, newest, expired);
      s.(waiting := StillWaiting(s.waiting, s.issued, newest, expired), pool := s.pool + retries,
         counters := s.counters.(bad := s.counters.bad + Tally(retries, TimedOut),
                                 timedOut := s.counters.timedOut + Tally(retries, TimedOut)))
    case Stop => s.(running := false)
  }

  ghost predicate Runs(s: State, actions: seq<Action>, t: State, cfg: Config)
    decreases |actions|
  {
    if actions == [] then
      s == t
    else
      Enabled(s, actions[0]) && Runs(Apply(s, actions[0], cfg), actions[1..], t, cfg)
  }

  lemma {:induction false} TallyAppend(a: seq<Ticket>, b: seq<Ticket>, mark: Mark)
    ensures Tally(a + b, mark) == Tally(a, mark) + Tally(b, mark)
  {
    if a == [] {
      assert a + b == b;
    } else {
      assert (a + b)[1..] == a[1..] + b;
      TallyAppend(a[1..], b, mark);
    }
  }

  lemma TallyPush(ts: seq<Ticket>, t: Ticket, mark: Mark)
    ensures Tally(ts + [t], mark) == Tally(ts, mark) + (if Has(t, mark) then 1 else 0)
  {
    TallyAppend(ts, [t], mark);
  }

  lemma TallyWithout(ts: seq<Ticket>, i: nat, mark: Mark)
    requires i < |ts|
    ensures Tally(ts, mark) == Tally(Without(ts, i), mark) + (if Has(ts[i], mark) then 1 else 0)
  {
    TallyPush(ts[..i], ts[i], mark);
    TallyAppend(ts[..i] + [ts[i]], ts[i + 1..], mark);
    TallyAppend(ts[..i], ts[i + 1..], mark);
    assert ts == (ts[..i] + [ts[i]]) + ts[i + 1..];
  }

  /** One pass over the waiting list loses and duplicates nothing. */
  lemma {:induction false} PassKeepsTally(ws: seq<Ticket>, issued: seq<Request>, newest: nat, expired: set<nat>,
                                          id: nat)
    requires Known(ws, issued)
    ensures Tally(ws, Carries(id)) == Tally(StillWaiting(ws, issued, newest, expired), Carries(id))
                                    + Tally(Retries(ws, issued, newest, expired), Carries(id))
  {
    if ws != [] {
      var w := ws[0];
      var kept, out := StillWaiting(ws[1..], issued, newest, expired), Retries(ws[1..], issued, newest, expired);
      PassKeepsTally(ws[1..], issued, newest, expired, id);
      TallyAppend([w], kept, Carries(id));
      TallyAppend([Reissued(w, issued[w.id].end, newest)], out, Carries(id));
      assert [] + kept == kept && [] + out == out;
    }
  }

  /** It counts as timed out exactly those. */
  lemma {:induction false} PassTimesOut(ws: seq<Ticket>, issued: seq<Request>, newest: nat, expired: set<nat>)
    requires Known(ws, issued)
    ensures Tally(Retries(ws, issued, newest, expired), TimedOut) == Overdue(ws, issued, newest, expired)
  {
    if ws != [] {
      PassTimesOut(ws[1..], issued, newest, expired);
      TallyAppend([Reissued(ws[0], issued[ws[0].id].end, newest)], Retries(ws[1..], issued, newest, expired), TimedOut);
      assert [] + Retries(ws[1..], issued, newest, expired) == Retries(ws[1..], issued, newest, expired);
    }
  }

  lemma {:induction false} NoneTimedOut(ts: seq<Ticket>)
    requires forall t | t in ts :: t.cause == Fresh
    ensures Tally(ts, TimedOut) == 0
  {
    if ts != [] {
      NoneTimedOut(ts[1..]);
    }
  }

  /** In how many places a request is. */
  function Places(s: State, id: nat): nat {
    Tally(s.pool, Carries(id)) + Tally(s.executed, Carries(id)) + Tally(s.waiting, Carries(id))
    + Tally(s.answered, Carries(id))
  }

  ghost predicate PlacesInv(s: State, id: nat) {
    Places(s, id) == if id < |s.issued| then 1 else 0
  }

  lemma ExecuteKeepsPlaces(s: State, i: nat, found: bool, id: nat, cfg: Config)
    requires Enabled(s, Execute(i, found)) && PlacesInv(s, id)
    ensures PlacesInv(Apply(s, Execute(i, found), cfg), id)
  {
    var t, m := s.pool[i], Carries(id);
    TallyWithout(s.pool, i, m);
    TallyPush(s.executed, t.(runs := t.runs + 1, code := Outcome(s.buffer, s.issued[t.id], found)), m);
  }

  lemma DispatchKeepsPlaces(s: State, i: nat, id: nat, cfg: Config)
    requires Enabled(s, Dispatch(i)) && PlacesInv(s, id)
    ensures PlacesInv(Apply(s, Dispatch(i), cfg), id)
  {
    var m := Carries(id);
    TallyWithout(s.executed, i, m);
    TallyPush(s.waiting, s.executed[i], m);
    TallyPush(s.answered, s.executed[i], m);
  }

  lemma StepKeepsPlaces(s: State, a: Action, id: nat, cfg: Config)
    requires Enabled(s, a) && PlacesInv(s, id)
    ensures PlacesInv(Apply(s, a, cfg), id)
  {
    match a
    case Arrive(_) =>
    case CleanUp(_) =>
    case Stop =>
    case Issue(r) => TallyPush(s.pool, Ticket(|s.issued|, false, Fresh, 0, Unknown), Carries(id));
    case Execute(i, found) => ExecuteKeepsPlaces(s, i, found, id, cfg);
    case Dispatch(i) => DispatchKeepsPlaces(s, i, id, cfg);
    case CheckWaiting(expired) =>
      PassKeepsTally(s.waiting, s.issued, Newest(s.buffer), expired, id);
      TallyAppend(s.pool, Retries(s.waiting, s.issued, Newest(s.buffer), expired), Carries(id));
  }

  // What the tickets in each place look like

  /** The window of a request that was re-issued because of data ends before the newest element. */
  ghost predicate Passed(buffer: Buffer, issued: seq<Request>, t: Ticket) {
    t.id < |issued| && (t.cause == ByData ==> buffer.Range? && issued[t.id].end < buffer.newest)
  }

  /** A retry whose code is not final had timed out, if its window begins at most a tick after its end. */
  ghost predicate Final(issued: seq<Request>, t: Ticket) {
    && t.id < |issued|
    && (Retryable(t.code) && issued[t.id].begin <= issued[t.id].end + 1 && t.isRetry ==> t.cause == ByTimeout)
  }

  ghost predicate Posted(buffer: Buffer, issued: seq<Request>, t: Ticket) {
    Passed(buffer, issued, t) && t.runs == (if t.isRetry then 1 else 0) && (t.isRetry <==> t.cause != Fresh)
  }

  ghost predicate Ran(issued: seq<Request>, t: Ticket) {
    Final(issued, t) && t.runs == (if t.isRetry then 2 else 1) && (t.isRetry <==> t.cause != Fresh)
  }

  ghost predicate Waits(issued: seq<Request>, t: Ticket, cfg: Config) {
    Ran(issued, t) && !t.isRetry && Retryable(t.code) && cfg.timeoutMs > 0
  }

  ghost predicate Answers(issued: seq<Request>, t: Ticket, cfg: Config) {
    Ran(issued, t) && (Retryable(t.code) && !t.isRetry ==> cfg.timeoutMs <= 0)
  }

  ghost predicate TicketsInv(s: State, cfg: Config) {
    && (forall t | t in s.pool :: Posted(s.buffer, s.issued, t))
    && (forall t | t in s.executed :: Ran(s.issued, t))
    && (forall t | t in s.waiting :: Waits(s.issued, t, cfg))
    && (forall t | t in s.answered :: Answers(s.issued, t, cfg))
  }

  lemma ExecutionIsDecisive(buffer: Buffer, issued: seq<Request>, t: Ticket, found: bool)
    requires Posted(buffer, issued, t)
    ensures Ran(issued, t.(runs := t.runs + 1, code := Outcome(buffer, issued[t.id], found)))
  {
  }

  lemma StepKeepsTickets(s: State, a: Action, cfg: Config)
    requires Enabled(s, a) && TicketsInv(s, cfg)
    ensures TicketsInv(Apply(s, a, cfg), cfg)
  {
    match a
    case Arrive(_) =>
    case CleanUp(_) =>
    case Stop =>
    case Issue(r) => assert forall id | 0 <= id < |s.issued| :: (s.issued + [r])[id] == s.issued[id];
    case Execute(i, found) =>
      assert s.pool[i] in s.pool;
      ExecutionIsDecisive(s.buffer, s.issued, s.pool[i], found);
    case Dispatch(i) => assert s.executed[i] in s.executed;
    case CheckWaiting(expired) =>
      forall t | t in Retries(s.waiting, s.issued, Newest(s.buffer), expired) ensures Posted(s.buffer, s.issued, t) {
        var w :| w in s.waiting && t == Reissued(w, s.issued[w.id].end, Newest(s.buffer));
      }
  }

  // The statistics

  /** Each counter is the number of executions that returned certain codes; a timeout counts as bad. */
  ghost predicate CountsCodes(k: Counters, codes: seq<ResultCode>) {
    var returned := multiset(codes);
    && k.found == returned[Found] + returned[PartiallyOld]
    && k.delayed == returned[NotYet] + returned[Partial]
    && k.oldWindow == returned[TooOld] + returned[PartiallyOld]
    && k.bad == returned[TooOld] + returned[NotFound] + returned[Unknown] + k.timedOut
    && k.found + k.delayed + k.bad == |codes| + k.timedOut
  }

  lemma CountKeepsCodes(k: Counters, codes: seq<ResultCode>, code: ResultCode)
    requires CountsCodes(k, codes)
    ensures CountsCodes(Count(k, code), codes + [code]) && Count(k, code).timedOut == k.timedOut
  {
    assert multiset(codes + [code]) == multiset(codes) + multiset{code};
  }

  /** The timeouts are the tickets on their way or answered that were posted for that reason. */
  ghost predicate TimeoutsInv(s: State) {
    && s.counters.timedOut == Tally(s.pool, TimedOut) + Tally(s.executed, TimedOut) + Tally(s.answered, TimedOut)
    && Tally(s.waiting, TimedOut) == 0
  }

  ghost predicate CountersInv(s: State) {
    CountsCodes(s.counters, s.codes) && TimeoutsInv(s)
  }

  lemma ExecuteKeepsTimeouts(s: State, i: nat, found: bool, cfg: Config)
    requires Enabled(s, Execute(i, found)) && TimeoutsInv(s)
    ensures TimeoutsInv(Apply(s, Execute(i, found), cfg))
  {
    var t := s.pool[i];
    TallyWithout(s.pool, i, TimedOut);
    TallyPush(s.executed, t.(runs := t.runs + 1, code := Outcome(s.buffer, s.issued[t.id], found)), TimedOut);
  }

  lemma ExecuteKeepsCounters(s: State, i: nat, found: bool, cfg: Config)
    requires Enabled(s, Execute(i, found)) && CountersInv(s)
    ensures CountersInv(Apply(s, Execute(i, found), cfg))
  {
    CountKeepsCodes(s.counters, s.codes, Outcome(s.buffer, s.issued[s.pool[i].id], found));
    ExecuteKeepsTimeouts(s, i, found, cfg);
  }

  lemma DispatchKeepsTimeouts(s: State, i: nat, cfg: Config)
    requires Enabled(s, Dispatch(i)) && TimeoutsInv(s) && (!s.executed[i].isRetry ==> s.executed[i].cause != ByTimeout)
    ensures TimeoutsInv(Apply(s, Dispatch(i), cfg))
  {
    TallyWithout(s.executed, i, TimedOut);
    TallyPush(s.waiting, s.executed[i], TimedOut);
    TallyPush(s.answered, s.executed[i], TimedOut);
  }

  lemma DispatchKeepsCounters(s: State, i: nat, cfg: Config)
    requires Enabled(s, Dispatch(i)) && TicketsInv(s, cfg) && CountersInv(s)
    ensures CountersInv(Apply(s, Dispatch(i), cfg))
  {
    assert s.executed[i] in s.executed;
    DispatchKeepsTimeouts(s, i, cfg);
  }

  lemma PassKeepsCounters(s: State, expired: set<nat>, cfg: Config)
    requires Enabled(s, CheckWaiting(expired)) && TicketsInv(s, cfg) && CountersInv(s)
    ensures CountersInv(Apply(s, CheckWaiting(expired), cfg))
  {
    NoneTimedOut(StillWaiting(s.waiting, s.issued, Newest(s.buffer), expired));
    TallyAppend(s.pool, Retries(s.waiting, s.issued, Newest(s.buffer), expired), TimedOut);
  }

  lemma StepKeepsCounters(s: State, a: Action, cfg: Config)
    requires Enabled(s, a) && TicketsInv(s, cfg) && CountersInv(s)
    ensures CountersInv(Apply(s, a, cfg))
  {
    match a
    case Arrive(_) =>
    case CleanUp(_) =>
    case Stop =>
    case Issue(r) => TallyPush(s.pool, Ticket(|s.issued|, false, Fresh, 0, Unknown), TimedOut);
    case Execute(i, found) => ExecuteKeepsCounters(s, i, found, cfg);
    case Dispatch(i) => DispatchKeepsCounters(s, i, cfg);
    case CheckWaiting(expired) => PassKeepsCounters(s, expired, cfg);
  }

  // Every run

  ghost predicate Inv(s: State, id: nat, cfg: Config) {
    PlacesInv(s, id) && TicketsInv(s, cfg) && CountersInv(s)
  }

  lemma {:induction false} RunKeepsInv(s: State, actions: seq<Action>, t: State, id: nat, cfg: Config)
    requires Inv(s, id, cfg) && Runs(s, actions, t, cfg)
    ensures Inv(t, id, cfg)
    decreases |actions|
  {
    if actions != [] {
      StepKeepsPlaces(s, actions[0], id, cfg);
      StepKeepsTickets(s, actions[0], cfg);
      StepKeepsCounters(s, actions[0], cfg);
      RunKeepsInv(Apply(s, actions[0], cfg), actions[1..], t, id, cfg);
    }
  }

  /** Some run of the handler's threads from the start leads to `t`. */
  ghost predicate Reachable(t: State, cfg: Config) {
    exists init, actions :: Initial(init) && Runs(init, actions, t, cfg)
  }

  lemma ReachableInv(t: State, id: nat, cfg: Config)
    requires Reachable(t, cfg)
    ensures Inv(t, id, cfg)
  {
    var init, actions :| Initial(init) && Runs(init, actions, t, cfg);
    RunKeepsInv(init, actions, t, id, cfg);
  }

  /** No request is lost or duplicated: in every reachable state each issued request is in exactly
      one of pool, execution, waiting list and answers, so it is answered at most once. */
  lemma RequestsAreConserved(t: State, id: nat, cfg: Config)
    requires Reachable(t, cfg)
    ensures Tally(t.pool, Carries(id)) + Tally(t.executed, Carries(id)) + Tally(t.waiting, Carries(id))
          + Tally(t.answered, Carries(id)) == (if id < |t.issued| then 1 else 0)
  {
    ReachableInv(t, id, cfg);
  }

  /** No request is executed more than twice: once when fresh, once more as a retry. */
  lemma AtMostTwoExecutions(t: State, x: Ticket, cfg: Config)
    requires Reachable(t, cfg)
    requires x in t.pool || x in t.executed || x in t.waiting || x in t.answered
    ensures x.runs <= 2 && (x.runs == 2 ==> x.isRetry)
    ensures x in t.answered ==> x.runs == (if x.isRetry then 2 else 1)
  {
    ReachableInv(t, 0, cfg);
  }

  /** The statistics add up: every execution counts once as found, delayed or bad, and every timeout
      once more as bad; and the timeouts counted are the requests re-issued for that reason. */
  lemma StatisticsAddUp(t: State, cfg: Config)
    requires Reachable(t, cfg)
    ensures t.counters.found + t.counters.delayed + t.counters.bad == |t.codes| + t.counters.timedOut
    ensures t.counters.timedOut
         == Tally(t.pool, TimedOut) + Tally(t.executed, TimedOut) + Tally(t.answered, TimedOut)
  {
    ReachableInv(t, 0, cfg);
  }

  /** And each counter tells which codes the executions of the run returned. */
  lemma CountersTellCodes(t: State, cfg: Config)
    requires Reachable(t, cfg)
    ensures var k, codes := t.counters, multiset(t.codes);
            && k.found == codes[Found] + codes[PartiallyOld]
            && k.delayed == codes[NotYet] + codes[Partial]
            && k.oldWindow == codes[TooOld] + codes[PartiallyOld]
            && k.bad == codes[TooOld] + codes[NotFound] + codes[Unknown] + k.timedOut
  {
    ReachableInv(t, 0, cfg);
  }

  /** An answer "not yet" or "partial" is never given too early: with retries enabled and a window
      that begins at most a tick after its end, it was given to a request that had waited out the
      timeout. A retry released by the arrival of data always ends in another code. */
  lemma EarlyAnswersOnlyAfterTimeout(t: State, x: Ticket, cfg: Config)
    requires Reachable(t, cfg) && x in t.answered && cfg.timeoutMs > 0
    ensures x.id < |t.issued|
    ensures x.code == NotYet || x.code == Partial ==>
              x.isRetry && (t.issued[x.id].begin <= t.issued[x.id].end + 1 ==> x.cause == ByTimeout)
  {
    ReachableInv(t, 0, cfg);
  }
}
