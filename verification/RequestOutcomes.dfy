/** What becomes of requests in the end: when a retry released by data is decisive, and which requests
    are left over when the run stops. */
module RequestOutcomes {
  import opened RequestLifecycle
  import opened RequestWindow

  lemma {:induction false} RunsThenStep(s: State, actions: seq<Action>, t: State, a: Action, cfg: Config)
    requires Runs(s, actions, t, cfg) && Enabled(t, a)
    ensures Runs(s, actions + [a], Apply(t, a, cfg), cfg)
    decreases |actions|
  {
    if actions == [] {
      assert [a][1..] == [];
      assert Runs(Apply(s, a, cfg), [a][1..], Apply(t, a, cfg), cfg);
    } else {
      RunsThenStep(Apply(s, actions[0], cfg), actions[1..], t, a, cfg);
      assert (actions + [a])[1..] == actions[1..] + [a];
    }
  }

  lemma ReachNext(s: State, a: Action, cfg: Config) returns (t: State)
    requires Reachable(s, cfg) && Enabled(s, a)
    ensures Reachable(t, cfg) && t == Apply(s, a, cfg)
  {
    var init, actions :| Initial(init) && Runs(init, actions, s, cfg);
    RunsThenStep(init, actions, s, a, cfg);
    t := Apply(s, a, cfg);
  }

  // Retries released by data

  /** One element is stored, and a request is in the pool. */
  lemma RequestIsIssued(r: Request, cfg: Config) returns (s: State)
    ensures Reachable(s, cfg)
    ensures s == State(Range(0, 0), [r], [Ticket(0, false, Fresh, 0, Unknown)], [], [], [],
                       Counters(0, 0, 0, 0, 0), [], true)
  {
    s := State(Empty, [], [], [], [], [], Counters(0, 0, 0, 0, 0), [], true);
    assert Runs(s, [], s, cfg);
    s := ReachNext(s, Arrive(0), cfg);
    s := ReachNext(s, Issue(r), cfg);
  }

  /** With a window ahead of that element it is answered NotYet. */
  lemma RequestIsEarly(r: Request, cfg: Config) returns (s: State)
    requires r.begin > 0
    ensures Reachable(s, cfg) && s.running && s.buffer == Range(0, 0) && s.issued == [r] && s.pool == []
    ensures s.executed == [Ticket(0, false, Fresh, 1, NotYet)] && s.waiting == [] && s.answered == []
  {
    s := RequestIsIssued(r, cfg);
    var issued := s.pool;
    assert Without(issued, 0) == [];
    s := ReachNext(s, Execute(0, false), cfg);
  }

  /** So it waits for its data. */
  lemma RequestWaits(r: Request, cfg: Config) returns (s: State)
    requires cfg.timeoutMs > 0 && r.begin > 0
    ensures Reachable(s, cfg) && s.running && s.buffer == Range(0, 0) && s.issued == [r]
    ensures s.pool == [] && s.executed == [] && s.waiting == [Ticket(0, false, Fresh, 1, NotYet)] && s.answered == []
  {
    s := RequestIsEarly(r, cfg);
    assert Without(s.executed, 0) == [];
    s := ReachNext(s, Dispatch(0), cfg);
  }

  /** Data just past the end of the window releases it. */
  lemma RequestIsReleased(r: Request, cfg: Config) returns (s: State)
    requires cfg.timeoutMs > 0 && r.begin > 0
    ensures Reachable(s, cfg) && s.buffer == Range(0, r.end + 1) && s.issued == [r]
    ensures s.pool == [Ticket(0, true, ByData, 1, NotYet)] && s.executed == [] && s.answered == []
  {
    s := RequestWaits(r, cfg);
    s := ReachNext(s, Arrive(r.end + 1), cfg);
    var w := s.waiting;
    assert w[1..] == [];
    assert Retries(w, s.issued, r.end + 1, {})
        == [Ticket(0, true, ByData, 1, NotYet)] + Retries(w[1..], s.issued, r.end + 1, {});
    s := ReachNext(s, CheckWaiting({}), cfg);
  }

  /** If the window begins more than a tick after its end, the retry is answered "not yet". */
  lemma RetryIsAnsweredEarly(r: Request, cfg: Config) returns (s: State, x: Ticket)
    requires cfg.timeoutMs > 0 && r.begin > r.end + 1
    ensures Reachable(s, cfg) && s.issued == [r] && s.answered == [x] && x == Ticket(0, true, ByData, 2, NotYet)
  {
    s := RequestIsReleased(r, cfg);
    s := ReachNext(s, Execute(0, false), cfg);
    s := ReachNext(s, Dispatch(0), cfg);
    x := Ticket(0, true, ByData, 2, NotYet);
  }

  /** A retry for this window, released by data, was answered "not yet" or "partial". */
  ghost predicate AnsweredEarly(t: State, x: Ticket, r: Request) {
    x in t.answered && x.id < |t.issued| && t.issued[x.id] == r && x.cause == ByData
    && (x.code == NotYet || x.code == Partial)
  }

  /** A retry released by data is decisive for exactly the windows that begin at most a tick after
      their end; for every other window some run answers it "not yet". */
  lemma DataRetryIsDecisiveExactlyWhen(r: Request, cfg: Config)
    requires cfg.timeoutMs > 0
    ensures (exists t, x :: Reachable(t, cfg) && AnsweredEarly(t, x, r)) <==> r.begin > r.end + 1
  {
    if r.begin > r.end + 1 {
      var t, x := RetryIsAnsweredEarly(r, cfg);
      assert AnsweredEarly(t, x, r);
    } else {
      forall t, x | Reachable(t, cfg) ensures !AnsweredEarly(t, x, r) {
        if AnsweredEarly(t, x, r) {
          EarlyAnswersOnlyAfterTimeout(t, x, cfg);
        }
      }
    }
  }

  // While the run goes on

  /** The steps of the thread pool. */
  predicate OfPool(a: Action) {
    a.Execute? || a.Dispatch?
  }

  /** The pool can always finish its work, also after stop: from every reachable state its own steps
      lead to one where nothing is left in it. */
  lemma {:induction false} PoolCanFinish(s: State, cfg: Config) returns (actions: seq<Action>, t: State)
    requires TicketsInv(s, cfg)
    ensures (forall a | a in actions :: OfPool(a)) && Runs(s, actions, t, cfg)
    ensures t.pool == [] && t.executed == [] && t.running == s.running && t.issued == s.issued
    ensures (forall x | x in s.pool || x in s.executed :: x.isRetry) ==> t.waiting == s.waiting
    decreases 2 * |s.pool| + |s.executed|
  {
    if s.pool == [] && s.executed == [] {
      actions, t := [], s;
    } else {
      assert s.pool != [] ==> s.pool[0] in s.pool;
      var a := if s.executed != [] then Dispatch(0) else Execute(0, false);
      StepKeepsTickets(s, a, cfg);
      var rest;
      rest, t := PoolCanFinish(Apply(s, a, cfg), cfg);
      actions := [a] + rest;
      assert actions[1..] == rest;
    }
  }

  lemma {:induction false} RunsJoin(s: State, first: seq<Action>, u: State, second: seq<Action>, t: State, cfg: Config)
    requires Runs(s, first, u, cfg) && Runs(u, second, t, cfg)
    ensures Runs(s, first + second, t, cfg)
    decreases |first|
  {
    if first == [] {
      assert first + second == second;
    } else {
      assert (first + second)[1..] == first[1..] + second;
      RunsJoin(Apply(s, first[0], cfg), first[1..], u, second, t, cfg);
    }
  }

  lemma ReachJoin(s: State, actions: seq<Action>, t: State, cfg: Config)
    requires Reachable(s, cfg) && Runs(s, actions, t, cfg)
    ensures Reachable(t, cfg)
  {
    var init, before :| Initial(init) && Runs(init, before, s, cfg);
    RunsJoin(init, before, s, actions, t, cfg);
  }

  /** Once everything that waits has expired, a pass posts all of it again as retries. */
  lemma ExpiryEmptiesWaiting(s: State, cfg: Config) returns (a: Action, t: State)
    requires Reachable(s, cfg) && s.running && s.pool == [] && s.executed == []
    ensures a.CheckWaiting? && Enabled(s, a) && t == Apply(s, a, cfg)
    ensures t.waiting == [] && t.executed == [] && t.issued == s.issued && forall x | x in t.pool :: x.isRetry
  {
    ReachableInv(s, 0, cfg);
    var expired := set w | w in s.waiting :: w.id;
    a := CheckWaiting(expired);
    t := Apply(s, a, cfg);
    if t.waiting != [] {
      PassLeaves(s.waiting, s.issued, Newest(s.buffer), expired, t.waiting[0]);
    }
    forall x | x in t.pool ensures x.isRetry {
      PassPosts(s.waiting, s.issued, Newest(s.buffer), expired, x);
    }
  }

  /** The steps that need no new data: those of the pool and the passes over the waiting list. */
  predicate WithoutData(a: Action) {
    OfPool(a) || a.CheckWaiting?
  }

  /** The pool finishes, and then everything that waits is posted again. */
  lemma WaitingCanBeEmptied(s: State, cfg: Config) returns (actions: seq<Action>, t: State)
    requires Reachable(s, cfg) && s.running
    ensures (forall a | a in actions :: WithoutData(a)) && Runs(s, actions, t, cfg) && Reachable(t, cfg)
    ensures t.waiting == [] && t.executed == [] && t.issued == s.issued && forall x | x in t.pool :: x.isRetry
  {
    ReachableInv(s, 0, cfg);
    var first, u := PoolCanFinish(s, cfg);
    ReachJoin(s, first, u, cfg);
    var a;
    a, t := ExpiryEmptiesWaiting(u, cfg);
    RunsThenStep(s, first, u, a, cfg);
    actions := first + [a];
    ReachJoin(s, actions, t, cfg);
  }

  /** While the run goes on no request is stuck: from every reachable state the handler's own steps, without
      any new data, lead to one where each issued request is answered exactly once. */
  lemma EveryRequestCanBeAnswered(s: State, cfg: Config)
    requires Reachable(s, cfg) && s.running
    ensures exists actions, t ::
              && (forall a | a in actions :: WithoutData(a)) && Runs(s, actions, t, cfg) && t.issued == s.issued
              && forall id | 0 <= id < |t.issued| :: Tally(t.answered, Carries(id)) == 1
  {
    var first, u := WaitingCanBeEmptied(s, cfg);
    ReachableInv(u, 0, cfg);
    var last, t := PoolCanFinish(u, cfg);
    RunsJoin(s, first, u, last, t, cfg);
    ReachJoin(u, last, t, cfg);
    AllAnswered(t, cfg);
    assert forall x | x in first + last :: WithoutData(x);
  }

  lemma AllAnswered(t: State, cfg: Config)
    requires Reachable(t, cfg) && t.pool == [] && t.executed == [] && t.waiting == []
    ensures forall id | 0 <= id < |t.issued| :: Tally(t.answered, Carries(id)) == 1
  {
    forall id | 0 <= id < |t.issued| ensures Tally(t.answered, Carries(id)) == 1 {
      RequestsAreConserved(t, id, cfg);
    }
  }

  // At stop

  /** After stop a waiting request waits for ever: the loop that would post it again has ended. */
  lemma {:induction false} WaitingStaysAfterStop(s: State, actions: seq<Action>, t: State, cfg: Config)
    requires !s.running && Runs(s, actions, t, cfg)
    ensures !t.running && forall x | x in s.waiting :: x in t.waiting
    decreases |actions|
  {
    if actions != [] {
      var next := Apply(s, actions[0], cfg);
      assert !next.running && forall x | x in s.waiting :: x in next.waiting;
      WaitingStaysAfterStop(next, actions[1..], t, cfg);
    }
  }

  /** The run has stopped and the thread pool has finished. */
  predicate Over(t: State) {
    !t.running && t.pool == [] && t.executed == []
  }

  /** Once it is over, every issued request is answered or left over on the waiting list, and not both;
      what is left over ran once, without an answer. */
  lemma AnsweredOrLeftOver(t: State, id: nat, cfg: Config)
    requires Reachable(t, cfg) && Over(t) && id < |t.issued|
    ensures Tally(t.answered, Carries(id)) + Tally(t.waiting, Carries(id)) == 1
    ensures forall x | x in t.waiting :: x.runs == 1 && (x.code == NotYet || x.code == Partial)
  {
    RequestsAreConserved(t, id, cfg);
    ReachableInv(t, id, cfg);
  }

  /** From every reachable stopped state the pool comes to an end, and what waited when the run stopped
      is then left over. */
  lemma StopLeavesWaitingBehind(s: State, cfg: Config)
    requires Reachable(s, cfg) && !s.running
    ensures exists actions, t :: Runs(s, actions, t, cfg) && Over(t) && t.issued == s.issued
              && forall x | x in s.waiting :: x in t.waiting
  {
    ReachableInv(s, 0, cfg);
    var actions, t := PoolCanFinish(s, cfg);
    WaitingStaysAfterStop(s, actions, t, cfg);
  }

  lemma WaitingNeedsTimeout(t: State, x: Ticket, cfg: Config)
    requires Reachable(t, cfg) && x in t.waiting
    ensures cfg.timeoutMs > 0
  {
    ReachableInv(t, 0, cfg);
  }

  /** Requests can be left over exactly when there are retries at all. */
  lemma LeftOversExactlyWithRetries(cfg: Config)
    ensures (exists t :: Reachable(t, cfg) && Over(t) && t.waiting != []) <==> cfg.timeoutMs > 0
  {
    if cfg.timeoutMs > 0 {
      var t := RequestWaits(Request(1, 1), cfg);
      t := ReachNext(t, Stop, cfg);
    } else {
      forall t | Reachable(t, cfg) ensures t.waiting == [] {
        if t.waiting != [] {
          WaitingNeedsTimeout(t, t.waiting[0], cfg);
        }
      }
    }
  }
}
