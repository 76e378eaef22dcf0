/** The per-principal rate and concurrency limiter of `api/limits.py`.
  *
  * Each entry and each exit is one atomic step under the lock; its clock reading is a parameter.
  * Time is `real`.
  */
module TrafficLimiter {
  import opened Foundations
  import opened SlidingWindow

  datatype Limits = Limits(rateLimitRequests: int, windowSeconds: real, maxConcurrent: int)

  predicate ValidLimits(l: Limits) {
    1 <= l.rateLimitRequests && 0.0 < l.windowSeconds && 1 <= l.maxConcurrent
  }

  datatype Verdict = Admitted | RateLimited(retryAfter: int) | ConcurrencyLimited(retryAfter: int)

  datatype StateView = StateView(timestamps: seq<real>, active: int)

  type View = map<string, StateView>

  const IDLE := StateView([], 0)

  function StateOf(v: View, principal: string): StateView {
    if principal in v then v[principal] else IDLE
  }

  /** `acquire` on the state of its principal, up to the point where the caller gets a slot or an error. */
  function EnterState(l: Limits, state: StateView, now: real): (StateView, Verdict)
    requires ValidLimits(l)
  {
    var kept := Pruned(state.timestamps, now - l.windowSeconds);
    if |kept| >= l.rateLimitRequests then
      (StateView(kept, state.active), RateLimited(Max(1, Ceil(l.windowSeconds - (now - kept[0])))))
    else if state.active >= l.maxConcurrent then
      (StateView(kept + [now], state.active), ConcurrencyLimited(1))
    else
      (StateView(kept + [now], state.active + 1), Admitted)
  }

  function Enter(l: Limits, v: View, principal: string, now: real): (View, Verdict)
    requires ValidLimits(l)
  {
    var (state, verdict) := EnterState(l, StateOf(v, principal), now);
    (v[principal := state], verdict)
  }

  /** The `finally` block of `acquire` on an existing state. */
  function ExitState(l: Limits, state: StateView, now: real): StateView {
    StateView(Pruned(state.timestamps, now - l.windowSeconds), Max(0, state.active - 1))
  }

  /** An idle state is deleted. */
  function Exit(l: Limits, v: View, principal: string, now: real): View {
    if principal !in v then v
    else
      var state := ExitState(l, v[principal], now);
      if state == IDLE then v - {principal} else v[principal := state]
  }

  class PrincipalState {
    var timestamps: seq<real>
    var active: int

    constructor ()
      ensures timestamps == [] && active == 0
    {
      timestamps, active := [], 0;
    }

    function Value(): StateView
      reads this
    {
      StateView(timestamps, active)
    }
  }

  class PrincipalTrafficLimiter {
    const limits: Limits
    var states: map<string, PrincipalState>

    constructor (limits: Limits)
      requires ValidLimits(limits)
      ensures this.limits == limits && Valid() && Contents() == map[]
    {
      this.limits := limits;
      states := map[];
    }

    /** No two principals share a state object. */
    ghost predicate Valid()
      reads this
    {
      && ValidLimits(limits)
      && forall p, q | p in states && q in states && p != q :: states[p] != states[q]
    }

    ghost function Contents(): View
      reads this, states.Values
    {
      map p | p in states :: states[p].Value()
    }

    method Prune(state: PrincipalState, now: real)
      modifies state`timestamps
      ensures state.timestamps == Pruned(old(state.timestamps), now - limits.windowSeconds)
    {
      var threshold := now - limits.windowSeconds;
      while state.timestamps != [] && state.timestamps[0] <= threshold
        invariant Pruned(state.timestamps, threshold) == Pruned(old(state.timestamps), threshold)
        decreases |state.timestamps|
      {
        state.timestamps := state.timestamps[1..];
      }
    }

    method Acquire(principal: string, now: real) returns (verdict: Verdict)
      requires Valid()
      modifies this`states, states.Values
      ensures Valid() && fresh(states.Values - old(states.Values))
      ensures (Contents(), verdict) == Enter(limits, old(Contents()), principal, now)
    {
      if principal !in states {
        var created := new PrincipalState();
        states := states[principal := created];
      }
      var state := states[principal];
      assert state.Value() == StateOf(old(Contents()), principal);
      verdict := Admit(state, now);
      assert Contents() == old(Contents())[principal := state.Value()];
    }

    /** The decision on the state of the calling principal. */
    method Admit(state: PrincipalState, now: real) returns (verdict: Verdict)
      requires ValidLimits(limits)
      modifies state
      ensures (state.Value(), verdict) == EnterState(limits, old(state.Value()), now)
    {
      Prune(state, now);
      if |state.timestamps| >= limits.rateLimitRequests {
        return RateLimited(Max(1, Ceil(limits.windowSeconds - (now - state.timestamps[0]))));
      }
      state.timestamps := state.timestamps + [now];
      if state.active >= limits.maxConcurrent {
        return ConcurrencyLimited(1);
      }
      state.active := state.active + 1;
      return Admitted;
    }

    method Release(principal: string, finished: real)
      requires Valid()
      modifies this`states, states.Values
      ensures Valid() && states.Values <= old(states.Values)
      ensures Contents() == Exit(limits, old(Contents()), principal, finished)
    {
      if principal in states {
        var state := states[principal];
        state.active := Max(0, state.active - 1);
        Prune(state, finished);
        if state.active == 0 && state.timestamps == [] {
          states := states - {principal};
        }
      }
    }
  }

  // ---------------------------------------------------------------- the naive limiter

  datatype Attempt = Attempt(principal: string, at: real)

  /** A limiter that keeps every counted attempt forever and every open slot by name. */
  datatype Naive = Naive(attempts: seq<Attempt>, open: multiset<string>)

  function TimesOf(attempts: seq<Attempt>, principal: string): seq<real> {
    if attempts == [] then []
    else
      var last := attempts[|attempts| - 1];
      TimesOf(attempts[..|attempts| - 1], principal) + if last.principal == principal then [last.at] else []
  }

  datatype Answer = Enters | TooManyRequests | TooManyOpen

  function AnswerOf(v: Verdict): Answer {
    match v
    case Admitted => Enters
    case RateLimited(_) => TooManyRequests
    case ConcurrencyLimited(_) => TooManyOpen
  }

  function NaiveEnter(l: Limits, r: Naive, principal: string, now: real): (Naive, Answer) {
    if CountAfter(TimesOf(r.attempts, principal), now - l.windowSeconds) >= l.rateLimitRequests then
      (r, TooManyRequests)
    else
      var counted := r.(attempts := r.attempts + [Attempt(principal, now)]);
      if r.open[principal] >= l.maxConcurrent then (counted, TooManyOpen)
      else (counted.(open := r.open + multiset{principal}), Enters)
  }

  function NaiveExit(r: Naive, principal: string): Naive {
    r.(open := r.open - multiset{principal})
  }

  // ---------------------------------------------------------------- runs

  datatype Call = Arrive(principal: string, now: real) | Leave(principal: string, now: real)

  datatype Run = Run(view: View, naive: Naive, clock: real, verdicts: seq<Verdict>, answers: seq<Answer>)

  /** Both limiters answer the same calls. */
  function Step(l: Limits, r: Run, c: Call): Run
    requires ValidLimits(l)
  {
    match c
    case Arrive(principal, now) =>
      var (view, verdict) := Enter(l, r.view, principal, now);
      var (naive, answer) := NaiveEnter(l, r.naive, principal, now);
      Run(view, naive, now, r.verdicts + [verdict], r.answers + [answer])
    case Leave(principal, now) =>
      Run(Exit(l, r.view, principal, now), NaiveExit(r.naive, principal), now, r.verdicts, r.answers)
  }

  function RunOf(l: Limits, calls: seq<Call>, start: real): Run
    requires ValidLimits(l)
  {
    if calls == [] then Run(map[], Naive([], multiset{}), start, [], [])
    else Step(l, RunOf(l, calls[..|calls| - 1], start), calls[|calls| - 1])
  }

  /** The clock never runs backwards, and an exit belongs to a slot that is open. */
  predicate Possible(l: Limits, calls: seq<Call>, start: real)
    requires ValidLimits(l)
  {
    calls != [] ==>
      var before, last := RunOf(l, calls[..|calls| - 1], start), calls[|calls| - 1];
      && Possible(l, calls[..|calls| - 1], start)
      && before.clock <= last.now
      && (last.Leave? ==> last.principal in before.naive.open)
  }

  /** A state that has forgotten only what is out of the window, and counts the open slots. */
  predicate Tracks(l: Limits, state: StateView, history: seq<real>, open: nat, clock: real) {
    && Sorted(history)
    && (forall i | 0 <= i < |history| :: history[i] <= clock)
    && Remembers(state.timestamps, history, clock - l.windowSeconds)
    && |state.timestamps| <= l.rateLimitRequests
    && state.active == open <= l.maxConcurrent
  }

  predicate Agrees(l: Limits, r: Run, principal: string) {
    Tracks(l, StateOf(r.view, principal), TimesOf(r.naive.attempts, principal), r.naive.open[principal], r.clock)
  }

  lemma EnterTracks(l: Limits, state: StateView, history: seq<real>, open: nat, clock: real, now: real)
    requires ValidLimits(l) && Tracks(l, state, history, open, clock) && clock <= now
    ensures var (after, verdict) := EnterState(l, state, now);
            && (verdict.RateLimited? <==> CountAfter(history, now - l.windowSeconds) >= l.rateLimitRequests)
            && (verdict.Admitted? ==> open < l.maxConcurrent)
            && (verdict.ConcurrencyLimited? ==> open == l.maxConcurrent)
            && Tracks(l, after, if verdict.RateLimited? then history else history + [now],
                      if verdict.Admitted? then open + 1 else open, now)
  {
    hide CountAfter, Pruned, Remembers;
    var threshold := now - l.windowSeconds;
    PruningCountsHistory(state.timestamps, history, clock - l.windowSeconds, threshold);
    RemembersLonger(Pruned(state.timestamps, threshold), history, threshold, now);
  }

  lemma ExitTracks(l: Limits, state: StateView, history: seq<real>, open: nat, clock: real, now: real)
    requires ValidLimits(l) && Tracks(l, state, history, open, clock) && clock <= now && open > 0
    ensures Tracks(l, ExitState(l, state, now), history, open - 1, now)
  {
    hide CountAfter, Pruned, Remembers;
    PruningCountsHistory(state.timestamps, history, clock - l.windowSeconds, now - l.windowSeconds);
  }

  lemma WaitingTracks(l: Limits, state: StateView, history: seq<real>, open: nat, clock: real, now: real)
    requires ValidLimits(l) && Tracks(l, state, history, open, clock) && clock <= now
    ensures Tracks(l, state, history, open, now)
  {
    hide Remembers;
    RemembersLater(state.timestamps, history, clock - l.windowSeconds, now - l.windowSeconds);
  }

  lemma TimesOfLonger(attempts: seq<Attempt>, a: Attempt, principal: string)
    ensures TimesOf(attempts + [a], principal)
         == if a.principal == principal then TimesOf(attempts, principal) + [a.at] else TimesOf(attempts, principal)
  {
    assert (attempts + [a])[..|attempts|] == attempts;
  }

  lemma EnterAgrees(l: Limits, r: Run, principal: string, now: real)
    requires ValidLimits(l) && Agrees(l, r, principal) && r.clock <= now
    ensures AnswerOf(Enter(l, r.view, principal, now).1) == NaiveEnter(l, r.naive, principal, now).1
    ensures Agrees(l, Step(l, r, Arrive(principal, now)), principal)
  {
    hide Tracks, TimesOf, CountAfter, EnterState;
    EnterTracks(l, StateOf(r.view, principal), TimesOf(r.naive.attempts, principal), r.naive.open[principal],
                r.clock, now);
    TimesOfLonger(r.naive.attempts, Attempt(principal, now), principal);
  }

  lemma ExitAgrees(l: Limits, r: Run, principal: string, now: real)
    requires ValidLimits(l) && Agrees(l, r, principal) && r.clock <= now
    requires principal in r.naive.open
    ensures principal in r.view && r.view[principal].active >= 1
    ensures Agrees(l, Step(l, r, Leave(principal, now)), principal)
  {
    hide TimesOf, Remembers, Pruned;
    ExitTracks(l, StateOf(r.view, principal), TimesOf(r.naive.attempts, principal), r.naive.open[principal],
               r.clock, now);
  }

  lemma OthersAgree(l: Limits, r: Run, c: Call, other: string)
    requires ValidLimits(l) && Agrees(l, r, other) && r.clock <= c.now && c.principal != other
    ensures Agrees(l, Step(l, r, c), other)
  {
    hide Tracks, TimesOf, CountAfter, EnterState;
    WaitingTracks(l, StateOf(r.view, other), TimesOf(r.naive.attempts, other), r.naive.open[other], r.clock, c.now);
    TimesOfLonger(r.naive.attempts, Attempt(c.principal, c.now), other);
  }

  lemma {:induction false} RunsAgree(l: Limits, calls: seq<Call>, start: real, principal: string)
    requires ValidLimits(l) && Possible(l, calls, start)
    ensures Agrees(l, RunOf(l, calls, start), principal)
  {
    if calls != [] {
      var init, last := calls[..|calls| - 1], calls[|calls| - 1];
      RunsAgree(l, init, start, principal);
      if last.principal != principal {
        OthersAgree(l, RunOf(l, init, start), last, principal);
      } else if last.Arrive? {
        EnterAgrees(l, RunOf(l, init, start), principal, last.now);
      } else {
        ExitAgrees(l, RunOf(l, init, start), principal, last.now);
      }
    }
  }

  function Arrivals(calls: seq<Call>): nat {
    if calls == [] then 0 else Arrivals(calls[..|calls| - 1]) + if calls[|calls| - 1].Arrive? then 1 else 0
  }

  /** The pruning, state-deleting limiter answers every arrival exactly as the limiter that forgets nothing. */
  lemma {:induction false} RefinesNaiveLimiter(l: Limits, calls: seq<Call>, start: real)
    requires ValidLimits(l) && Possible(l, calls, start)
    ensures var r := RunOf(l, calls, start);
            && |r.verdicts| == |r.answers| == Arrivals(calls)
            && forall i | 0 <= i < |r.verdicts| :: AnswerOf(r.verdicts[i]) == r.answers[i]
  {
    if calls != [] {
      var init, last := calls[..|calls| - 1], calls[|calls| - 1];
      RefinesNaiveLimiter(l, init, start);
      hide Enter, NaiveEnter, Agrees, Exit;
      if last.Arrive? {
        RunsAgree(l, init, start, last.principal);
        EnterAgrees(l, RunOf(l, init, start), last.principal, last.now);
      }
    }
  }

  /** In no window do the counted attempts of one principal exceed the limit. */
  lemma {:induction false} RateIsBounded(l: Limits, calls: seq<Call>, start: real, principal: string, hi: real)
    requires ValidLimits(l) && Possible(l, calls, start)
    ensures CountBetween(TimesOf(RunOf(l, calls, start).naive.attempts, principal), hi - l.windowSeconds, hi)
         <= l.rateLimitRequests
  {
    if calls != [] {
      var before := RunOf(l, calls[..|calls| - 1], start);
      RateIsBounded(l, calls[..|calls| - 1], start, principal, hi);
      StepKeepsRate(l, before, calls[|calls| - 1], principal, hi);
    }
  }

  lemma StepKeepsRate(l: Limits, r: Run, c: Call, principal: string, hi: real)
    requires ValidLimits(l)
    requires CountBetween(TimesOf(r.naive.attempts, principal), hi - l.windowSeconds, hi) <= l.rateLimitRequests
    ensures CountBetween(TimesOf(Step(l, r, c).naive.attempts, principal), hi - l.windowSeconds, hi)
         <= l.rateLimitRequests
  {
    hide CountAfter, CountBetween, TimesOf, Exit, Enter;
    var history := TimesOf(r.naive.attempts, principal);
    TimesOfLonger(r.naive.attempts, Attempt(c.principal, c.now), principal);
    if c.principal == principal && CountAfter(history, c.now - l.windowSeconds) < l.rateLimitRequests {
      OneMoreKeepsBound(history, c.now, l.windowSeconds, l.rateLimitRequests, hi);
    }
  }

  /** Slots are conserved: the counter of every principal is its number of open slots, at most the
    * limit; and whenever a slot is given back its state exists with a positive counter, so the clamp
    * at zero never acts and deleting idle states loses no slot.
    */
  lemma SlotsAreConserved(l: Limits, calls: seq<Call>, start: real, principal: string)
    requires ValidLimits(l) && Possible(l, calls, start)
    ensures var r := RunOf(l, calls, start);
            && StateOf(r.view, principal).active == r.naive.open[principal] <= l.maxConcurrent
            && (principal in r.naive.open ==> principal in r.view && r.view[principal].active >= 1)
  {
    RunsAgree(l, calls, start, principal);
  }

  predicate NoStateIsIdle(v: View) {
    forall p | p in v :: v[p].active != 0 || v[p].timestamps != []
  }

  /** The table holds no state that says nothing: after every call each one has a slot open or an attempt. */
  lemma {:induction false} IdleStatesAreDeleted(l: Limits, calls: seq<Call>, start: real)
    requires ValidLimits(l)
    ensures NoStateIsIdle(RunOf(l, calls, start).view)
  {
    hide Step;
    if calls != [] {
      IdleStatesAreDeleted(l, calls[..|calls| - 1], start);
      StepDeletesIdle(l, RunOf(l, calls[..|calls| - 1], start), calls[|calls| - 1]);
    }
  }

  lemma StepDeletesIdle(l: Limits, r: Run, c: Call)
    requires ValidLimits(l) && NoStateIsIdle(r.view)
    ensures NoStateIsIdle(Step(l, r, c).view)
  {
    hide ExitState, NaiveEnter;
    if c.Arrive? {
      EntersBusy(l, StateOf(r.view, c.principal), c.now);
    }
  }

  lemma EntersBusy(l: Limits, state: StateView, now: real)
    requires ValidLimits(l)
    ensures EnterState(l, state, now).0.timestamps != []
  {
    hide Pruned;
  }

  /** A caller who leaves is forgotten exactly when no slot of theirs is open and none of their attempts is in the
    * window any more.
    */
  lemma LeavingForgetsExactly(l: Limits, calls: seq<Call>, start: real, principal: string, now: real)
    requires ValidLimits(l) && Possible(l, calls + [Leave(principal, now)], start)
    ensures var r := RunOf(l, calls + [Leave(principal, now)], start);
            principal !in r.view
            <==> principal !in r.naive.open && CountAfter(TimesOf(r.naive.attempts, principal), now - l.windowSeconds) == 0
  {
    hide CountAfter, ExitState, Tracks, TimesOf, Enter;
    var all := calls + [Leave(principal, now)];
    assert all[..|all| - 1] == calls;
    var before := RunOf(l, calls, start);
    RunsAgree(l, calls, start, principal);
    ExitAgrees(l, before, principal, now);
    ExitIsIdle(l, StateOf(before.view, principal), TimesOf(before.naive.attempts, principal),
               before.naive.open[principal], before.clock, now);
  }

  lemma ExitIsIdle(l: Limits, state: StateView, history: seq<real>, open: nat, clock: real, now: real)
    requires ValidLimits(l) && Tracks(l, state, history, open, clock) && clock <= now && open > 0
    ensures ExitState(l, state, now) == IDLE <==> open == 1 && CountAfter(history, now - l.windowSeconds) == 0
  {
    hide CountAfter, Pruned, Remembers;
    PruningCountsHistory(state.timestamps, history, clock - l.windowSeconds, now - l.windowSeconds);
  }

  /** `retry_after` is exact: as long as the principal makes no other counted attempt, the rate check
    * passes a whole number of seconds later if and only if that number is at least `retry_after`.
    */
  lemma RetryAfterIsExact(l: Limits, calls: seq<Call>, start: real, principal: string, now: real, k: nat)
    requires ValidLimits(l) && Possible(l, calls, start) && RunOf(l, calls, start).clock <= now
    requires Enter(l, RunOf(l, calls, start).view, principal, now).1.RateLimited?
    ensures var r := RunOf(l, calls, start);
            var retryAfter := Enter(l, r.view, principal, now).1.retryAfter;
            CountAfter(TimesOf(r.naive.attempts, principal), now + k as real - l.windowSeconds) < l.rateLimitRequests
            <==> retryAfter <= k
  {
    var r := RunOf(l, calls, start);
    RunsAgree(l, calls, start, principal);
    RetryTracks(l, StateOf(r.view, principal), TimesOf(r.naive.attempts, principal), r.naive.open[principal],
                r.clock, now, k);
  }

  lemma RetryTracks(l: Limits, state: StateView, history: seq<real>, open: nat, clock: real, now: real, k: nat)
    requires ValidLimits(l) && Tracks(l, state, history, open, clock) && clock <= now
    requires EnterState(l, state, now).1.RateLimited?
    ensures CountAfter(history, now + k as real - l.windowSeconds) < l.rateLimitRequests
       <==> EnterState(l, state, now).1.retryAfter <= k
  {
    hide CountAfter, Pruned, Remembers;
    var threshold := now - l.windowSeconds;
    var kept := Pruned(state.timestamps, threshold);
    PruningCountsHistory(state.timestamps, history, clock - l.windowSeconds, threshold);
    PruningCountsHistory(kept, history, threshold, threshold + k as real);
    assert |kept| == l.rateLimitRequests;
    assert threshold + k as real == now + k as real - l.windowSeconds;
  }
}
