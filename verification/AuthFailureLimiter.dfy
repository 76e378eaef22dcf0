/** The throttle for rejected credentials of `api/limits.py`: a bounded table of failure deques.
  *
  * `min` picks among equally stale keys by dictionary order; the model allows any of them, so what is
  * proved holds for every tie-breaking.
  */
module AuthFailureLimiter {
  import opened Foundations
  import opened SlidingWindow

  datatype Policy = Policy(maxFailures: int, windowSeconds: real, maxTrackedKeys: int)

  /** What the constructor checks; `max_tracked_keys` is not checked. */
  predicate ValidPolicy(p: Policy) {
    1 <= p.maxFailures && 0.0 < p.windowSeconds
  }

  type Table = map<string, seq<real>>

  function Get(t: Table, key: string): seq<real> {
    if key in t then t[key] else []
  }

  /** `check`: the table it leaves and, when it raises, the seconds to wait. */
  function Check(p: Policy, t: Table, key: string, now: real): (Table, Option<int>)
    requires ValidPolicy(p)
  {
    var kept := Pruned(Get(t, key), now - p.windowSeconds);
    if key !in t then (t, None)
    else if kept == [] then (t - {key}, None)
    else
      (t[key := kept],
       if |kept| >= p.maxFailures then Some(Max(1, Ceil(p.windowSeconds - (now - kept[0])))) else None)
  }

  /** The loop of `_evict_stalest`: prune every deque and drop the empty ones. */
  function Surviving(t: Table, threshold: real): Table {
    map key | key in t && Pruned(t[key], threshold) != [] :: Pruned(t[key], threshold)
  }

  predicate AllNonempty(t: Table) {
    forall key | key in t :: t[key] != []
  }

  function Last(times: seq<real>): real
    requires times != []
  {
    times[|times| - 1]
  }

  predicate IsStalest(t: Table, victim: string)
    requires AllNonempty(t)
  {
    victim in t && forall key | key in t :: Last(t[victim]) <= Last(t[key])
  }

  predicate MustEvict(p: Policy, t: Table, key: string) {
    key !in t && |t| >= p.maxTrackedKeys
  }

  predicate StillFull(p: Policy, t: Table, now: real) {
    |Surviving(t, now - p.windowSeconds)| >= p.maxTrackedKeys
  }

  /** The keys `min` may choose: a stalest one when it runs on a nonempty table, and none otherwise. */
  predicate LegalVictim(p: Policy, t: Table, key: string, now: real, victim: Option<string>) {
    var survivors := Surviving(t, now - p.windowSeconds);
    if MustEvict(p, t, key) && StillFull(p, t, now) && survivors != map[]
    then victim.Some? && IsStalest(survivors, victim.value)
    else victim.None?
  }

  /** The table after eviction, if any; `None` when `min` raises on an empty table. */
  function Evicted(p: Policy, t: Table, key: string, now: real, victim: Option<string>): Option<Table>
    requires LegalVictim(p, t, key, now, victim)
  {
    var survivors := Surviving(t, now - p.windowSeconds);
    if !MustEvict(p, t, key) then Some(t)
    else if !StillFull(p, t, now) then Some(survivors)
    else if survivors == map[] then None
    else Some(survivors - {victim.value})
  }

  function Recorded(p: Policy, t: Table, key: string, now: real): Table {
    t[key := Pruned(Get(t, key), now - p.windowSeconds) + [now]]
  }

  class Limiter {
    const policy: Policy
    var failures: Table

    constructor (policy: Policy)
      requires ValidPolicy(policy)
      ensures this.policy == policy && failures == map[]
    {
      this.policy := policy;
      failures := map[];
    }

    method CheckKey(key: string, now: real) returns (raised: Option<int>)
      requires ValidPolicy(policy)
      modifies this
      ensures (failures, raised) == Check(policy, old(failures), key, now)
    {
      if key !in failures {
        return None;
      }
      var timestamps := Prune(failures[key], now - policy.windowSeconds);
      failures := failures[key := timestamps];
      if timestamps == [] {
        failures := failures - {key};
        assert failures == old(failures) - {key};
        return None;
      }
      if |timestamps| >= policy.maxFailures {
        return Some(Max(1, Ceil(policy.windowSeconds - (now - timestamps[0]))));
      }
      return None;
    }

    /** Returns false when `min` is applied to an empty table, which raises. */
    method RecordFailure(key: string, now: real) returns (recorded: bool, ghost victim: Option<string>)
      modifies this
      ensures LegalVictim(policy, old(failures), key, now, victim)
      ensures match Evicted(policy, old(failures), key, now, victim)
              case None => !recorded && failures == map[]
              case Some(t) => recorded && failures == Recorded(policy, t, key, now)
    {
      victim := None;
      recorded := true;
      if key !in failures && |failures| >= policy.maxTrackedKeys {
        recorded, victim := EvictStalest(now);
        if !recorded {
          return;
        }
      }
      var timestamps := Prune(if key in failures then failures[key] else [], now - policy.windowSeconds);
      failures := failures[key := timestamps + [now]];
    }

    method EvictStalest(now: real) returns (done: bool, ghost victim: Option<string>)
      modifies this
      ensures var survivors := Surviving(old(failures), now - policy.windowSeconds);
              if |survivors| < policy.maxTrackedKeys then done && victim == None && failures == survivors
              else if survivors == map[] then !done && victim == None && failures == map[]
              else done && victim.Some? && IsStalest(survivors, victim.value) && failures == survivors - {victim.value}
    {
      PruneAll(now - policy.windowSeconds);
      if |failures| < policy.maxTrackedKeys {
        return true, None;
      }
      if failures == map[] {
        return false, None;
      }
      var stalest := FindStalest();
      victim := Some(stalest);
      failures := failures - {stalest};
      done := true;
    }

    /** Prune every deque and delete the keys whose deque is left empty, in any order of the keys. */
    method PruneAll(threshold: real)
      modifies this
      ensures failures == Surviving(old(failures), threshold)
    {
      hide Pruned;
      var pending := failures.Keys;
      while pending != {}
        invariant pending <= failures.Keys <= old(failures).Keys
        invariant forall k | k in pending :: failures[k] == old(failures)[k]
        invariant forall k | k in old(failures) && k !in pending ::
                    if Pruned(old(failures)[k], threshold) == [] then k !in failures
                    else k in failures && failures[k] == Pruned(old(failures)[k], threshold)
      {
        var k :| k in pending;
        pending := pending - {k};
        var kept := Prune(failures[k], threshold);
        failures := if kept == [] then failures - {k} else failures[k := kept];
      }
    }

    /** `min` over the keys by their last failure. */
    method FindStalest() returns (stalest: string)
      requires failures != map[] && AllNonempty(failures)
      ensures IsStalest(failures, stalest)
    {
      stalest :| stalest in failures;
      var rest := failures.Keys - {stalest};
      while rest != {}
        invariant rest <= failures.Keys && stalest in failures
        invariant forall k | k in failures && k !in rest :: Last(failures[stalest]) <= Last(failures[k])
      {
        var k :| k in rest;
        rest := rest - {k};
        if Last(failures[k]) < Last(failures[stalest]) {
          stalest := k;
        }
      }
    }
  }

  // ---------------------------------------------------------------- runs

  datatype Call =
    | CheckCall(key: string, now: real)
    | FailureCall(key: string, now: real, victim: Option<string>)

  /** The table, next to all failures that were recorded, those since a key was last evicted, and the
    * keys that were ever evicted.
    */
  datatype Run = Run(table: Table, clock: real, all: Table, since: Table, evicted: set<string>)

  predicate Enabled(p: Policy, r: Run, c: Call) {
    && r.clock <= c.now
    && (c.FailureCall? ==> LegalVictim(p, r.table, c.key, c.now, c.victim))
  }

  function Step(p: Policy, r: Run, c: Call): Run
    requires ValidPolicy(p) && Enabled(p, r, c)
  {
    match c
    case CheckCall(key, now) => r.(table := Check(p, r.table, key, now).0, clock := now)
    case FailureCall(key, now, victim) =>
      match Evicted(p, r.table, key, now, victim)
      case None => r.(table := map[], clock := now)
      case Some(t) =>
        var gone := if victim.Some? then {victim.value} else {};
        Run(Recorded(p, t, key, now), now, r.all[key := Get(r.all, key) + [now]],
            (r.since - gone)[key := Get(r.since - gone, key) + [now]], r.evicted + gone)
  }

  predicate Possible(p: Policy, calls: seq<Call>, start: real)
    requires ValidPolicy(p)
    decreases |calls|, 0
  {
    calls == [] ||
    (Possible(p, calls[..|calls| - 1], start)
     && Enabled(p, RunOf(p, calls[..|calls| - 1], start), calls[|calls| - 1]))
  }

  function RunOf(p: Policy, calls: seq<Call>, start: real): Run
    requires ValidPolicy(p) && Possible(p, calls, start)
    decreases |calls|, 1
  {
    if calls == [] then Run(map[], start, map[], map[], {})
    else Step(p, RunOf(p, calls[..|calls| - 1], start), calls[|calls| - 1])
  }

  /** A deque remembers the failures since the key was last evicted; those are its latest failures,
    * and all of them if it never was.
    */
  predicate Tracks(p: Policy, deque: seq<real>, since: seq<real>, all: seq<real>, wasEvicted: bool, clock: real) {
    && Sorted(since)
    && (forall i | 0 <= i < |since| :: since[i] <= clock)
    && Remembers(deque, since, clock - p.windowSeconds)
    && |since| <= |all| && since == all[|all| - |since|..]
    && (!wasEvicted ==> since == all)
  }

  predicate KeyTracked(p: Policy, r: Run, key: string) {
    Tracks(p, Get(r.table, key), Get(r.since, key), Get(r.all, key), key in r.evicted, r.clock)
  }

  lemma PrunedTracks(p: Policy, deque: seq<real>, since: seq<real>, all: seq<real>, e: bool, clock: real, now: real)
    requires Tracks(p, deque, since, all, e, clock) && clock <= now
    ensures Tracks(p, deque, since, all, e, now)
    ensures Tracks(p, Pruned(deque, now - p.windowSeconds), since, all, e, now)
    ensures |Pruned(deque, now - p.windowSeconds)| == CountAfter(since, now - p.windowSeconds)
  {
    hide Remembers, Pruned, CountAfter;
    RemembersLater(deque, since, clock - p.windowSeconds, now - p.windowSeconds);
    PruningCountsHistory(deque, since, clock - p.windowSeconds, now - p.windowSeconds);
  }

  lemma AddedTracks(p: Policy, deque: seq<real>, since: seq<real>, all: seq<real>, e: bool, now: real)
    requires Tracks(p, deque, since, all, e, now)
    ensures Tracks(p, deque + [now], since + [now], all + [now], e, now)
  {
    hide Remembers;
    RemembersLonger(deque, since, now - p.windowSeconds, now);
  }

  lemma CheckTracks(p: Policy, r: Run, c: Call, key: string)
    requires ValidPolicy(p) && c.CheckCall? && Enabled(p, r, c) && KeyTracked(p, r, key)
    ensures KeyTracked(p, Step(p, r, c), key)
    ensures key == c.key ==>
              (Check(p, r.table, key, c.now).1.Some?
               <==> CountAfter(Get(r.since, key), c.now - p.windowSeconds) >= p.maxFailures)
  {
    hide Tracks, Pruned, CountAfter;
    PrunedTracks(p, Get(r.table, key), Get(r.since, key), Get(r.all, key), key in r.evicted, r.clock, c.now);
  }

  /** What eviction does to the deque of one key: nothing, pruning, or forgetting everything. */
  lemma EvictedDeque(p: Policy, t: Table, c: Call, key: string)
    requires c.FailureCall? && LegalVictim(p, t, c.key, c.now, c.victim)
    requires Evicted(p, t, c.key, c.now, c.victim).Some?
    ensures var deque := Get(Evicted(p, t, c.key, c.now, c.victim).value, key);
            || (c.victim == Some(key) && key != c.key && deque == [])
            || (c.victim != Some(key)
                && deque in {Get(t, key), Pruned(Get(t, key), c.now - p.windowSeconds)})
  {
  }

  /** The same step on the three histories of one key. */
  lemma FailureStep(p: Policy, r: Run, c: Call, key: string)
    requires ValidPolicy(p) && c.FailureCall? && Enabled(p, r, c)
    requires Evicted(p, r.table, c.key, c.now, c.victim).Some?
    ensures var r' := Step(p, r, c);
            var deque := Get(Evicted(p, r.table, c.key, c.now, c.victim).value, key);
            var since := if c.victim == Some(key) then [] else Get(r.since, key);
            && r'.clock == c.now
            && (key in r'.evicted <==> key in r.evicted || c.victim == Some(key))
            && if key == c.key
               then && Get(r'.table, key) == Pruned(deque, c.now - p.windowSeconds) + [c.now]
                    && Get(r'.since, key) == since + [c.now] && Get(r'.all, key) == Get(r.all, key) + [c.now]
               else && Get(r'.table, key) == deque
                    && Get(r'.since, key) == since && Get(r'.all, key) == Get(r.all, key)
  {
    hide Pruned, LegalVictim, Evicted;
  }

  lemma FailureTracks(p: Policy, r: Run, c: Call, key: string)
    requires ValidPolicy(p) && c.FailureCall? && Enabled(p, r, c) && KeyTracked(p, r, key)
    requires Evicted(p, r.table, c.key, c.now, c.victim).Some?
    ensures KeyTracked(p, Step(p, r, c), key)
  {
    hide Tracks, Pruned, LegalVictim, Evicted, Step;
    var since, all, e := Get(r.since, key), Get(r.all, key), key in r.evicted;
    var deque := Get(Evicted(p, r.table, c.key, c.now, c.victim).value, key);
    PrunedTracks(p, Get(r.table, key), since, all, e, r.clock, c.now);
    EvictedDeque(p, r.table, c, key);
    FailureStep(p, r, c, key);
    if c.victim == Some(key) {
      NothingTracks(p, all, c.now);
    } else {
      assert Tracks(p, deque, since, all, e, c.now);
      PrunedTracks(p, deque, since, all, e, c.now, c.now);
      AddedTracks(p, Pruned(deque, c.now - p.windowSeconds), since, all, e, c.now);
    }
  }

  /** An evicted key starts over: its later failures are counted, its earlier ones are not. */
  lemma NothingTracks(p: Policy, all: seq<real>, now: real)
    ensures Tracks(p, [], [], all, true, now)
  {
  }

  lemma RaisingTracks(p: Policy, r: Run, c: Call, key: string)
    requires ValidPolicy(p) && c.FailureCall? && Enabled(p, r, c) && KeyTracked(p, r, key)
    requires Evicted(p, r.table, c.key, c.now, c.victim).None?
    ensures KeyTracked(p, Step(p, r, c), key)
  {
    hide Tracks;
    PrunedTracks(p, Get(r.table, key), Get(r.since, key), Get(r.all, key), key in r.evicted, r.clock, c.now);
    assert key in r.table ==>
      (Pruned(r.table[key], c.now - p.windowSeconds) == [] <==> key !in Surviving(r.table, c.now - p.windowSeconds));
  }

  lemma {:induction false} RunsTrack(p: Policy, calls: seq<Call>, start: real, key: string)
    requires ValidPolicy(p) && Possible(p, calls, start)
    ensures KeyTracked(p, RunOf(p, calls, start), key)
    decreases |calls|
  {
    hide KeyTracked, Step, Enabled;
    if calls == [] {
      NothingIsTracked(p, start, key);
    } else {
      var init, last := calls[..|calls| - 1], calls[|calls| - 1];
      RunsTrack(p, init, start, key);
      StepTracks(p, RunOf(p, init, start), last, key);
    }
  }

  lemma NothingIsTracked(p: Policy, start: real, key: string)
    ensures KeyTracked(p, Run(map[], start, map[], map[], {}), key)
  {
  }

  lemma StepTracks(p: Policy, r: Run, c: Call, key: string)
    requires ValidPolicy(p) && Enabled(p, r, c) && KeyTracked(p, r, key)
    ensures KeyTracked(p, Step(p, r, c), key)
  {
    hide KeyTracked, Evicted, Check, Step, LegalVictim, Recorded;
    if c.CheckCall? {
      CheckTracks(p, r, c, key);
    } else if Evicted(p, r.table, c.key, c.now, c.victim).Some? {
      FailureTracks(p, r, c, key);
    } else {
      RaisingTracks(p, r, c, key);
    }
  }

  /** `check` refuses exactly when the failures since the key was last evicted reach the limit inside
    * the window; for a key never evicted, those are all its failures.
    */
  lemma CheckCountsFailures(p: Policy, calls: seq<Call>, start: real, key: string, now: real)
    requires ValidPolicy(p) && Possible(p, calls, start) && RunOf(p, calls, start).clock <= now
    ensures var r := RunOf(p, calls, start);
            var refused := Check(p, r.table, key, now).1.Some?;
            && (refused <==> CountAfter(Get(r.since, key), now - p.windowSeconds) >= p.maxFailures)
            && (key !in r.evicted ==>
                  (refused <==> CountAfter(Get(r.all, key), now - p.windowSeconds) >= p.maxFailures))
            && (refused ==> CountAfter(Get(r.all, key), now - p.windowSeconds) >= p.maxFailures)
  {
    hide Tracks, CountAfter, RunOf, Possible, Check;
    var r := RunOf(p, calls, start);
    RunsTrack(p, calls, start, key);
    CheckTracks(p, r, CheckCall(key, now), key);
    SinceIsLatest(
      p, Get(r.table, key), Get(r.since, key), Get(r.all, key), key in r.evicted, r.clock, now - p.windowSeconds);
  }

  lemma SinceIsLatest(
    p: Policy, deque: seq<real>, since: seq<real>, all: seq<real>, e: bool, clock: real, lo: real)
    requires Tracks(p, deque, since, all, e, clock)
    ensures CountAfter(since, lo) <= CountAfter(all, lo)
    ensures !e ==> since == all
  {
    hide CountAfter, Remembers;
    assert all == all[..|all| - |since|] + since;
    CountAfterSplits(all[..|all| - |since|], since, lo);
  }

  /** A check keeps its key exactly while a failure since the last eviction is in the window. */
  lemma CheckForgetsExactly(p: Policy, calls: seq<Call>, start: real, key: string, now: real)
    requires ValidPolicy(p) && Possible(p, calls, start) && RunOf(p, calls, start).clock <= now
    ensures var r := RunOf(p, calls, start);
            key in Check(p, r.table, key, now).0 <==> CountAfter(Get(r.since, key), now - p.windowSeconds) > 0
  {
    hide Tracks, CountAfter, RunOf, Possible, Pruned;
    var r := RunOf(p, calls, start);
    RunsTrack(p, calls, start, key);
    PrunedTracks(p, Get(r.table, key), Get(r.since, key), Get(r.all, key), key in r.evicted, r.clock, now);
  }

  /** The keys with a failure in the window, of those the table holds. */
  function LiveKeys(r: Run, lo: real): set<string> {
    set k | k in r.table && CountAfter(Get(r.since, k), lo) > 0
  }

  /** Recording a failure forgets another key only to make room: only when its own key is new and the table is
    * full, and then every key without a failure in the window, and one with such a failure only when those alone
    * fill the table.
    */
  lemma ForgetsOnlyForRoom(p: Policy, calls: seq<Call>, start: real, c: Call, key: string)
    requires ValidPolicy(p) && 0 < p.maxTrackedKeys && Possible(p, calls, start)
    requires c.FailureCall? && Enabled(p, RunOf(p, calls, start), c)
    requires key in RunOf(p, calls, start).table && key != c.key
    ensures var r := RunOf(p, calls, start);
            var live := LiveKeys(r, c.now - p.windowSeconds);
            var full := c.key !in r.table && |r.table| >= p.maxTrackedKeys;
            && (key !in Step(p, r, c).table <==> full && (key !in live || c.victim == Some(key)))
            && (c.victim.Some? <==> full && |live| >= p.maxTrackedKeys)
            && (c.victim.Some? ==> c.victim.value in live)
  {
    hide RunOf, Possible, Surviving, LiveKeys, Pruned;
    SurvivorsAreLive(p, calls, start, c.now);
    EvictionForgets(p, RunOf(p, calls, start), c, key);
  }

  lemma SurvivorsAreLive(p: Policy, calls: seq<Call>, start: real, now: real)
    requires ValidPolicy(p) && Possible(p, calls, start) && RunOf(p, calls, start).clock <= now
    ensures var r := RunOf(p, calls, start);
            Surviving(r.table, now - p.windowSeconds).Keys == LiveKeys(r, now - p.windowSeconds)
  {
    hide Tracks, CountAfter, RunOf, Possible, Pruned;
    var r := RunOf(p, calls, start);
    forall k | k in r.table ensures k in Surviving(r.table, now - p.windowSeconds) <==> k in LiveKeys(r, now - p.windowSeconds) {
      RunsTrack(p, calls, start, k);
      PrunedTracks(p, Get(r.table, k), Get(r.since, k), Get(r.all, k), k in r.evicted, r.clock, now);
    }
  }

  lemma EvictionForgets(p: Policy, r: Run, c: Call, key: string)
    requires ValidPolicy(p) && 0 < p.maxTrackedKeys && c.FailureCall? && Enabled(p, r, c)
    requires key in r.table && key != c.key
    ensures var survivors := Surviving(r.table, c.now - p.windowSeconds);
            var full := c.key !in r.table && |r.table| >= p.maxTrackedKeys;
            && (key !in Step(p, r, c).table <==> full && (key !in survivors || c.victim == Some(key)))
            && (c.victim.Some? <==> full && |survivors.Keys| >= p.maxTrackedKeys)
            && (c.victim.Some? ==> c.victim.value in survivors)
  {
    hide Surviving, Pruned, Last;
    var survivors := Surviving(r.table, c.now - p.windowSeconds);
    assert |survivors| == |survivors.Keys|;
  }

  // ---------------------------------------------------------------- the size of the table

  /** No empty deque is stored between calls, and the table respects its bound. */
  predicate Bounded(p: Policy, t: Table) {
    AllNonempty(t) && |t| <= Max(0, p.maxTrackedKeys)
  }

  lemma SurvivorsAreFewer(t: Table, threshold: real)
    ensures |Surviving(t, threshold)| <= |t| && AllNonempty(Surviving(t, threshold))
  {
    Subset(Surviving(t, threshold).Keys, t.Keys);
  }

  lemma {:induction false} Subset<T>(a: set<T>, b: set<T>)
    requires a <= b
    ensures |a| <= |b|
  {
    if a != {} {
      var x :| x in a;
      Subset(a - {x}, b - {x});
    }
  }

  lemma CheckKeepsBound(p: Policy, t: Table, key: string, now: real)
    requires ValidPolicy(p) && Bounded(p, t)
    ensures Bounded(p, Check(p, t, key, now).0)
  {
    hide Pruned;
  }

  /** Before a key is added there is room for it; `min` meets an empty table only without any room at all. */
  lemma EvictionMakesRoom(p: Policy, t: Table, key: string, now: real, victim: Option<string>)
    requires Bounded(p, t) && LegalVictim(p, t, key, now, victim)
    ensures var left := Evicted(p, t, key, now, victim);
            && (left.None? <==> p.maxTrackedKeys <= 0)
            && (left.Some? ==> Bounded(p, left.value) && (key in left.value || |left.value| < p.maxTrackedKeys))
  {
    hide Surviving;
    var survivors := Surviving(t, now - p.windowSeconds);
    SurvivorsAreFewer(t, now - p.windowSeconds);
    if victim.Some? {
      var left := survivors - {victim.value};
      assert left.Keys == survivors.Keys - {victim.value};
      assert |left| == |left.Keys| && |survivors| == |survivors.Keys|;
      assert left == Evicted(p, t, key, now, victim).value;
    }
  }

  lemma StepKeepsBound(p: Policy, r: Run, c: Call)
    requires ValidPolicy(p) && Enabled(p, r, c) && Bounded(p, r.table)
    ensures Bounded(p, Step(p, r, c).table)
  {
    hide Pruned, LegalVictim, Evicted, Check;
    if c.CheckCall? {
      CheckKeepsBound(p, r.table, c.key, c.now);
    } else {
      EvictionMakesRoom(p, r.table, c.key, c.now, c.victim);
    }
  }

  /** The table never outgrows its bound, whatever addresses fail. */
  lemma {:induction false} TableIsBounded(p: Policy, calls: seq<Call>, start: real)
    requires ValidPolicy(p) && Possible(p, calls, start)
    ensures Bounded(p, RunOf(p, calls, start).table)
    decreases |calls|
  {
    if calls != [] {
      TableIsBounded(p, calls[..|calls| - 1], start);
      StepKeepsBound(p, RunOf(p, calls[..|calls| - 1], start), calls[|calls| - 1]);
    }
  }

  /** Recording raises exactly when the configured bound is not positive, which the constructor does not
    * rule out: then `min` is applied to an empty table.
    */
  lemma RecordingRaisesExactly(
    p: Policy, calls: seq<Call>, start: real, key: string, now: real, victim: Option<string>)
    requires ValidPolicy(p) && Possible(p, calls, start)
    ensures var t := RunOf(p, calls, start).table;
            LegalVictim(p, t, key, now, victim) ==>
              (Evicted(p, t, key, now, victim).None? <==> p.maxTrackedKeys <= 0)
  {
    hide RunOf, Possible;
    var t := RunOf(p, calls, start).table;
    TableIsBounded(p, calls, start);
    if LegalVictim(p, t, key, now, victim) {
      EvictionMakesRoom(p, t, key, now, victim);
    }
  }

  /** Eviction prefers the key that has been quiet longest: measured on all recorded failures, the last
    * failure of the victim is no later than that of any key that stays.
    */
  lemma VictimIsLongestQuiet(
    p: Policy, calls: seq<Call>, start: real, key: string, now: real, victim: string, kept: string)
    requires ValidPolicy(p) && Possible(p, calls, start) && RunOf(p, calls, start).clock <= now
    requires LegalVictim(p, RunOf(p, calls, start).table, key, now, Some(victim))
    requires kept in Evicted(p, RunOf(p, calls, start).table, key, now, Some(victim)).value
    ensures var all := RunOf(p, calls, start).all;
            && Get(all, victim) != [] && Get(all, kept) != []
            && Last(Get(all, victim)) <= Last(Get(all, kept))
  {
    hide RunOf, Possible, KeyTracked, Pruned;
    var r := RunOf(p, calls, start);
    RunsTrack(p, calls, start, victim);
    RunsTrack(p, calls, start, kept);
    LastIsRemembered(p, r, victim, now);
    LastIsRemembered(p, r, kept, now);
  }

  lemma LastIsRemembered(p: Policy, r: Run, key: string, now: real)
    requires KeyTracked(p, r, key) && r.clock <= now
    requires key in Surviving(r.table, now - p.windowSeconds)
    ensures Get(r.all, key) != [] && Last(Get(r.all, key)) == Last(Surviving(r.table, now - p.windowSeconds)[key])
  {
    hide Pruned, Sorted, Remembers;
    var since, all := Get(r.since, key), Get(r.all, key);
    var kept := Surviving(r.table, now - p.windowSeconds)[key];
    PruningForgetsPrefix(r.table[key], since, r.clock - p.windowSeconds, now - p.windowSeconds);
    MemoryHasLast(kept, since, now - p.windowSeconds);
    SuffixHasLast(since, all);
  }

  lemma MemoryHasLast(kept: seq<real>, history: seq<real>, horizon: real)
    requires Remembers(kept, history, horizon) && kept != []
    ensures history != [] && Last(kept) == Last(history)
  {
    SuffixHasLast(kept, history);
  }

  lemma SuffixHasLast(kept: seq<real>, history: seq<real>)
    requires kept != [] && |kept| <= |history| && kept == history[|history| - |kept|..]
    ensures Last(kept) == Last(history)
  {
  }

  // ---------------------------------------------------------------- retry_after

  /** The failure that has to leave the window before the key is admitted again: with it gone, one fewer than
    * the limit remain.
    */
  function Pivot(p: Policy, kept: seq<real>): real
    requires ValidPolicy(p) && |kept| >= p.maxFailures
  {
    kept[|kept| - p.maxFailures]
  }

  /** The table a refused check leaves. */
  function Refused(p: Policy, t: Table, key: string, now: real): Table
    requires ValidPolicy(p)
  {
    Check(p, t, key, now).0
  }

  /** The least whole number of seconds after which a time has left the window. */
  function SecondsLeft(p: Policy, now: real, time: real): int {
    Max(1, Ceil(p.windowSeconds - (now - time)))
  }

  /** `record_failure` does not stop at the limit, so a deque may hold more failures than the limit, and
    * `retry_after` is computed from the first. Waiting, with no further failure, is enough exactly when it
    * lasts until the pivot leaves the window. So no wait shorter than `retry_after` is enough, and
    * `retry_after` itself is enough exactly when the pivot leaves as early, in whole seconds, as the first
    * failure does: always when the deque holds just the limit.
    */
  lemma WaitSufficesExactly(p: Policy, calls: seq<Call>, start: real, key: string, now: real, k: nat)
    requires ValidPolicy(p) && Possible(p, calls, start) && RunOf(p, calls, start).clock <= now
    requires Check(p, RunOf(p, calls, start).table, key, now).1.Some?
    ensures var t := RunOf(p, calls, start).table;
            var retryAfter := Check(p, t, key, now).1.value;
            var kept := Pruned(Get(t, key), now - p.windowSeconds);
            && |kept| >= p.maxFailures
            && var enough := Check(p, Refused(p, t, key, now), key, now + k as real).1.None?;
               var pivot := Pivot(p, kept);
               && (enough <==> pivot <= now + k as real - p.windowSeconds)
               && (enough <==> CountAfter(Get(RunOf(p, calls, start).since, key), now + k as real - p.windowSeconds)
                               < p.maxFailures)
               && (enough <==> k >= SecondsLeft(p, now, pivot))
               && retryAfter == SecondsLeft(p, now, kept[0]) <= SecondsLeft(p, now, pivot)
               && (k == retryAfter ==> (enough <==> SecondsLeft(p, now, pivot) == SecondsLeft(p, now, kept[0])))
               && (|kept| == p.maxFailures ==> pivot == kept[0])
  {
    hide RunOf, Possible, Check, Pruned, Remembers, Sorted, Step, CountAfter, SecondsLeft, Pivot;
    var r := RunOf(p, calls, start);
    var threshold := now - p.windowSeconds;
    var kept := Pruned(Get(r.table, key), threshold);
    RunsTrack(p, calls, start, key);
    PrunedTracks(p, Get(r.table, key), Get(r.since, key), Get(r.all, key), key in r.evicted, r.clock, now);
    RefusalKeeps(p, r.table, key, now);
    WaitOfDeque(p, r.table, kept, Get(r.since, key), key, now, k);
  }

  lemma WaitOfDeque(p: Policy, t: Table, kept: seq<real>, since: seq<real>, key: string, now: real, k: nat)
    requires ValidPolicy(p) && |kept| >= p.maxFailures && kept[0] > now - p.windowSeconds
    requires Sorted(since) && Remembers(kept, since, now - p.windowSeconds)
    ensures var enough := Check(p, t[key := kept], key, now + k as real).1.None?;
            var pivot := Pivot(p, kept);
            && (enough <==> pivot <= now + k as real - p.windowSeconds)
            && (enough <==> CountAfter(since, now + k as real - p.windowSeconds) < p.maxFailures)
            && (enough <==> k >= SecondsLeft(p, now, pivot))
            && SecondsLeft(p, now, kept[0]) <= SecondsLeft(p, now, pivot)
            && (|kept| == p.maxFailures ==> pivot == kept[0])
  {
    hide Remembers, CountAfter, SecondsLeft;
    var threshold := now - p.windowSeconds;
    var later := now + k as real - p.windowSeconds;
    KeptIsSorted(kept, since, threshold);
    WaitPrunesToPivot(p, kept, later);
    PruningCountsHistory(kept, since, threshold, later);
    PivotIsInside(p, kept, threshold);
    WholeSeconds(p, now, Pivot(p, kept), k);
    LaterLeavesLater(p, now, kept[0], Pivot(p, kept));
    CheckAgain(p, t, kept, key, now + k as real);
  }

  lemma CheckAgain(p: Policy, t: Table, kept: seq<real>, key: string, at: real)
    requires ValidPolicy(p)
    ensures Check(p, t[key := kept], key, at).1.None? <==> |Pruned(kept, at - p.windowSeconds)| < p.maxFailures
  {
    hide Pruned;
  }

  lemma KeptIsSorted(kept: seq<real>, since: seq<real>, horizon: real)
    requires Sorted(since) && Remembers(kept, since, horizon)
    ensures Sorted(kept)
  {
    var n := |since| - |kept|;
    assert forall i | 0 <= i < |kept| :: kept[i] == since[n + i];
  }

  /** Pruning a sorted deque leaves fewer than the limit exactly when the pivot goes. */
  lemma WaitPrunesToPivot(p: Policy, kept: seq<real>, threshold: real)
    requires ValidPolicy(p) && Sorted(kept) && |kept| >= p.maxFailures
    ensures |Pruned(kept, threshold)| < p.maxFailures <==> Pivot(p, kept) <= threshold
  {
    PrunesBefore(kept, threshold, |kept| - p.maxFailures);
  }

  lemma {:induction false} PrunesBefore(kept: seq<real>, threshold: real, i: nat)
    requires Sorted(kept) && i < |kept|
    ensures kept[i] <= threshold <==> |Pruned(kept, threshold)| < |kept| - i
  {
    if kept[0] <= threshold {
      if i > 0 {
        PrunesBefore(kept[1..], threshold, i - 1);
      }
    }
  }

  lemma PivotIsInside(p: Policy, kept: seq<real>, threshold: real)
    requires ValidPolicy(p) && Sorted(kept) && |kept| >= p.maxFailures && kept[0] > threshold
    ensures kept[0] <= Pivot(p, kept) && Pivot(p, kept) > threshold
  {
  }

  /** A time inside the window is out of it after `k` seconds exactly when `k` is at least the seconds left. */
  lemma WholeSeconds(p: Policy, now: real, time: real, k: nat)
    requires time > now - p.windowSeconds
    ensures time <= now + k as real - p.windowSeconds <==> k >= SecondsLeft(p, now, time)
  {
    var left := p.windowSeconds - (now - time);
    var seconds := Ceil(left);
    assert (seconds - 1) as real < left <= seconds as real;
  }

  lemma LaterLeavesLater(p: Policy, now: real, earlier: real, later: real)
    requires earlier <= later
    ensures SecondsLeft(p, now, earlier) <= SecondsLeft(p, now, later)
  {
    var a, b := Ceil(p.windowSeconds - (now - earlier)), Ceil(p.windowSeconds - (now - later));
    assert (a - 1) as real < b as real;
  }

  /** Before `retry_after` seconds have passed, no failure the refusal counted has left the window; from then on
    * at least one has.
    */
  lemma RetryAfterIsLowerBound(p: Policy, calls: seq<Call>, start: real, key: string, now: real, k: nat)
    requires ValidPolicy(p) && Possible(p, calls, start) && RunOf(p, calls, start).clock <= now
    requires Check(p, RunOf(p, calls, start).table, key, now).1.Some?
    ensures var r := RunOf(p, calls, start);
            var retryAfter := Check(p, r.table, key, now).1.value;
            var kept := Pruned(Get(r.table, key), now - p.windowSeconds);
            var later := CountAfter(Get(r.since, key), now + k as real - p.windowSeconds);
            && (k < retryAfter ==> later == |kept| >= p.maxFailures)
            && (k >= retryAfter && |kept| == p.maxFailures ==> later < p.maxFailures)
  {
    hide RunOf, Possible, Check, Pruned, Remembers, Sorted, Step, CountAfter;
    var r := RunOf(p, calls, start);
    RunsTrack(p, calls, start, key);
    RefusalKeeps(p, r.table, key, now);
    RetryOfDeque(p, Get(r.table, key), Get(r.since, key), r.clock, now, k);
  }

  /** What a refusal says: the pruned deque reaches the limit, is stored, and its first time gives the wait. */
  lemma RefusalKeeps(p: Policy, t: Table, key: string, now: real)
    requires ValidPolicy(p) && Check(p, t, key, now).1.Some?
    ensures var kept := Pruned(Get(t, key), now - p.windowSeconds);
            && |kept| >= p.maxFailures && key in t && kept[0] > now - p.windowSeconds
            && Refused(p, t, key, now) == t[key := kept]
            && Check(p, t, key, now).1.value == SecondsLeft(p, now, kept[0])
  {
  }

  lemma RetryOfDeque(p: Policy, deque: seq<real>, since: seq<real>, clock: real, now: real, k: nat)
    requires ValidPolicy(p) && clock <= now
    requires Sorted(since) && Remembers(deque, since, clock - p.windowSeconds)
    requires |Pruned(deque, now - p.windowSeconds)| >= p.maxFailures
    ensures var kept := Pruned(deque, now - p.windowSeconds);
            var retryAfter := Max(1, Ceil(p.windowSeconds - (now - kept[0])));
            var later := CountAfter(since, now + k as real - p.windowSeconds);
            && (k < retryAfter ==> later == |kept|)
            && (k >= retryAfter ==> later < |kept|)
  {
    hide CountAfter, Pruned, Remembers, Sorted;
    var threshold := now - p.windowSeconds;
    PruningCountsHistory(deque, since, clock - p.windowSeconds, threshold);
    PruningCountsHistory(Pruned(deque, threshold), since, threshold, threshold + k as real);
    assert threshold + k as real == now + k as real - p.windowSeconds;
  }

  /** A reachable table in which waiting for `retry_after` is not enough: one failure is allowed, two
    * were recorded by requests that had both been checked before, and the second is still in the window.
    */
  lemma RetryAfterMayBeTooShort(key: string)
    ensures var p := Policy(1, 10.0, 1);
            var calls := [CheckCall(key, 0.0), CheckCall(key, 0.0), FailureCall(key, 0.0, None), FailureCall(key, 5.0, None)];
            && Possible(p, calls, 0.0)
            && Check(p, RunOf(p, calls, 0.0).table, key, 6.0).1 == Some(4)
            && Check(p, RunOf(p, calls, 0.0).table, key, 10.0).1.Some?
  {
    var p := Policy(1, 10.0, 1);
    var check := CheckCall(key, 0.0);
    var calls := [check, check, FailureCall(key, 0.0, None)];
    FirstFailure(p, key);
    hide Possible, RunOf, Surviving, IsStalest, Check, Recorded, Pruned;
    Extend(p, calls, FailureCall(key, 5.0, None));
    assert calls + [FailureCall(key, 5.0, None)]
        == [check, check, FailureCall(key, 0.0, None), FailureCall(key, 5.0, None)];
    SecondFailureIsAdded(p, key);
    TwoFailuresOutlastRetry(p, key);
  }

  lemma SecondFailureIsAdded(p: Policy, key: string)
    requires p == Policy(1, 10.0, 1)
    ensures Recorded(p, map[key := [0.0]], key, 5.0) == map[key := [0.0, 5.0]]
  {
    assert Pruned([0.0], -5.0) + [5.0] == [0.0, 5.0];
  }

  lemma FirstFailure(p: Policy, key: string)
    requires p == Policy(1, 10.0, 1)
    ensures var calls := [CheckCall(key, 0.0), CheckCall(key, 0.0), FailureCall(key, 0.0, None)];
            && Possible(p, calls, 0.0)
            && RunOf(p, calls, 0.0).table == map[key := [0.0]] && RunOf(p, calls, 0.0).clock == 0.0
  {
    var check, failure := CheckCall(key, 0.0), FailureCall(key, 0.0, None);
    var r0 := Run(map[], 0.0, map[], map[], {});
    assert Possible(p, [], 0.0) && RunOf(p, [], 0.0) == r0;
    hide Possible, RunOf, Surviving, IsStalest;
    Extend(p, [], check);
    assert Step(p, r0, check) == r0;
    Extend(p, [check], check);
    assert [check] + [check] == [check, check];
    Extend(p, [check, check], failure);
    assert [check, check] + [failure] == [check, check, failure];
    assert Pruned([], -10.0) + [0.0] == [0.0];
  }

  lemma TwoFailuresOutlastRetry(p: Policy, key: string)
    requires p == Policy(1, 10.0, 1)
    ensures Check(p, map[key := [0.0, 5.0]], key, 6.0).1 == Some(4)
    ensures Check(p, map[key := [0.0, 5.0]], key, 10.0).1.Some?
  {
    assert Pruned([0.0, 5.0], -4.0) == [0.0, 5.0];
    assert [0.0, 5.0][1..] == [5.0];
    assert Pruned([0.0, 5.0], 0.0) == [5.0];
  }

  lemma Extend(p: Policy, calls: seq<Call>, c: Call)
    requires ValidPolicy(p) && Possible(p, calls, 0.0) && Enabled(p, RunOf(p, calls, 0.0), c)
    ensures Possible(p, calls + [c], 0.0)
    ensures RunOf(p, calls + [c], 0.0) == Step(p, RunOf(p, calls, 0.0), c)
    ensures [] + [c] == [c]
  {
    assert (calls + [c])[..|calls|] == calls;
  }
}
