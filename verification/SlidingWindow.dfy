/** Timestamps in a sliding window: what pruning from the left keeps, and counting a full history. */
module SlidingWindow {

  /** `math.ceil` */
  function Ceil(x: real): (k: int)
    ensures (k - 1) as real < x <= k as real
  {
    -((-x).Floor)
  }

  predicate Sorted(times: seq<real>) {
    forall i, j | 0 <= i < j < |times| :: times[i] <= times[j]
  }

  /** What the pruning loops leave: the timestamps from the first one after the threshold on. */
  function Pruned(times: seq<real>, threshold: real): (kept: seq<real>)
    ensures |kept| <= |times|
    ensures kept != [] ==> kept[0] > threshold
    ensures |kept| == |times| <==> times == [] || times[0] > threshold
  {
    if times == [] || times[0] > threshold then times else Pruned(times[1..], threshold)
  }

  /** The loop of both `_prune` methods. */
  method Prune(times: seq<real>, threshold: real) returns (kept: seq<real>)
    ensures kept == Pruned(times, threshold)
  {
    kept := times;
    while kept != [] && kept[0] <= threshold
      invariant Pruned(kept, threshold) == Pruned(times, threshold)
      decreases |kept|
    {
      kept := kept[1..];
    }
  }

  /** Number of timestamps of a history after `lo`. */
  function CountAfter(times: seq<real>, lo: real): (n: nat)
    ensures n <= |times|
  {
    if times == [] then 0 else (if times[0] > lo then 1 else 0) + CountAfter(times[1..], lo)
  }

  /** Number of timestamps of a history in (lo, hi]. */
  function CountBetween(times: seq<real>, lo: real, hi: real): (n: nat)
    ensures n <= CountAfter(times, lo)
  {
    if times == [] then 0 else (if lo < times[0] <= hi then 1 else 0) + CountBetween(times[1..], lo, hi)
  }

  lemma {:induction false} CountAfterSplits(a: seq<real>, b: seq<real>, lo: real)
    ensures CountAfter(a + b, lo) == CountAfter(a, lo) + CountAfter(b, lo)
  {
    if a == [] {
      assert a + b == b;
    } else {
      assert (a + b)[1..] == a[1..] + b;
      CountAfterSplits(a[1..], b, lo);
    }
  }

  lemma {:induction false} CountBetweenLonger(times: seq<real>, at: real, lo: real, hi: real)
    ensures CountBetween(times + [at], lo, hi) == CountBetween(times, lo, hi) + if lo < at <= hi then 1 else 0
  {
    if times != [] {
      assert (times + [at])[1..] == times[1..] + [at];
      CountBetweenLonger(times[1..], at, lo, hi);
    }
  }

  lemma {:induction false} LaterStartCountsLess(times: seq<real>, lo: real, lo': real)
    requires lo <= lo'
    ensures CountAfter(times, lo') <= CountAfter(times, lo)
  {
    if times != [] {
      LaterStartCountsLess(times[1..], lo, lo');
    }
  }

  lemma {:induction false} AllBefore(times: seq<real>, lo: real)
    requires forall i | 0 <= i < |times| :: times[i] <= lo
    ensures CountAfter(times, lo) == 0
  {
    if times != [] {
      AllBefore(times[1..], lo);
    }
  }

  lemma {:induction false} AllAfter(times: seq<real>, lo: real)
    requires forall i | 0 <= i < |times| :: times[i] > lo
    ensures CountAfter(times, lo) == |times|
  {
    if times != [] {
      AllAfter(times[1..], lo);
    }
  }

  /** `kept` is what is left of `history` after forgetting a prefix that is `horizon` old or older. */
  predicate Remembers(kept: seq<real>, history: seq<real>, horizon: real) {
    && |kept| <= |history|
    && kept == history[|history| - |kept|..]
    && forall i | 0 <= i < |history| - |kept| :: history[i] <= horizon
  }

  lemma {:induction false} PruningForgetsPrefix(kept: seq<real>, history: seq<real>, horizon: real, threshold: real)
    requires Remembers(kept, history, horizon) && horizon <= threshold
    ensures Remembers(Pruned(kept, threshold), history, threshold)
    decreases |kept|
  {
    if kept != [] && kept[0] <= threshold {
      assert kept[1..] == history[|history| - |kept| + 1..];
      assert history[|history| - |kept|] == kept[0];
      PruningForgetsPrefix(kept[1..], history, threshold, threshold);
    }
  }

  /** A memory whose oldest timestamp is in the window holds exactly the history in the window. */
  lemma MemoryCountsHistory(kept: seq<real>, history: seq<real>, horizon: real)
    requires Sorted(history) && Remembers(kept, history, horizon)
    requires kept != [] ==> kept[0] > horizon
    ensures |kept| == CountAfter(history, horizon)
  {
    var n := |history| - |kept|;
    assert history == history[..n] + kept;
    CountAfterSplits(history[..n], kept, horizon);
    AllBefore(history[..n], horizon);
    forall i | 0 <= i < |kept|
      ensures kept[i] > horizon
    {
      assert kept[i] == history[n + i] && kept[0] == history[n];
    }
    AllAfter(kept, horizon);
  }

  /** Pruning loses nothing: the pruned deque holds exactly the timestamps of the whole history that
    * are still in the window.
    */
  lemma PruningCountsHistory(kept: seq<real>, history: seq<real>, horizon: real, threshold: real)
    requires Sorted(history) && Remembers(kept, history, horizon) && horizon <= threshold
    ensures Remembers(Pruned(kept, threshold), history, threshold)
    ensures |Pruned(kept, threshold)| == CountAfter(history, threshold)
  {
    PruningForgetsPrefix(kept, history, horizon, threshold);
    MemoryCountsHistory(Pruned(kept, threshold), history, threshold);
  }

  lemma RemembersLater(kept: seq<real>, history: seq<real>, horizon: real, later: real)
    requires Remembers(kept, history, horizon) && horizon <= later
    ensures Remembers(kept, history, later)
  {
  }

  lemma RemembersLonger(kept: seq<real>, history: seq<real>, horizon: real, at: real)
    requires Remembers(kept, history, horizon)
    ensures Remembers(kept + [at], history + [at], horizon)
  {
  }

  /** A history in which every timestamp was added while fewer than `limit` lay in the window before it
    * never has more than `limit` in any window.
    */
  lemma OneMoreKeepsBound(history: seq<real>, at: real, window: real, limit: nat, hi: real)
    requires CountAfter(history, at - window) < limit
    requires CountBetween(history, hi - window, hi) <= limit
    ensures CountBetween(history + [at], hi - window, hi) <= limit
  {
    CountBetweenLonger(history, at, hi - window, hi);
    if at <= hi {
      LaterStartCountsLess(history, at - window, hi - window);
    }
  }
}
