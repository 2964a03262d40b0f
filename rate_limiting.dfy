/**
 * The in-memory sliding-window rate limiter: for every key, the times of
 * the requests it granted; a call forgets the times that left the window,
 * refuses at the limit and otherwise records the current time.
 *
 * The clock (`time.time()`, a float) is the integer parameter `now`.
 */
module RateLimiting {

  /** The timestamps of `ts` still inside the window that ends at `now`, in their order. */
  function Prune(ts: seq<int>, now: int, windowSeconds: int): (r: seq<int>)
    ensures |r| <= |ts|
    ensures forall t :: multiset(r)[t] == if now - t < windowSeconds then multiset(ts)[t] else 0
    decreases |ts|
  {
    if ts == [] then []
    else
      assert ts == [ts[0]] + ts[1..];
      if now - ts[0] < windowSeconds then [ts[0]] + Prune(ts[1..], now, windowSeconds)
      else Prune(ts[1..], now, windowSeconds)
  }

  lemma {:induction false} PruneConcat(a: seq<int>, b: seq<int>, now: int, windowSeconds: int)
    ensures Prune(a + b, now, windowSeconds) == Prune(a, now, windowSeconds) + Prune(b, now, windowSeconds)
    decreases |a|
  {
    if a == [] {
      assert a + b == b;
    } else {
      assert (a + b)[0] == a[0] && (a + b)[1..] == a[1..] + b;
      PruneConcat(a[1..], b, now, windowSeconds);
    }
  }

  /** A later clock only forgets more: pruning at `earlier` and then at `later` is pruning at `later`. */
  lemma {:induction false} PruneTwice(ts: seq<int>, earlier: int, later: int, windowSeconds: int)
    requires earlier <= later
    ensures Prune(Prune(ts, earlier, windowSeconds), later, windowSeconds) == Prune(ts, later, windowSeconds)
    decreases |ts|
  {
    if ts != [] {
      PruneTwice(ts[1..], earlier, later, windowSeconds);
      if earlier - ts[0] < windowSeconds {
        var rest := Prune(ts[1..], earlier, windowSeconds);
        assert ([ts[0]] + rest)[0] == ts[0] && ([ts[0]] + rest)[1..] == rest;
      }
    }
  }

  /** The outcome of one `is_allowed` call on one key. */
  datatype Decision = Decision(allowed: bool, history: seq<int>)

  /** One `is_allowed` call on a key whose recorded times are `history`. */
  function Decide(history: seq<int>, now: int, maxRequests: int, windowSeconds: int): (d: Decision)
  {
    var recent := Prune(history, now, windowSeconds);
    if |recent| >= maxRequests then Decision(false, recent) else Decision(true, recent + [now])
  }

  /** The history a key has in the limiter; a key seen for the first time has none. */
  function HistoryOf(requests: map<string, seq<int>>, key: string): seq<int>
  {
    if key in requests then requests[key] else []
  }

  /** With a limit of zero or less every call is refused. */
  lemma NonPositiveLimitRefusesAll(history: seq<int>, now: int, maxRequests: int, windowSeconds: int)
    requires maxRequests <= 0
    ensures !Decide(history, now, maxRequests, windowSeconds).allowed
  {
  }

  /** After a call (with a positive window) the history holds only times inside the window. */
  lemma DecideKeepsWindow(history: seq<int>, now: int, maxRequests: int, windowSeconds: int)
    requires 0 < windowSeconds
    ensures forall t :: t in Decide(history, now, maxRequests, windowSeconds).history ==> now - t < windowSeconds
  {
    var recent := Prune(history, now, windowSeconds);
    forall t | t in Decide(history, now, maxRequests, windowSeconds).history
      ensures now - t < windowSeconds
    {
      if t != now {
        assert t in multiset(recent);
      }
    }
  }

  /** With a fixed limit, a history never grows past it. */
  lemma DecideBounded(history: seq<int>, now: int, maxRequests: int, windowSeconds: int)
    requires |history| <= maxRequests
    ensures |Decide(history, now, maxRequests, windowSeconds).history| <= maxRequests
  {
  }

  // ---------------------------------------------------------------------------
  // Runs of calls on one key
  // ---------------------------------------------------------------------------

  /** Whether the clock readings never go backwards. */
  predicate NonDecreasing(nows: seq<int>)
  {
    forall i, j :: 0 <= i < j < |nows| ==> nows[i] <= nows[j]
  }

  /** The calls of a run that were granted, and the key's history after the run. */
  datatype Run = Run(granted: seq<int>, history: seq<int>)

  /** Replays calls at the clock readings `nows` on one key. */
  function Replay(history: seq<int>, nows: seq<int>, maxRequests: int, windowSeconds: int): (r: Run)
    decreases |nows|
  {
    if nows == [] then Run([], history)
    else
      var d := Decide(history, nows[0], maxRequests, windowSeconds);
      var rest := Replay(d.history, nows[1..], maxRequests, windowSeconds);
      Run((if d.allowed then [nows[0]] else []) + rest.granted, rest.history)
  }

  /**
   * After a run on a clock that never goes backwards, the key's history is
   * exactly the granted times (with the ones it started with) that are still
   * inside the window ending at the last call.
   */
  lemma {:induction false} ReplayHistoryIsWindow(history: seq<int>, nows: seq<int>, maxRequests: int, windowSeconds: int)
    requires 0 < windowSeconds && nows != [] && NonDecreasing(nows)
    ensures var r := Replay(history, nows, maxRequests, windowSeconds);
      r.history == Prune(history + r.granted, nows[|nows| - 1], windowSeconds)
    decreases |nows|
  {
    var r := Replay(history, nows, maxRequests, windowSeconds);
    var now, last := nows[0], nows[|nows| - 1];
    var d := Decide(history, now, maxRequests, windowSeconds);
    var first: seq<int> := if d.allowed then [now] else [];
    var rest := Replay(d.history, nows[1..], maxRequests, windowSeconds);
    var recent := Prune(history, now, windowSeconds);
    assert r == Run(first + rest.granted, rest.history);
    assert d.history == recent + first;
    if |nows| == 1 {
      assert rest == Run([], d.history) && last == now;
      assert Prune(first, now, windowSeconds) == first by {
        if d.allowed {
          assert [now][1..] == [];
        }
      }
      assert r.granted == first;
      PruneConcat(history, first, now, windowSeconds);
    } else {
      var g := rest.granted;
      assert rest.history == Prune(d.history + g, last, windowSeconds) by {
        assert NonDecreasing(nows[1..]);
        assert nows[1..][|nows[1..]| - 1] == last;
        ReplayHistoryIsWindow(d.history, nows[1..], maxRequests, windowSeconds);
      }
      calc {
        Prune(d.history + g, last, windowSeconds);
        { PruneConcat(recent + first, g, last, windowSeconds); }
        Prune(recent + first, last, windowSeconds) + Prune(g, last, windowSeconds);
        { PruneConcat(recent, first, last, windowSeconds); }
        Prune(recent, last, windowSeconds) + Prune(first, last, windowSeconds) + Prune(g, last, windowSeconds);
        { assert now <= last; PruneTwice(history, now, last, windowSeconds); }
        Prune(history, last, windowSeconds) + Prune(first, last, windowSeconds) + Prune(g, last, windowSeconds);
        { PruneConcat(history, first, last, windowSeconds); }
        Prune(history + first, last, windowSeconds) + Prune(g, last, windowSeconds);
        { PruneConcat(history + first, g, last, windowSeconds); }
        Prune(history + first + g, last, windowSeconds);
        { assert history + first + g == history + r.granted; }
        Prune(history + r.granted, last, windowSeconds);
      }
    }
  }

  /** With a fixed limit, a history that starts within it stays within it over any run. */
  lemma {:induction false} ReplayBounded(history: seq<int>, nows: seq<int>, maxRequests: int, windowSeconds: int)
    requires |history| <= maxRequests
    ensures |Replay(history, nows, maxRequests, windowSeconds).history| <= maxRequests
    decreases |nows|
  {
    if nows != [] {
      var d := Decide(history, nows[0], maxRequests, windowSeconds);
      DecideBounded(history, nows[0], maxRequests, windowSeconds);
      ReplayBounded(d.history, nows[1..], maxRequests, windowSeconds);
    }
  }

  /**
   * The limiter's promise: on a clock that never goes backwards, starting
   * from a history within the limit (a new key has none), no window ending
   * at a call ever holds more than `maxRequests` granted requests.
   */
  lemma GrantedPerWindowBounded(history: seq<int>, nows: seq<int>, maxRequests: int, windowSeconds: int)
    requires 0 < windowSeconds && nows != [] && NonDecreasing(nows)
    requires |history| <= maxRequests
    ensures var r := Replay(history, nows, maxRequests, windowSeconds);
      |Prune(history + r.granted, nows[|nows| - 1], windowSeconds)| <= maxRequests
  {
    ReplayHistoryIsWindow(history, nows, maxRequests, windowSeconds);
    ReplayBounded(history, nows, maxRequests, windowSeconds);
  }

  // ---------------------------------------------------------------------------
  // The limiter
  // ---------------------------------------------------------------------------

  class RateLimiter {
    /** For every key seen so far, the times of its granted requests still remembered. */
    var requests: map<string, seq<int>>

    constructor ()
      ensures requests == map[]
    {
      requests := map[];
    }

    /**
     * `is_allowed`: prunes the key's history (also when the call is then
     * refused), refuses at the limit, and otherwise records `now`. Histories
     * of other keys do not change.
     */
    method IsAllowed(key: string, maxRequests: int, windowSeconds: int, now: int) returns (allowed: bool)
      modifies this
      ensures var d := Decide(HistoryOf(old(requests), key), now, maxRequests, windowSeconds);
        allowed == d.allowed && requests == old(requests)[key := d.history]
      ensures allowed <==> |Prune(HistoryOf(old(requests), key), now, windowSeconds)| < maxRequests
      ensures forall k :: k in old(requests) && k != key ==> k in requests && requests[k] == old(requests)[k]
    {
      if key !in requests {
        requests := requests[key := []];
      }
      requests := requests[key := Prune(requests[key], now, windowSeconds)];
      if |requests[key]| >= maxRequests {
        return false;
      }
      requests := requests[key := requests[key] + [now]];
      return true;
    }
  }
}
