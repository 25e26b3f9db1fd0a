/**
 * The sliding-window rate limiter. The clock is an argument: `now` is the
 * time of the call. The limiter keeps, per identifier, the times of its
 * allowed requests.
 */
module RateLimiter {

  datatype Limiter = Limiter(requests: map<string, seq<real>>, maxRequests: int, windowSeconds: int)

  function NewLimiter(maxRequests: int := 100, windowSeconds: int := 3600): (l: Limiter)
    ensures l.requests == map[] && l.maxRequests == maxRequests && l.windowSeconds == windowSeconds
  {
    Limiter(map[], maxRequests, windowSeconds)
  }

  /** The times after `cutoff`, in order. */
  function Recent(ts: seq<real>, cutoff: real): (r: seq<real>)
    ensures forall t :: t in r <==> t in ts && t > cutoff
    ensures |r| <= |ts|
  {
    if |ts| == 0 then []
    else (if ts[0] > cutoff then [ts[0]] else []) + Recent(ts[1..], cutoff)
  }

  /** Appending a time adds it to the recent ones exactly when it is recent. */
  lemma {:induction false} RecentAppend(ts: seq<real>, t: real, cutoff: real)
    ensures Recent(ts + [t], cutoff) == Recent(ts, cutoff) + (if t > cutoff then [t] else [])
    decreases |ts|
  {
    if |ts| == 0 {
      assert [t][1..] == [];
    } else {
      assert (ts + [t])[1..] == ts[1..] + [t];
      RecentAppend(ts[1..], t, cutoff);
    }
  }

  predicate HasRecent(ts: seq<real>, cutoff: real) {
    exists i :: 0 <= i < |ts| && ts[i] > cutoff
  }

  /** The stored times of an identifier, none when it has no entry. */
  function Times(m: map<string, seq<real>>, id: string): seq<real> {
    if id in m then m[id] else []
  }

  /** The identifiers kept by the clean-up: those with a recent time, with
      all their stored times. */
  function Prune(m: map<string, seq<real>>, cutoff: real): (r: map<string, seq<real>>)
    ensures forall k :: k in r <==> k in m && HasRecent(m[k], cutoff)
    ensures forall k :: k in r ==> r[k] == m[k]
  {
    map k | k in m && HasRecent(m[k], cutoff) :: m[k]
  }

  function Cutoff(l: Limiter, now: real): real {
    now - l.windowSeconds as real
  }

  /** `is_allowed`: prune, then allow iff the identifier has fewer recent
      times than the limit; an allowed request records `now`. */
  function IsAllowed(l: Limiter, id: string, now: real): (r: (bool, Limiter))
    ensures r.1.maxRequests == l.maxRequests && r.1.windowSeconds == l.windowSeconds
    ensures r.0 <==> |Recent(Times(l.requests, id), Cutoff(l, now))| < l.maxRequests
    ensures forall k :: k != id ==> (k in r.1.requests <==> k in l.requests && HasRecent(l.requests[k], Cutoff(l, now)))
    ensures forall k :: k != id && k in r.1.requests ==> r.1.requests[k] == l.requests[k]
    ensures !r.0 ==> r.1.requests == Prune(l.requests, Cutoff(l, now))
    ensures r.0 ==> (id in r.1.requests &&
                     r.1.requests[id] == Times(Prune(l.requests, Cutoff(l, now)), id) + [now])
  {
    var cutoff := Cutoff(l, now);
    var pruned := Prune(l.requests, cutoff);
    var mine := Times(pruned, id);
    assert Recent(mine, cutoff) == Recent(Times(l.requests, id), cutoff) by {
      if id !in pruned && id in l.requests {
        NoneRecent(l.requests[id], cutoff);
      }
    }
    if |Recent(mine, cutoff)| >= l.maxRequests then (false, l.(requests := pruned))
    else (true, l.(requests := pruned[id := mine + [now]]))
  }

  lemma {:induction false} NoneRecent(ts: seq<real>, cutoff: real)
    requires !HasRecent(ts, cutoff)
    ensures Recent(ts, cutoff) == []
    decreases |ts|
  {
    if |ts| > 0 {
      assert !HasRecent(ts[1..], cutoff) by {
        forall i | 0 <= i < |ts[1..]| ensures ts[1..][i] <= cutoff {
          assert ts[1..][i] == ts[i + 1];
        }
      }
      NoneRecent(ts[1..], cutoff);
    }
  }

  /** Every identifier has at most the limit of recent times. */
  predicate WithinLimit(l: Limiter, cutoff: real) {
    forall k :: k in l.requests ==> |Recent(l.requests[k], cutoff)| <= l.maxRequests
  }

  /** No identifier ever gets more allowed requests within one window than
      the limit: a call keeps every identifier within it. */
  lemma StaysWithinLimit(l: Limiter, id: string, now: real)
    requires l.maxRequests >= 0
    requires WithinLimit(l, Cutoff(l, now))
    ensures WithinLimit(IsAllowed(l, id, now).1, Cutoff(l, now))
  {
    var cutoff := Cutoff(l, now);
    var r := IsAllowed(l, id, now);
    if r.0 {
      var mine := Times(Prune(l.requests, cutoff), id);
      RecentAppend(mine, now, cutoff);
      assert Recent(mine, cutoff) == Recent(Times(l.requests, id), cutoff) by {
        if id !in Prune(l.requests, cutoff) && id in l.requests {
          NoneRecent(l.requests[id], cutoff);
        }
      }
    }
  }

  /** Times only leave the window as the clock advances. */
  lemma {:induction false} RecentShrinks(ts: seq<real>, c1: real, c2: real)
    requires c1 <= c2
    ensures |Recent(ts, c2)| <= |Recent(ts, c1)|
    decreases |ts|
  {
    if |ts| > 0 {
      RecentShrinks(ts[1..], c1, c2);
    }
  }

  /** A limiter within its limit at one time stays within it later. */
  lemma WithinLimitLater(l: Limiter, c1: real, c2: real)
    requires c1 <= c2 && WithinLimit(l, c1)
    ensures WithinLimit(l, c2)
  {
    forall k | k in l.requests ensures |Recent(l.requests[k], c2)| <= l.maxRequests {
      RecentShrinks(l.requests[k], c1, c2);
    }
  }
}
