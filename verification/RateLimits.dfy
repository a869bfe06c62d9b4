/** The rate limits in seconds: what windows, sweep and slack amount to with their values written out. */
module RateLimits {
  import opened Wrappers
  import F = FixedWindow
  import S = SlidingWindow

  // ---------------------------------------------------------------- fixed windows

  // A window of less than a day is `window` seconds of nanoseconds long: a request passes exactly if it
  // opens a window, or comes after the end of one, or fewer than `max` have passed since it began.
  lemma FixedWindowInSeconds(max: F.U32, window: nat, t0: nat, rs: seq<F.Request>, r: F.Request)
    requires max >= 1 && window < 86_400
    requires F.Ordered(t0, rs) && F.LastAt(t0, rs) <= r.at && |rs| < 4_294_967_295
    ensures var l := F.Limit(max, window);
            var start := F.WindowStart(l, rs, r.key);
            F.Passes(l, t0, rs, r)
            <==> start.None? || r.at - start.value > window * 1_000_000_000
                 || F.StorePassed(l, t0, rs, r.key, start.value, r.at) < max
  {
    F.PassesExactlyBelowMax(F.Limit(max, window), t0, rs, r);
  }

  // The sweep shows in no answer exactly for one request or more in less than 86,400 seconds, or for the
  // largest 32-bit maximum.
  lemma SweepLimitInSeconds(l: F.Limit)
    ensures F.SweepNeverShows(l) <==> l.max == 4_294_967_295 || (l.max >= 1 && l.window < 86_400)
  {
    F.SweepIsTransparentExactly(l);
  }

  // At the last request no bucket is as old as a day and a minute.
  lemma {:induction false} BucketsAreRecent(l: F.Limit, t0: nat, rs: seq<F.Request>, k: F.Key)
    requires F.Ordered(t0, rs)
    ensures var m := F.MemoryAfter(l, t0, rs);
            t0 <= m.lastSweep <= F.LastAt(t0, rs) && F.LastAt(t0, rs) - m.lastSweep < 60_000_000_000
    ensures var m := F.MemoryAfter(l, t0, rs);
            k in m.buckets ==>
              && m.lastSweep - m.buckets[k].start < 86_400_000_000_000
              && F.LastAt(t0, rs) - m.buckets[k].start < 86_460_000_000_000
  {
    if rs == [] {
    } else {
      F.OrderedFront(t0, rs);
      BucketsAreRecent(l, t0, rs[..|rs| - 1], k);
    }
  }

  // ---------------------------------------------------------------- fixed windows in Redis

  // The counters after requests of which each finds EXPIRE working or failing.
  function CountersAfter(l: F.Limit, atInstant: bool, rs: seq<(F.Request, bool)>): F.Redis {
    if rs == [] then F.Redis(map[], atInstant)
    else
      var (r, works) := rs[|rs| - 1];
      F.CheckRedis(l, CountersAfter(l, atInstant, rs[..|rs| - 1]), r, works).0
  }

  // The requests of a key from the `i`-th on.
  function Requested(rs: seq<(F.Request, bool)>, k: F.Key, i: nat): nat {
    if |rs| <= i then 0
    else Requested(rs[..|rs| - 1], k, i) + if rs[|rs| - 1].0.key == k then 1 else 0
  }

  // Every counter counts the requests since one whose EXPIRE worked, and ends `window` seconds after it:
  // no counter is ever left without an end.
  lemma {:induction false} CountersEnd(l: F.Limit, atInstant: bool, rs: seq<(F.Request, bool)>, k: F.Key)
    returns (i: nat)
    requires k in CountersAfter(l, atInstant, rs).counters
    ensures i < |rs| && rs[i].0.key == k && rs[i].1
    ensures var c := CountersAfter(l, atInstant, rs).counters[k];
            && c.count == Requested(rs, k, i) >= 1
            && c.expireAt == rs[i].0.at + l.window * 1_000_000_000
  {
    var front := rs[..|rs| - 1];
    var (r, works) := rs[|rs| - 1];
    var before := CountersAfter(l, atInstant, front);
    if r.key == k && !(before.Live(k, r.at) && before.counters[k].count >= 1) {
      i := |rs| - 1;
    } else {
      i := CountersEnd(l, atInstant, front, k);
    }
  }

  // ---------------------------------------------------------------- the sliding window

  // A request passes exactly if fewer than `limit` have passed in the `window` seconds of milliseconds
  // before it, on runs where Redis falls behind PHP's clock by 10,000 milliseconds at most.
  lemma SlidingWindowInSeconds(limit: nat, window: nat, rs: seq<S.Request>, r: S.Request, atInstant: bool)
    requires S.Regular(rs + [r], 10_000)
    ensures var l := S.Limit(limit, window);
            var log := S.Admitted(l, rs, atInstant);
            S.Passes(l, rs, r, atInstant)
            <==> |set m | m in log && r.now - window * 1000 < log[m] <= r.now| < limit
  {
    var l := S.Limit(limit, window);
    assert S.Regular(rs + [r], S.Tolerance(atInstant));
    S.PassesExactlyBelowLimit(l, rs, r, atInstant);
    var log := S.Admitted(l, rs, atInstant);
    assert S.Within(log, r.now - l.Length(), r.now) == set m | m in log && r.now - window * 1000 < log[m] <= r.now;
  }

  lemma SlackInMilliseconds(l: S.Limit, drift: nat, atInstant: bool)
    ensures S.AnswersExactly(l, drift, atInstant)
            <==> drift <= 10_000 || (drift == 10_001 && !atInstant) || l.limit == 0 || l.window == 0
  {
    S.SlackIsExact(l, drift, atInstant);
  }
}
