/**
 The in-memory and the Redis fixed-window store side by side: on which limits they give the same
 answers on every run.
 */
module StoreComparison {
  import opened Wrappers
  import opened Clock
  import opened FixedWindow

  // ---------------------------------------------------------------- memory and Redis agree

  // Every bucket has its counter, which expires when the bucket's window is over.
  ghost predicate Mirrors(l: Limit, bs: Buckets, s: Redis) {
    && s.counters.Keys == bs.Keys
    && forall k :: k in bs ==>
         && s.counters[k].expireAt == bs[k].start + l.Length()
         && s.counters[k].count >= 1
         && s.counters[k].count % WRAP == bs[k].count
  }

  lemma CountsMirror(n: nat)
    ensures (n + 1) % WRAP == WrappingIncrement(n % WRAP)
  {
  }

  // The request does not come at the very end of its bucket's window.
  predicate OffBoundary(l: Limit, bs: Buckets, r: Request) {
    r.key in bs ==> r.at != bs[r.key].start + l.Length()
  }

  lemma FoundMirrors(l: Limit, b: Bucket, s: Redis, r: Request)
    requires l.max >= 1 && l.window >= 1 && r.key in s.counters && s.counters[r.key].count >= 1
    requires s.counters[r.key].expireAt == b.start + l.Length() && s.counters[r.key].count % WRAP == b.count
    requires s.atInstant ==> r.at != b.start + l.Length()
    ensures var (s', ok) := CheckRedis(l, s, r, true);
            var (b', ok') := Hit(l, Some(b), r.at);
            && ok == ok' && s'.counters == s.counters[r.key := s'.counters[r.key]]
            && s'.counters[r.key].expireAt == b'.start + l.Length()
            && s'.counters[r.key].count >= 1 && s'.counters[r.key].count % WRAP == b'.count
  {
    CountsMirror(s.counters[r.key].count);
  }

  lemma MirrorStep(l: Limit, bs: Buckets, s: Redis, r: Request)
    requires l.max >= 1 && l.window >= 1 && Mirrors(l, bs, s)
    requires s.atInstant ==> OffBoundary(l, bs, r)
    ensures CheckRedis(l, s, r, true).1 == CheckBuckets(l, bs, r).1
    ensures Mirrors(l, CheckBuckets(l, bs, r).0, CheckRedis(l, s, r, true).0)
  {
    if r.key in bs {
      FoundMirrors(l, bs[r.key], s, r);
    } else {
      GoneCountsAsFirst(l, s, r.key, r.at);
    }
  }

  ghost predicate AllOffBoundary(l: Limit, rs: seq<Request>) {
    forall i :: 0 <= i < |rs| ==> OffBoundary(l, BucketsAfter(l, rs[..i]), rs[i])
  }

  lemma {:induction false} RunsMirror(l: Limit, atInstant: bool, rs: seq<Request>)
    requires l.max >= 1 && l.window >= 1
    requires atInstant ==> AllOffBoundary(l, rs)
    ensures RedisAfter(l, atInstant, rs).atInstant == atInstant
    ensures Mirrors(l, BucketsAfter(l, rs), RedisAfter(l, atInstant, rs))
  {
    if rs == [] {
    } else {
      var front := rs[..|rs| - 1];
      assert forall i :: 0 <= i < |front| ==> front[..i] == rs[..i];
      RunsMirror(l, atInstant, front);
      MirrorStep(l, BucketsAfter(l, front), RedisAfter(l, atInstant, front), rs[|rs| - 1]);
    }
  }

  // On every run the two stores give the same answers, for limits of at least one request over one
  // second to a day; if Redis drops a key at its expiry instant, provided no request comes exactly then.
  lemma StoresAgree(l: Limit, t0: nat, atInstant: bool, rs: seq<Request>, r: Request)
    requires l.max >= 1 && l.window >= 1 && l.Length() < MAX_IDLE
    requires Ordered(t0, rs) && LastAt(t0, rs) <= r.at
    requires atInstant ==> AllOffBoundary(l, rs + [r])
    ensures PassesRedis(l, atInstant, rs, r) == Passes(l, t0, rs, r)
  {
    if atInstant {
      var all := rs + [r];
      assert all[..|rs|] == rs && all[|rs|] == r;
      forall i | 0 <= i < |rs| ensures OffBoundary(l, BucketsAfter(l, rs[..i]), rs[i]) {
        assert all[..i] == rs[..i] && all[i] == rs[i];
      }
    }
    RunsMirror(l, atInstant, rs);
    MirrorStep(l, BucketsAfter(l, rs), RedisAfter(l, atInstant, rs), r);
    SweepIsTransparent(l, t0, rs, r);
  }

  // At the boundary they part: the memory store still refuses what such a Redis lets pass.
  lemma BoundaryParts(l: Limit, k: Key)
    requires 1 <= l.max < WRAP - 1 && l.window >= 1 && l.Length() < MAX_IDLE
    ensures var rs, r := Repeat(Request(k, 0), l.max), Request(k, l.Length());
            PassesRedis(l, true, rs, r) && !Passes(l, 0, rs, r)
  {
    var rs, r := Repeat(Request(k, 0), l.max), Request(k, l.Length());
    FullBucketRefuses(l, k, l.Length());
    BurstOffBoundary(l, k);
    RunsMirror(l, true, rs);
    ExpiredPasses(l, BucketsAfter(l, rs), RedisAfter(l, true, rs), r);
  }

  lemma FullBucketRefuses(l: Limit, k: Key, at: nat)
    requires 1 <= l.max < WRAP - 1 && at <= l.Length() < MAX_IDLE
    ensures BucketsAfter(l, Repeat(Request(k, 0), l.max)) == map[k := Bucket(l.max, 0)]
    ensures !Passes(l, 0, Repeat(Request(k, 0), l.max), Request(k, at))
  {
    var rs := Repeat(Request(k, 0), l.max);
    BurstIsOrdered(k, l.max);
    FillBucket(l, k, l.max);
    SweepIsTransparent(l, 0, rs, Request(k, at));
    FullRefuses(l, k, at);
  }

  lemma FullRefuses(l: Limit, k: Key, at: nat)
    requires l.max < WRAP - 1 && at <= l.Length()
    ensures !CheckBuckets(l, map[k := Bucket(l.max, 0)], Request(k, at)).1
  {
  }

  lemma ExpiredPasses(l: Limit, bs: Buckets, s: Redis, r: Request)
    requires l.max >= 1 && s.atInstant && Mirrors(l, bs, s)
    requires r.key in bs && r.at == bs[r.key].start + l.Length()
    ensures CheckRedis(l, s, r, true).1
  {
    assert !s.Live(r.key, r.at);
  }

  lemma BurstOffBoundary(l: Limit, k: Key)
    requires 1 <= l.max < WRAP - 1 && l.window >= 1
    ensures AllOffBoundary(l, Repeat(Request(k, 0), l.max))
  {
    var rs := Repeat(Request(k, 0), l.max);
    RepeatIs(Request(k, 0), l.max);
    forall i | 0 <= i < |rs| ensures OffBoundary(l, BucketsAfter(l, rs[..i]), rs[i]) {
      RepeatPrefix(Request(k, 0), l.max, i);
      if i > 0 {
        FillBucket(l, k, i);
      }
    }
  }

  lemma {:induction false} RepeatPrefix(r: Request, n: nat, i: nat)
    requires i <= n
    ensures |Repeat(r, n)| == n && Repeat(r, n)[..i] == Repeat(r, i)
  {
    RepeatIs(r, n);
    if i < n {
      RepeatPrefix(r, n - 1, i);
      assert Repeat(r, n)[..i] == Repeat(r, n - 1)[..i];
    } else {
      assert Repeat(r, n)[..i] == Repeat(r, n);
    }
  }

  // With a window of zero seconds Redis keeps no key at all and so lets everything pass.
  lemma {:induction false} ZeroWindowPasses(l: Limit, atInstant: bool, rs: seq<Request>, r: Request)
    requires l.max >= 1 && l.window == 0
    ensures PassesRedis(l, atInstant, rs, r) && RedisAfter(l, atInstant, rs).counters == map[]
  {
    if rs == [] {
    } else {
      ZeroWindowPasses(l, atInstant, rs[..|rs| - 1], rs[|rs| - 1]);
    }
  }

  // ---------------------------------------------------------------- exactly when they agree

  ghost predicate AlwaysAgree(l: Limit, atInstant: bool) {
    forall t0: nat, rs: seq<Request>, r: Request :: Ordered(t0, rs) && LastAt(t0, rs) <= r.at ==>
      Passes(l, t0, rs, r) == PassesRedis(l, atInstant, rs, r)
  }

  // A run on which the stores answer apart.
  lemma Apart(l: Limit, atInstant: bool, rs: seq<Request>, r: Request)
    requires Ordered(0, rs) && LastAt(0, rs) <= r.at
    requires Passes(l, 0, rs, r) != PassesRedis(l, atInstant, rs, r)
    ensures !AlwaysAgree(l, atInstant)
  {
  }

  // `n` requests at time zero leave one counter that counts them.
  lemma {:induction false} FillCounter(l: Limit, atInstant: bool, k: Key, n: nat)
    requires n > 0 && l.window >= 1
    ensures RedisAfter(l, atInstant, Repeat(Request(k, 0), n))
            == Redis(map[k := Counter(n, l.Length())], atInstant)
  {
    RepeatIs(Request(k, 0), n);
    if n == 1 {
      assert Repeat(Request(k, 0), 1)[..0] == [];
    } else {
      FillCounter(l, atInstant, k, n - 1);
    }
  }

  lemma BurstIsOrdered(k: Key, n: nat)
    ensures Ordered(0, Repeat(Request(k, 0), n)) && LastAt(0, Repeat(Request(k, 0), n)) == 0
  {
    RepeatIs(Request(k, 0), n);
  }

  // Window zero: Redis lets pass what the memory store refuses.
  lemma ZeroWindowParts(l: Limit, atInstant: bool, k: Key)
    requires 1 <= l.max < WRAP - 1 && l.window == 0
    ensures var rs, r := Repeat(Request(k, 0), l.max), Request(k, 0);
            PassesRedis(l, atInstant, rs, r) && !Passes(l, 0, rs, r)
    ensures !AlwaysAgree(l, atInstant)
  {
    var rs, r := Repeat(Request(k, 0), l.max), Request(k, 0);
    BurstIsOrdered(k, l.max);
    ZeroWindowPasses(l, atInstant, rs, r);
    FullBucketRefuses(l, k, 0);
    Apart(l, atInstant, rs, r);
  }

  // A day after a burst its bucket is swept, and the next request counts as the first.
  lemma SweptBurstForgotten(l: Limit, k: Key, n: U32)
    requires n > 0
    ensures Passes(l, 0, Repeat(Request(k, 0), n), Request(k, MAX_IDLE)) <==> l.max >= 1
  {
    FillBucket(l, k, n);
    assert Sweep(Memory(map[k := Bucket(n, 0)], 0), MAX_IDLE).buckets == map[];
  }

  // A counter that still lives counts on.
  lemma LiveBurstCounts(l: Limit, atInstant: bool, k: Key, n: nat, at: nat)
    requires n > 0 && l.window >= 1 && (at < l.Length() || (at == l.Length() && !atInstant))
    ensures PassesRedis(l, atInstant, Repeat(Request(k, 0), n), Request(k, at)) <==> (n + 1) % WRAP <= l.max
  {
    FillCounter(l, atInstant, k, n);
  }

  // A window longer than a day: the memory store has swept the full bucket, Redis still has the
  // counter.  With nothing allowed, a counter about to wrap shows the difference.
  lemma LongWindowParts(l: Limit, atInstant: bool, k: Key)
    requires l.max < WRAP - 1 && l.Length() >= MAX_IDLE && (atInstant ==> l.Length() > MAX_IDLE)
    ensures !AlwaysAgree(l, atInstant)
  {
    var n: U32 := if l.max == 0 then WRAP - 1 else l.max;
    BurstIsOrdered(k, n);
    SweptBurstForgotten(l, k, n);
    LiveBurstCounts(l, atInstant, k, n, MAX_IDLE);
    Apart(l, atInstant, Repeat(Request(k, 0), n), Request(k, MAX_IDLE));
  }

  // A request of another key one instant before a day is over sweeps nothing yet, and puts the next
  // sweep off.
  function PutOff(k: Key, other: Key, n: nat): seq<Request> {
    Repeat(Request(k, 0), n) + [Request(other, MAX_IDLE - 1)]
  }

  lemma SweepPutOff(l: Limit, k: Key, other: Key, n: U32)
    requires n > 0 && other != k
    ensures Ordered(0, PutOff(k, other, n)) && LastAt(0, PutOff(k, other, n)) == MAX_IDLE - 1
    ensures MemoryAfter(l, 0, PutOff(k, other, n))
            == Memory(map[k := Bucket(n, 0)][other := Hit(l, None, MAX_IDLE - 1).0], MAX_IDLE - 1)
  {
    var burst := Repeat(Request(k, 0), n);
    BurstIsOrdered(k, n);
    FillBucket(l, k, n);
    assert PutOff(k, other, n)[..|burst|] == burst;
    var m := Memory(map[k := Bucket(n, 0)], 0);
    assert Sweep(m, MAX_IDLE - 1) == Memory(m.buckets, MAX_IDLE - 1);
  }

  lemma CounterPutOff(l: Limit, k: Key, other: Key, n: nat, atInstant: bool)
    requires n > 0 && other != k && l.Length() == MAX_IDLE
    ensures var s := RedisAfter(l, atInstant, PutOff(k, other, n));
            s.atInstant == atInstant && k in s.counters && s.counters[k] == Counter(n, l.Length())
  {
    var burst := Repeat(Request(k, 0), n);
    RepeatIs(Request(k, 0), n);
    FillCounter(l, atInstant, k, n);
    assert PutOff(k, other, n)[..|burst|] == burst;
  }

  lemma UnsweptRefuses(l: Limit, m: Memory, k: Key, now: nat)
    requires k in m.buckets && m.buckets[k] == Bucket(l.max, 0) && l.max < WRAP - 1
    requires now <= l.Length() && Elapsed(m.lastSweep, now) < SWEEP_INTERVAL
    ensures !Check(l, m, Request(k, now)).1
  {
  }

  lemma UnsweptReopens(l: Limit, m: Memory, k: Key, now: nat)
    requires k in m.buckets && m.buckets[k].start + l.Length() < now
    requires Elapsed(m.lastSweep, now) < SWEEP_INTERVAL
    ensures Check(l, m, Request(k, now)).1
  {
  }

  lemma GoneCountsAsFirst(l: Limit, s: Redis, k: Key, now: nat)
    requires !s.Live(k, now)
    ensures CheckRedis(l, s, Request(k, now), true).1 <==> l.max >= 1
  {
  }

  // A window of exactly a day, and a key gone at its instant: Redis starts anew, the bucket is full.
  lemma DayLongWindowParts(l: Limit, k: Key, other: Key)
    requires 1 <= l.max < WRAP - 1 && other != k && l.Length() == MAX_IDLE
    ensures !AlwaysAgree(l, true)
  {
    var rs, r := PutOff(k, other, l.max), Request(k, MAX_IDLE);
    SweepPutOff(l, k, other, l.max);
    CounterPutOff(l, k, other, l.max, true);
    UnsweptRefuses(l, MemoryAfter(l, 0, rs), k, MAX_IDLE);
    GoneCountsAsFirst(l, RedisAfter(l, true, rs), k, MAX_IDLE);
    Apart(l, true, rs, r);
  }

  // With nothing allowed the memory store lets one request pass after each window, Redis none.
  lemma ForbiddenDayParts(l: Limit, atInstant: bool, k: Key, other: Key)
    requires l.max == 0 && other != k && l.Length() == MAX_IDLE
    ensures !AlwaysAgree(l, atInstant)
  {
    var rs, r := PutOff(k, other, 1), Request(k, MAX_IDLE + 1);
    SweepPutOff(l, k, other, 1);
    CounterPutOff(l, k, other, 1, atInstant);
    UnsweptReopens(l, MemoryAfter(l, 0, rs), k, MAX_IDLE + 1);
    GoneCountsAsFirst(l, RedisAfter(l, atInstant, rs), k, MAX_IDLE + 1);
    Apart(l, atInstant, rs, r);
  }

  lemma ReopenedBurstPasses(l: Limit, k: Key)
    requires l.Length() < MAX_IDLE
    ensures Passes(l, 0, Repeat(Request(k, 0), 1), Request(k, l.Length() + 1))
  {
    FillBucket(l, k, 1);
    assert Sweep(Memory(map[k := Bucket(1, 0)], 0), l.Length() + 1).buckets == map[k := Bucket(1, 0)];
  }

  lemma ForbiddenByRedis(l: Limit, atInstant: bool, k: Key)
    requires l.max == 0
    ensures !PassesRedis(l, atInstant, Repeat(Request(k, 0), 1), Request(k, l.Length() + 1))
  {
    if l.window == 0 {
      RepeatIs(Request(k, 0), 1);
      assert RedisAfter(l, atInstant, Repeat(Request(k, 0), 0)) == Redis(map[], atInstant);
    } else {
      FillCounter(l, atInstant, k, 1);
    }
    GoneCountsAsFirst(l, RedisAfter(l, atInstant, Repeat(Request(k, 0), 1)), k, l.Length() + 1);
  }

  lemma ForbiddenParts(l: Limit, atInstant: bool, k: Key)
    requires l.max == 0 && l.Length() < MAX_IDLE
    ensures !AlwaysAgree(l, atInstant)
  {
    BurstIsOrdered(k, 1);
    ReopenedBurstPasses(l, k);
    ForbiddenByRedis(l, atInstant, k);
    Apart(l, atInstant, Repeat(Request(k, 0), 1), Request(k, l.Length() + 1));
  }

  lemma NoLimitAgrees(l: Limit, atInstant: bool)
    requires l.max == WRAP - 1
    ensures AlwaysAgree(l, atInstant)
  {
  }

  lemma ShortWindowsAgree(l: Limit)
    requires l.max >= 1 && l.window >= 1 && l.Length() < MAX_IDLE
    ensures AlwaysAgree(l, false)
  {
    forall t0: nat, rs: seq<Request>, r: Request | Ordered(t0, rs) && LastAt(t0, rs) <= r.at
      ensures Passes(l, t0, rs, r) == PassesRedis(l, false, rs, r)
    {
      StoresAgree(l, t0, false, rs, r);
    }
  }

  lemma AtInstantParts(l: Limit, k: Key)
    requires 1 <= l.max < WRAP - 1 && l.window >= 1 && l.Length() < MAX_IDLE
    ensures !AlwaysAgree(l, true)
  {
    BurstIsOrdered(k, l.max);
    BoundaryParts(l, k);
    Apart(l, true, Repeat(Request(k, 0), l.max), Request(k, l.Length()));
  }

  // Both stores answer alike on every run exactly for the limit no counter can exceed, and for limits
  // of at least one request over a second up to less than a day if Redis keeps a key through its
  // expiry instant.
  lemma StoresAgreeExactly(l: Limit, atInstant: bool)
    ensures AlwaysAgree(l, atInstant)
            <==> l.max == WRAP - 1
                 || (l.max >= 1 && l.window >= 1 && l.Length() < MAX_IDLE && !atInstant)
  {
    var k, other := "k", "o";
    if l.max == WRAP - 1 {
      NoLimitAgrees(l, atInstant);
    } else if l.Length() > MAX_IDLE || (l.Length() == MAX_IDLE && !atInstant) {
      LongWindowParts(l, atInstant, k);
    } else if l.max == 0 {
      if l.Length() == MAX_IDLE {
        ForbiddenDayParts(l, atInstant, k, other);
      } else {
        ForbiddenParts(l, atInstant, k);
      }
    } else if l.Length() == MAX_IDLE {
      DayLongWindowParts(l, k, other);
    } else if l.window == 0 {
      ZeroWindowParts(l, atInstant, k);
    } else if atInstant {
      AtInstantParts(l, k);
    } else {
      ShortWindowsAgree(l);
    }
  }
}
