/**
 The two fixed-window rate limit stores of `ecat-middleware`: one in memory with a periodic
 sweep, one in Redis with key expiry.  Times are nanoseconds.  The request counter is 32 bits
 wide and wraps as in a release build; Redis counts in 64 bits and the store truncates to 32.
 */
module FixedWindow {
  import opened Wrappers
  import opened Clock

  type Key = string

  const SWEEP_INTERVAL: nat := 60_000_000_000
  const MAX_IDLE: nat := 86_400_000_000_000
  const WRAP: nat := 0x1_0000_0000

  type U32 = n: nat | n < WRAP

  function WrappingIncrement(n: U32): U32 {
    if n == WRAP - 1 then 0 else n + 1
  }

  // `max` requests per `window` seconds.
  datatype Limit = Limit(max: U32, window: nat) {
    function Length(): nat { window * 1_000_000_000 }
  }

  datatype Request = Request(key: Key, at: nat)

  // ---------------------------------------------------------------- in memory

  datatype Bucket = Bucket(count: U32, start: nat)

  datatype Memory = Memory(buckets: map<Key, Bucket>, lastSweep: nat)

  function Sweep(m: Memory, now: nat): Memory {
    if Elapsed(m.lastSweep, now) >= SWEEP_INTERVAL then
      Memory(map k | k in m.buckets && m.buckets[k].start > now - MAX_IDLE :: m.buckets[k], now)
    else m
  }

  // The bucket after one request, and whether the request passes.
  function Hit(l: Limit, found: Option<Bucket>, now: nat): (Bucket, bool) {
    var b := if found.Some? then found.value else Bucket(0, now);
    if Elapsed(b.start, now) > l.Length() then (Bucket(1, now), true)
    else
      var count := WrappingIncrement(b.count);
      (b.(count := count), count <= l.max)
  }

  type Buckets = map<Key, Bucket>

  function Find(bs: Buckets, k: Key): Option<Bucket> {
    if k in bs then Some(bs[k]) else None
  }

  function CheckBuckets(l: Limit, bs: Buckets, r: Request): (Buckets, bool) {
    var (b, ok) := Hit(l, Find(bs, r.key), r.at);
    (bs[r.key := b], ok)
  }

  function Check(l: Limit, m: Memory, r: Request): (Memory, bool) {
    var swept := Sweep(m, r.at);
    var (bs, ok) := CheckBuckets(l, swept.buckets, r);
    (swept.(buckets := bs), ok)
  }

  class MemoryStore {
    var buckets: map<Key, Bucket>
    var lastSweep: nat

    ghost function Value(): Memory
      reads this
    {
      Memory(buckets, lastSweep)
    }

    constructor (now: nat)
      ensures Value() == Memory(map[], now)
    {
      buckets, lastSweep := map[], now;
    }

    method CheckRequest(l: Limit, key: Key, now: nat) returns (ok: bool)
      modifies this
      ensures (Value(), ok) == Check(l, old(Value()), Request(key, now))
    {
      if Elapsed(lastSweep, now) >= SWEEP_INTERVAL {
        var cutoff := now - MAX_IDLE;
        buckets := map k | k in buckets && buckets[k].start > cutoff :: buckets[k];
        lastSweep := now;
      }
      ghost var swept := buckets;
      if key !in buckets {
        buckets := buckets[key := Bucket(0, now)];
      }
      var entry := buckets[key];
      assert buckets == swept[key := entry];
      assert buckets[key := Bucket(1, now)] == swept[key := Bucket(1, now)];
      if Elapsed(entry.start, now) > l.Length() {
        buckets := buckets[key := Bucket(1, now)];
        return true;
      }
      var count := WrappingIncrement(entry.count);
      assert buckets[key := entry.(count := count)] == swept[key := entry.(count := count)];
      buckets := buckets[key := entry.(count := count)];
      return count <= l.max;
    }
  }

  // ---------------------------------------------------------------- in Redis

  datatype Counter = Counter(count: nat, expireAt: nat)

  // Whether a key is gone at its very expiry instant or only after it is left open; `atInstant`
  // says which.
  datatype Redis = Redis(counters: map<Key, Counter>, atInstant: bool) {
    function Live(k: Key, now: nat): bool {
      k in counters && (now < counters[k].expireAt || (now == counters[k].expireAt && !atInstant))
    }
  }

  // INCR_SCRIPT followed by the comparison.  `expired` says whether EXPIRE succeeded; EXPIRE with
  // zero seconds deletes the key at once.
  function CheckRedis(l: Limit, s: Redis, r: Request, expired: bool): (Redis, bool) {
    var count := if s.Live(r.key, r.at) then s.counters[r.key].count + 1 else 1;
    var counters :=
      if count == 1 then
        if expired && l.window > 0 then s.counters[r.key := Counter(1, r.at + l.Length())]
        else s.counters - {r.key}
      else s.counters[r.key := s.counters[r.key].(count := count)];
    (s.(counters := counters), count % WRAP <= l.max)
  }

  // ---------------------------------------------------------------- runs

  ghost predicate Ordered(from: nat, rs: seq<Request>) {
    && (forall i :: 0 <= i < |rs| ==> from <= rs[i].at)
    && (forall i, j :: 0 <= i < j < |rs| ==> rs[i].at <= rs[j].at)
  }

  function LastAt(from: nat, rs: seq<Request>): nat {
    if rs == [] then from else rs[|rs| - 1].at
  }

  lemma OrderedFront(from: nat, rs: seq<Request>)
    requires rs != [] && Ordered(from, rs)
    ensures Ordered(from, rs[..|rs| - 1]) && LastAt(from, rs[..|rs| - 1]) <= rs[|rs| - 1].at
  {
  }

  // The stores after a list of requests, started at `t0`.
  function MemoryAfter(l: Limit, t0: nat, rs: seq<Request>): Memory {
    if rs == [] then Memory(map[], t0)
    else Check(l, MemoryAfter(l, t0, rs[..|rs| - 1]), rs[|rs| - 1]).0
  }

  function BucketsAfter(l: Limit, rs: seq<Request>): Buckets {
    if rs == [] then map[]
    else CheckBuckets(l, BucketsAfter(l, rs[..|rs| - 1]), rs[|rs| - 1]).0
  }

  function RedisAfter(l: Limit, atInstant: bool, rs: seq<Request>): Redis {
    if rs == [] then Redis(map[], atInstant)
    else CheckRedis(l, RedisAfter(l, atInstant, rs[..|rs| - 1]), rs[|rs| - 1], true).0
  }

  // The answer to a request that comes after `rs`: of the memory store, of one that never sweeps,
  // and of the Redis store.
  predicate Passes(l: Limit, t0: nat, rs: seq<Request>, r: Request) {
    Check(l, MemoryAfter(l, t0, rs), r).1
  }

  predicate PassesUnswept(l: Limit, rs: seq<Request>, r: Request) {
    CheckBuckets(l, BucketsAfter(l, rs), r).1
  }

  predicate PassesRedis(l: Limit, atInstant: bool, rs: seq<Request>, r: Request) {
    CheckRedis(l, RedisAfter(l, atInstant, rs), r, true).1
  }

  // ---------------------------------------------------------------- the sweep shows in no answer

  // The swept store lacks only buckets whose window is over.
  ghost predicate SweptFrom(l: Limit, swept: Buckets, full: Buckets, now: nat) {
    && swept.Keys <= full.Keys
    && (forall k :: k in swept ==> swept[k] == full[k])
    && (forall k :: k in full && k !in swept ==> full[k].start + l.Length() < now)
  }

  lemma SweepStaysSwept(l: Limit, swept: Memory, full: Buckets, now: nat, later: nat)
    requires l.Length() < MAX_IDLE && SweptFrom(l, swept.buckets, full, now) && now <= later
    ensures SweptFrom(l, Sweep(swept, later).buckets, full, later)
  {
  }

  lemma SweptCheck(l: Limit, swept: Buckets, full: Buckets, r: Request)
    requires l.max >= 1
    requires SweptFrom(l, swept, full, r.at)
    ensures CheckBuckets(l, swept, r).1 == CheckBuckets(l, full, r).1
    ensures SweptFrom(l, CheckBuckets(l, swept, r).0, CheckBuckets(l, full, r).0, r.at)
  {
    assert Hit(l, Find(swept, r.key), r.at) == Hit(l, Find(full, r.key), r.at);
  }

  lemma {:induction false} SweptAfter(l: Limit, t0: nat, rs: seq<Request>)
    requires l.max >= 1 && l.Length() < MAX_IDLE && Ordered(t0, rs)
    ensures SweptFrom(l, MemoryAfter(l, t0, rs).buckets, BucketsAfter(l, rs), LastAt(t0, rs))
  {
    if rs == [] {
    } else {
      var front, r := rs[..|rs| - 1], rs[|rs| - 1];
      OrderedFront(t0, rs);
      SweptAfter(l, t0, front);
      SweepStaysSwept(l, MemoryAfter(l, t0, front), BucketsAfter(l, front), LastAt(t0, front), r.at);
      SweptCheck(l, Sweep(MemoryAfter(l, t0, front), r.at).buckets, BucketsAfter(l, front), r);
    }
  }

  lemma SweepIsTransparent(l: Limit, t0: nat, rs: seq<Request>, r: Request)
    requires l.max >= 1 && l.Length() < MAX_IDLE
    requires Ordered(t0, rs) && LastAt(t0, rs) <= r.at
    ensures Passes(l, t0, rs, r) == PassesUnswept(l, rs, r)
  {
    SweptAfter(l, t0, rs);
    SweepStaysSwept(l, MemoryAfter(l, t0, rs), BucketsAfter(l, rs), LastAt(t0, rs), r.at);
    SweptCheck(l, Sweep(MemoryAfter(l, t0, rs), r.at).buckets, BucketsAfter(l, rs), r);
  }

  function Repeat(r: Request, n: nat): seq<Request> {
    if n == 0 then [] else Repeat(r, n - 1) + [r]
  }

  lemma {:induction false} RepeatIs(r: Request, n: nat)
    ensures |Repeat(r, n)| == n && forall i :: 0 <= i < n ==> Repeat(r, n)[i] == r
    ensures n > 0 ==> Repeat(r, n)[..n - 1] == Repeat(r, n - 1)
  {
    if n == 0 {
    } else {
      RepeatIs(r, n - 1);
    }
  }

  lemma FillOne(l: Limit, k: Key, found: map<Key, Bucket>, n: U32)
    requires n > 0 && found == if n == 1 then map[] else map[k := Bucket(n - 1, 0)]
    ensures Check(l, Memory(found, 0), Request(k, 0)).0 == Memory(map[k := Bucket(n, 0)], 0)
    ensures CheckBuckets(l, found, Request(k, 0)).0 == map[k := Bucket(n, 0)]
  {
    assert Sweep(Memory(found, 0), 0) == Memory(found, 0);
  }

  // `n` requests at time zero leave one bucket that counts them.
  lemma {:induction false} FillBucket(l: Limit, k: Key, n: U32)
    requires n > 0
    ensures MemoryAfter(l, 0, Repeat(Request(k, 0), n)) == Memory(map[k := Bucket(n, 0)], 0)
    ensures BucketsAfter(l, Repeat(Request(k, 0), n)) == map[k := Bucket(n, 0)]
    decreases n
  {
    RepeatIs(Request(k, 0), n);
    if n == 1 {
      FillOne(l, k, map[], 1);
    } else {
      FillBucket(l, k, n - 1);
      FillOne(l, k, map[k := Bucket(n - 1, 0)], n);
    }
  }

  ghost predicate SweepNeverShows(l: Limit) {
    forall t0: nat, rs: seq<Request>, r: Request :: Ordered(t0, rs) && LastAt(t0, rs) <= r.at ==>
      Passes(l, t0, rs, r) == PassesUnswept(l, rs, r)
  }

  // Sweeping changes no answer on any run exactly for limits of at least one request over less
  // than a day (or for the limit that no 32-bit counter can exceed).
  lemma SweepIsTransparentExactly(l: Limit)
    ensures SweepNeverShows(l) <==> l.max == WRAP - 1 || (l.max >= 1 && l.Length() < MAX_IDLE)
  {
    if l.max == WRAP - 1 || (l.max >= 1 && l.Length() < MAX_IDLE) {
      forall t0: nat, rs: seq<Request>, r: Request | Ordered(t0, rs) && LastAt(t0, rs) <= r.at
        ensures Passes(l, t0, rs, r) == PassesUnswept(l, rs, r)
      {
        if l.max < WRAP - 1 {
          SweepIsTransparent(l, t0, rs, r);
        }
      }
    } else if l.max >= 1 {
      SweptFullBucket(l, "k");
    } else {
      SweptRefusal(l, "k");
    }
  }

  // A run of equal requests at time zero and a late one show the sweep when the two stores answer apart.
  lemma ShowsSweep(l: Limit, k: Key, n: U32, late: nat)
    requires n > 0 && late >= MAX_IDLE
    requires CheckBuckets(l, map[], Request(k, late)).1
             != CheckBuckets(l, map[k := Bucket(n, 0)], Request(k, late)).1
    ensures !SweepNeverShows(l)
  {
    var rs, r := Repeat(Request(k, 0), n), Request(k, late);
    RepeatIs(Request(k, 0), n);
    FillBucket(l, k, n);
    assert Ordered(0, rs) && LastAt(0, rs) <= r.at;
    assert Sweep(MemoryAfter(l, 0, rs), late).buckets == map[];
    assert Passes(l, 0, rs, r) != PassesUnswept(l, rs, r);
  }

  // One day later the full bucket is swept though its window still runs.
  lemma SweptFullBucket(l: Limit, k: Key)
    requires 1 <= l.max < WRAP - 1 && l.Length() >= MAX_IDLE
    ensures !SweepNeverShows(l)
  {
    ShowsSweep(l, k, l.max, MAX_IDLE);
  }

  // With nothing allowed, a finished window passes one request unless it was swept.
  lemma SweptRefusal(l: Limit, k: Key)
    requires l.max == 0
    ensures !SweepNeverShows(l)
  {
    ShowsSweep(l, k, 1, if l.Length() >= MAX_IDLE then l.Length() + 1 else MAX_IDLE);
  }

  // ---------------------------------------------------------------- how many pass

  // Requests of a key that passed between two instants, both included.
  function Passed(l: Limit, rs: seq<Request>, k: Key, from: int, to: int): nat {
    if rs == [] then 0
    else
      var front, r := rs[..|rs| - 1], rs[|rs| - 1];
      Passed(l, front, k, from, to)
      + if r.key == k && from <= r.at <= to && PassesUnswept(l, front, r) then 1 else 0
  }

  lemma {:induction false} PassedSplits(l: Limit, rs: seq<Request>, k: Key, from: int, cut: int, to: int)
    ensures Passed(l, rs, k, from, to) <= Passed(l, rs, k, from, cut - 1) + Passed(l, rs, k, cut, to)
  {
    if rs == [] {
    } else {
      PassedSplits(l, rs[..|rs| - 1], k, from, cut, to);
    }
  }

  lemma {:induction false} PassedWidens(l: Limit, rs: seq<Request>, k: Key, from: int, to: int, from': int, to': int)
    requires from' <= from && to <= to'
    ensures Passed(l, rs, k, from, to) <= Passed(l, rs, k, from', to')
  {
    if rs == [] {
    } else {
      PassedWidens(l, rs[..|rs| - 1], k, from, to, from', to');
    }
  }

  lemma {:induction false} NonePassed(l: Limit, rs: seq<Request>, k: Key, from: int, to: int)
    requires forall i :: 0 <= i < |rs| && rs[i].key == k ==> rs[i].at < from || to < rs[i].at
    ensures Passed(l, rs, k, from, to) == 0
  {
    if rs == [] {
    } else {
      NonePassed(l, rs[..|rs| - 1], k, from, to);
    }
  }

  lemma PassedSnoc(l: Limit, rs: seq<Request>, r: Request, k: Key, from: int, to: int)
    ensures Passed(l, rs + [r], k, from, to)
            == Passed(l, rs, k, from, to)
               + if r.key == k && from <= r.at <= to && PassesUnswept(l, rs, r) then 1 else 0
  {
    assert (rs + [r])[..|rs|] == rs;
  }

  lemma BucketsSnoc(l: Limit, rs: seq<Request>, r: Request)
    ensures BucketsAfter(l, rs + [r]) == CheckBuckets(l, BucketsAfter(l, rs), r).0
  {
    assert (rs + [r])[..|rs|] == rs;
  }

  // Where the run stands for one key at `now`: its bucket counts the requests since it began, all
  // within one window length, and the one that opened it passed; and so did the window before it.
  ghost predicate KeyOk(l: Limit, rs: seq<Request>, k: Key, found: Option<Bucket>, now: nat) {
    match found
    case None => forall i :: 0 <= i < |rs| ==> rs[i].key != k
    case Some(b) =>
      && b.start <= now
      && b.count <= |rs|
      && (forall i :: 0 <= i < |rs| && rs[i].key == k ==> rs[i].at <= b.start + l.Length())
      && Passed(l, rs, k, b.start, now) <= l.max
      && Passed(l, rs, k, b.start, now) <= b.count
      && Passed(l, rs, k, b.start, b.start) >= 1
      && (forall from: int :: EarlierOk(l, rs, k, from, b.start))
  }

  // An interval of one window length that reaches the start of the bucket begins after the window before
  // it was opened, so it saw at most all but one of that window pass.
  ghost predicate EarlierOk(l: Limit, rs: seq<Request>, k: Key, from: int, start: int) {
    from + l.Length() >= start ==> Passed(l, rs, k, from, start - 1) + 1 <= l.max
  }

  lemma {:induction false} PassedAddUp(l: Limit, rs: seq<Request>, k: Key, from: int, cut: int, to: int)
    requires from <= cut <= to + 1
    ensures Passed(l, rs, k, from, cut - 1) + Passed(l, rs, k, cut, to) == Passed(l, rs, k, from, to)
  {
    if rs == [] {
    } else {
      PassedAddUp(l, rs[..|rs| - 1], k, from, cut, to);
    }
  }

  // The request that opens a window passes, and is the only one of its key there yet.
  lemma OpenerPassed(l: Limit, rs: seq<Request>, r: Request, found: Option<Bucket>)
    requires l.max >= 1 && Find(BucketsAfter(l, rs), r.key) == found
    requires found.None? || found.value.start + l.Length() < r.at
    requires forall i :: 0 <= i < |rs| && rs[i].key == r.key ==> rs[i].at < r.at
    ensures Passed(l, rs + [r], r.key, r.at, r.at) == 1
  {
    NonePassed(l, rs, r.key, r.at, r.at);
    PassedSnoc(l, rs, r, r.key, r.at, r.at);
  }

  lemma NewWindow(l: Limit, rs: seq<Request>, r: Request, found: Option<Bucket>, now: nat)
    requires l.max >= 1 && now <= r.at
    requires KeyOk(l, rs, r.key, found, now) && forall i :: 0 <= i < |rs| ==> rs[i].at <= now
    requires Find(BucketsAfter(l, rs), r.key) == found
    requires found.None? || found.value.start + l.Length() < r.at
    ensures KeyOk(l, rs + [r], r.key, Some(Bucket(1, r.at)), r.at)
  {
    OpenerPassed(l, rs, r, found);
    forall from: int ensures EarlierOk(l, rs + [r], r.key, from, r.at) {
      NewEarlier(l, rs, r, found, now, from);
    }
  }

  lemma NewEarlier(l: Limit, rs: seq<Request>, r: Request, found: Option<Bucket>, now: nat, from: int)
    requires l.max >= 1 && now <= r.at
    requires KeyOk(l, rs, r.key, found, now) && forall i :: 0 <= i < |rs| ==> rs[i].at <= now
    requires found.None? || found.value.start + l.Length() < r.at
    ensures EarlierOk(l, rs + [r], r.key, from, r.at)
  {
    if from + l.Length() >= r.at {
      EarlierWindow(l, rs, r.key, found, now, from, r.at);
      PassedSnoc(l, rs, r, r.key, from, r.at as int - 1);
    }
  }

  lemma EarlierWindow(l: Limit, rs: seq<Request>, k: Key, found: Option<Bucket>, now: nat, from: int, at: int)
    requires l.max >= 1 && KeyOk(l, rs, k, found, now) && forall i :: 0 <= i < |rs| ==> rs[i].at <= now
    requires found.None? || found.value.start + l.Length() < at
    requires from + l.Length() >= at
    ensures Passed(l, rs, k, from, at - 1) + 1 <= l.max
  {
    if found.Some? {
      var start := found.value.start;
      PassedNarrows(l, rs, k, from, at - 1, now);
      PassedWidens(l, rs, k, from, now, start + 1, now);
      PassedAddUp(l, rs, k, start, start + 1, now);
    } else {
      NonePassed(l, rs, k, from, at - 1);
    }
  }

  lemma {:induction false} PassedNarrows(l: Limit, rs: seq<Request>, k: Key, from: int, to: int, now: nat)
    requires forall i :: 0 <= i < |rs| ==> rs[i].at <= now
    ensures Passed(l, rs, k, from, to) <= Passed(l, rs, k, from, now)
  {
    if rs == [] {
    } else {
      PassedNarrows(l, rs[..|rs| - 1], k, from, to, now);
    }
  }

  // A request that is not before the bucket's start changes nothing that came earlier.
  lemma KeepsEarlier(l: Limit, rs: seq<Request>, r: Request, k: Key, start: int)
    requires forall from: int :: EarlierOk(l, rs, k, from, start)
    requires r.key == k ==> start <= r.at
    ensures forall from: int :: EarlierOk(l, rs + [r], k, from, start)
  {
    forall from: int ensures EarlierOk(l, rs + [r], k, from, start) {
      assert EarlierOk(l, rs, k, from, start);
      PassedSnoc(l, rs, r, k, from, start - 1);
    }
  }

  lemma SameWindow(l: Limit, rs: seq<Request>, r: Request, b: Bucket, now: nat)
    requires now <= r.at && |rs| + 1 < WRAP
    requires KeyOk(l, rs, r.key, Some(b), now) && forall i :: 0 <= i < |rs| ==> rs[i].at <= now
    requires r.at <= b.start + l.Length()
    requires PassesUnswept(l, rs, r) <==> b.count + 1 <= l.max
    ensures KeyOk(l, rs + [r], r.key, Some(b.(count := b.count + 1)), r.at)
  {
    PassedNarrows(l, rs, r.key, b.start, r.at, now);
    PassedSnoc(l, rs, r, r.key, b.start, r.at);
    PassedSnoc(l, rs, r, r.key, b.start, b.start);
    KeepsEarlier(l, rs, r, r.key, b.start);
  }

  lemma OtherKey(l: Limit, rs: seq<Request>, r: Request, k: Key, found: Option<Bucket>, now: nat)
    requires now <= r.at && k != r.key
    requires KeyOk(l, rs, k, found, now) && forall i :: 0 <= i < |rs| ==> rs[i].at <= now
    ensures KeyOk(l, rs + [r], k, found, r.at)
  {
    if found.Some? {
      var start := found.value.start;
      PassedNarrows(l, rs, k, start, r.at, now);
      PassedSnoc(l, rs, r, k, start, r.at);
      PassedSnoc(l, rs, r, k, start, start);
      KeepsEarlier(l, rs, r, k, start);
    }
  }

  lemma StepIsOk(l: Limit, rs: seq<Request>, r: Request, k: Key, now: nat)
    requires l.max >= 1 && |rs| + 1 < WRAP && now <= r.at
    requires KeyOk(l, rs, k, Find(BucketsAfter(l, rs), k), now) && forall i :: 0 <= i < |rs| ==> rs[i].at <= now
    ensures KeyOk(l, rs + [r], k, Find(BucketsAfter(l, rs + [r]), k), r.at)
  {
    BucketsSnoc(l, rs, r);
    var found := Find(BucketsAfter(l, rs), k);
    if k != r.key {
      OtherKey(l, rs, r, k, found, now);
    } else if found.None? || found.value.start + l.Length() < r.at {
      NewWindow(l, rs, r, found, now);
    } else {
      SameWindow(l, rs, r, found.value, now);
    }
  }

  lemma {:induction false} RunIsOk(l: Limit, t0: nat, rs: seq<Request>, k: Key)
    requires l.max >= 1 && |rs| < WRAP && Ordered(t0, rs)
    ensures KeyOk(l, rs, k, Find(BucketsAfter(l, rs), k), LastAt(t0, rs))
  {
    if rs == [] {
    } else {
      var front, r := rs[..|rs| - 1], rs[|rs| - 1];
      assert rs == front + [r];
      OrderedFront(t0, rs);
      RunIsOk(l, t0, front, k);
      StepIsOk(l, front, r, k, LastAt(t0, front));
    }
  }

  lemma {:induction false} UnsweptIntervalBound(l: Limit, t0: nat, rs: seq<Request>, k: Key, from: int)
    requires l.max >= 1 && |rs| < WRAP && Ordered(t0, rs)
    ensures Passed(l, rs, k, from, from + l.Length()) <= 2 * l.max - 1
  {
    RunIsOk(l, t0, rs, k);
    var now, to := LastAt(t0, rs), from + l.Length();
    if k !in BucketsAfter(l, rs) {
      NonePassed(l, rs, k, from, to);
    } else {
      var start: int := BucketsAfter(l, rs)[k].start;
      if to >= start {
        assert EarlierOk(l, rs, k, from, start);
        PassedSplits(l, rs, k, from, start, to);
        PassedNarrows(l, rs, k, start, to, now);
      } else {
        OrderedFront(t0, rs);
        UnsweptIntervalBound(l, t0, rs[..|rs| - 1], k, from);
        assert rs[..|rs| - 1] + [rs[|rs| - 1]] == rs;
      }
    }
  }

  // The same count for the store that sweeps.
  function StorePassed(l: Limit, t0: nat, rs: seq<Request>, k: Key, from: int, to: int): nat {
    if rs == [] then 0
    else
      var front, r := rs[..|rs| - 1], rs[|rs| - 1];
      StorePassed(l, t0, front, k, from, to)
      + if r.key == k && from <= r.at <= to && Passes(l, t0, front, r) then 1 else 0
  }

  lemma {:induction false} StorePassesTheSame(l: Limit, t0: nat, rs: seq<Request>, k: Key, from: int, to: int)
    requires l.max >= 1 && l.Length() < MAX_IDLE && Ordered(t0, rs)
    ensures StorePassed(l, t0, rs, k, from, to) == Passed(l, rs, k, from, to)
  {
    if rs == [] {
    } else {
      OrderedFront(t0, rs);
      StorePassesTheSame(l, t0, rs[..|rs| - 1], k, from, to);
      SweepIsTransparent(l, t0, rs[..|rs| - 1], rs[|rs| - 1]);
    }
  }

  // In every run the current bucket of a key has let at most `max` requests pass since it began, and
  // no closed interval of one window length sees more than twice `max` less one of a key pass.
  lemma FixedWindowBounds(l: Limit, t0: nat, rs: seq<Request>, k: Key, from: int)
    requires l.max >= 1 && l.Length() < MAX_IDLE
    requires Ordered(t0, rs) && |rs| < WRAP
    ensures StorePassed(l, t0, rs, k, from, from + l.Length()) <= 2 * l.max - 1
    ensures k in MemoryAfter(l, t0, rs).buckets ==>
              StorePassed(l, t0, rs, k, MemoryAfter(l, t0, rs).buckets[k].start, LastAt(t0, rs)) <= l.max
  {
    UnsweptIntervalBound(l, t0, rs, k, from);
    StorePassesTheSame(l, t0, rs, k, from, from + l.Length());
    RunIsOk(l, t0, rs, k);
    SweptAfter(l, t0, rs);
    if k in MemoryAfter(l, t0, rs).buckets {
      StorePassesTheSame(l, t0, rs, k, BucketsAfter(l, rs)[k].start, LastAt(t0, rs));
    }
  }

  // ---------------------------------------------------------------- exactly which requests pass

  // Where the window of a key begins, from the requests alone: at the first request, and then at each
  // request that comes after the end of the window before it.
  function WindowStart(l: Limit, rs: seq<Request>, k: Key): Option<nat> {
    if rs == [] then None
    else
      var before, r := WindowStart(l, rs[..|rs| - 1], k), rs[|rs| - 1];
      if r.key != k || (before.Some? && r.at <= before.value + l.Length()) then before else Some(r.at)
  }

  // A request that opens a new window after an old one.
  predicate Reopens(l: Limit, start: Option<nat>, at: nat) {
    start.Some? && start.value + l.Length() < at
  }

  // The requests of a key that passed from the start of its window up to `to`.
  function PassedInWindow(l: Limit, rs: seq<Request>, k: Key, to: nat): nat {
    match WindowStart(l, rs, k)
    case None => 0
    case Some(start) => Passed(l, rs, k, start, to)
  }

  // The bucket counts the window's requests, and those that passed are the first `max` of them.
  ghost predicate Counts(l: Limit, rs: seq<Request>, k: Key, found: Option<Bucket>, to: nat) {
    match found
    case None => WindowStart(l, rs, k) == None && forall i :: 0 <= i < |rs| ==> rs[i].key != k
    case Some(b) =>
      && WindowStart(l, rs, k) == Some(b.start)
      && b.start <= to && b.count <= |rs|
      && (forall i :: 0 <= i < |rs| && rs[i].key == k ==> rs[i].at <= b.start + l.Length())
      && (b.count < l.max ==> Passed(l, rs, k, b.start, to) == b.count)
      && (b.count >= l.max ==> Passed(l, rs, k, b.start, to) >= l.max)
  }

  lemma WindowStartSnoc(l: Limit, rs: seq<Request>, r: Request, k: Key)
    ensures WindowStart(l, rs + [r], k)
            == var before := WindowStart(l, rs, k);
               if r.key != k || (before.Some? && r.at <= before.value + l.Length()) then before else Some(r.at)
  {
    assert (rs + [r])[..|rs|] == rs;
  }

  lemma OpeningCounts(l: Limit, rs: seq<Request>, r: Request, found: Option<Bucket>, to: nat)
    requires Counts(l, rs, r.key, found, to) && r.at <= to
    requires found.None? || found.value.start + l.Length() < r.at
    requires Find(BucketsAfter(l, rs), r.key) == found
    ensures Counts(l, rs + [r], r.key, Some(Hit(l, found, r.at).0), to)
  {
    NonePassed(l, rs, r.key, r.at, to);
    PassedSnoc(l, rs, r, r.key, r.at, to);
    WindowStartSnoc(l, rs, r, r.key);
    OpeningPasses(l, rs, r, found);
  }

  lemma OpeningPasses(l: Limit, rs: seq<Request>, r: Request, found: Option<Bucket>)
    requires found.None? ==> forall i :: 0 <= i < |rs| ==> rs[i].key != r.key
    requires found.Some? ==> found.value.start + l.Length() < r.at
    ensures Hit(l, found, r.at).0 == Bucket(1, r.at)
    ensures Hit(l, found, r.at).1 <==> found.Some? || l.max >= 1
  {
  }

  lemma InsideCounts(l: Limit, rs: seq<Request>, r: Request, b: Bucket, to: nat)
    requires Counts(l, rs, r.key, Some(b), to) && b.start <= r.at <= b.start + l.Length() && r.at <= to
    requires |rs| + 1 < WRAP && Find(BucketsAfter(l, rs), r.key) == Some(b)
    ensures Counts(l, rs + [r], r.key, Some(Hit(l, Some(b), r.at).0), to)
  {
    PassedSnoc(l, rs, r, r.key, b.start, to);
    WindowStartSnoc(l, rs, r, r.key);
  }

  lemma OtherCounts(l: Limit, rs: seq<Request>, r: Request, k: Key, found: Option<Bucket>, to: nat)
    requires Counts(l, rs, k, found, to) && r.key != k
    ensures Counts(l, rs + [r], k, found, to)
  {
    WindowStartSnoc(l, rs, r, k);
    if found.Some? {
      PassedSnoc(l, rs, r, k, found.value.start, to);
    }
  }

  lemma {:induction false} RunCounts(l: Limit, t0: nat, rs: seq<Request>, k: Key, to: nat)
    requires Ordered(t0, rs) && LastAt(t0, rs) <= to && |rs| < WRAP
    ensures Counts(l, rs, k, Find(BucketsAfter(l, rs), k), to)
    ensures k in BucketsAfter(l, rs) ==> BucketsAfter(l, rs)[k].start <= LastAt(t0, rs)
  {
    if rs == [] {
    } else {
      var front, r := rs[..|rs| - 1], rs[|rs| - 1];
      assert rs == front + [r];
      OrderedFront(t0, rs);
      RunCounts(l, t0, front, k, to);
      var found := Find(BucketsAfter(l, front), k);
      if r.key != k {
        OtherCounts(l, front, r, k, found, to);
      } else if found.None? || found.value.start + l.Length() < r.at {
        OpeningCounts(l, front, r, found, to);
      } else {
        InsideCounts(l, front, r, found.value, to);
      }
    }
  }

  // Of a store that never sweeps: a request passes exactly when it opens a new window after an old one
  // or fewer than `max` requests of its key have passed since the window began.
  lemma UnsweptPassesExactly(l: Limit, t0: nat, rs: seq<Request>, r: Request)
    requires Ordered(t0, rs) && LastAt(t0, rs) <= r.at && |rs| < WRAP - 1
    ensures PassesUnswept(l, rs, r)
            <==> Reopens(l, WindowStart(l, rs, r.key), r.at) || PassedInWindow(l, rs, r.key, r.at) < l.max
  {
    RunCounts(l, t0, rs, r.key, r.at);
  }

  // The same of the store itself, against the log of what it let pass.
  lemma PassesExactlyBelowMax(l: Limit, t0: nat, rs: seq<Request>, r: Request)
    requires l.max >= 1 && l.Length() < MAX_IDLE
    requires Ordered(t0, rs) && LastAt(t0, rs) <= r.at && |rs| < WRAP - 1
    ensures var start := WindowStart(l, rs, r.key);
            Passes(l, t0, rs, r)
            <==> start.None? || start.value + l.Length() < r.at
                 || StorePassed(l, t0, rs, r.key, start.value, r.at) < l.max
  {
    UnsweptPassesExactly(l, t0, rs, r);
    SweepIsTransparent(l, t0, rs, r);
    if WindowStart(l, rs, r.key).Some? {
      StorePassesTheSame(l, t0, rs, r.key, WindowStart(l, rs, r.key).value, r.at);
    }
  }

  // ---------------------------------------------------------------- the bound is met

  lemma OneCounted(l: Limit, rs: seq<Request>, r: Request, b: Bucket)
    requires Find(BucketsAfter(l, rs), r.key) == Some(b) && b.start <= r.at <= b.start + l.Length()
    requires b.count < l.max
    ensures Find(BucketsAfter(l, rs + [r]), r.key) == Some(b.(count := b.count + 1))
  {
    BucketsSnoc(l, rs, r);
  }

  lemma OnePassed(l: Limit, rs: seq<Request>, r: Request, b: Bucket, from: int, to: int)
    requires Find(BucketsAfter(l, rs), r.key) == Some(b) && b.start <= r.at <= b.start + l.Length()
    requires b.count < l.max && from <= r.at <= to
    ensures Passed(l, rs + [r], r.key, from, to) == Passed(l, rs, r.key, from, to) + 1
  {
    PassedSnoc(l, rs, r, r.key, from, to);
  }

  // `all` is `rs` and then `n` times `r`.
  ghost predicate Followed(rs: seq<Request>, r: Request, n: nat, all: seq<Request>) {
    |all| == |rs| + n && forall i :: 0 <= i < |all| ==> all[i] == if i < |rs| then rs[i] else r
  }

  lemma FollowedStep(rs: seq<Request>, r: Request, n: nat, front: seq<Request>)
    requires n > 0 && Followed(rs, r, n - 1, front)
    ensures Followed(rs, r, n, front + [r])
  {
  }

  // Requests inside a window all pass while its count is below `max`.
  lemma {:induction false} InsideBurst(l: Limit, rs: seq<Request>, r: Request, start: nat, count: nat, n: nat,
                                       from: int, to: int) returns (all: seq<Request>)
    requires count + n <= l.max && start <= r.at <= start + l.Length() && from <= r.at <= to
    requires Find(BucketsAfter(l, rs), r.key) == Some(Bucket(count, start))
    ensures Followed(rs, r, n, all)
    ensures Find(BucketsAfter(l, all), r.key) == Some(Bucket(count + n, start))
    ensures Passed(l, all, r.key, from, to) == Passed(l, rs, r.key, from, to) + n
  {
    if n == 0 {
      all := rs;
    } else {
      var front := InsideBurst(l, rs, r, start, count, n - 1, from, to);
      FollowedStep(rs, r, n, front);
      OneCounted(l, front, r, Bucket(count + (n - 1), start));
      OnePassed(l, front, r, Bucket(count + (n - 1), start), from, to);
      all := front + [r];
    }
  }

  lemma FirstOpens(l: Limit, r: Request, from: int, to: int)
    requires l.max >= 1
    ensures Find(BucketsAfter(l, [r]), r.key) == Some(Bucket(1, r.at))
    ensures r.at < from ==> Passed(l, [r], r.key, from, to) == 0
  {
    assert [] + [r] == [r];
    BucketsSnoc(l, [], r);
    PassedSnoc(l, [], r, r.key, from, to);
  }

  lemma LateOneOpens(l: Limit, rs: seq<Request>, r: Request, b: Bucket, from: int, to: int)
    requires Find(BucketsAfter(l, rs), r.key) == Some(b) && b.start + l.Length() < r.at && from <= r.at <= to
    ensures Find(BucketsAfter(l, rs + [r]), r.key) == Some(Bucket(1, r.at))
    ensures Passed(l, rs + [r], r.key, from, to) == Passed(l, rs, r.key, from, to) + 1
  {
    BucketsSnoc(l, rs, r);
    PassedSnoc(l, rs, r, r.key, from, to);
  }

  // One request opens a window; `max - 1` come when it is just not over, and then a full window at once.
  ghost predicate IsRush(l: Limit, k: Key, rs: seq<Request>) {
    && l.max >= 1 && |rs| == 2 * l.max
    && forall i :: 0 <= i < |rs| ==>
         rs[i] == Request(k, if i == 0 then 0 else if i < l.max then l.Length() else l.Length() + 1)
  }

  lemma RushPasses(l: Limit, k: Key, late: Request, next: Request) returns (rs: seq<Request>)
    requires l.max >= 1 && l.window >= 1 && late == Request(k, l.Length()) && next == Request(k, l.Length() + 1)
    ensures IsRush(l, k, rs) && Passed(l, rs, k, 1, next.at) == 2 * l.max - 1
  {
    var one := [Request(k, 0)];
    FirstOpens(l, Request(k, 0), 1, next.at);
    var first := InsideBurst(l, one, late, 0, 1, l.max - 1, 1, next.at);
    LateOneOpens(l, first, next, Bucket(l.max, 0), 1, next.at);
    rs := InsideBurst(l, first + [next], next, next.at, 1, l.max - 1, 1, next.at);
  }

  // Every limit of a second to a day does let 2 * max - 1 requests pass in one window length.
  lemma IntervalBoundIsTight(l: Limit, k: Key) returns (rs: seq<Request>)
    requires l.max >= 1 && l.window >= 1 && l.Length() < MAX_IDLE
    ensures IsRush(l, k, rs) && Ordered(0, rs)
    ensures StorePassed(l, 0, rs, k, 1, 1 + l.Length()) == 2 * l.max - 1
  {
    rs := RushPasses(l, k, Request(k, l.Length()), Request(k, l.Length() + 1));
    StorePassesTheSame(l, 0, rs, k, 1, 1 + l.Length());
  }
}
