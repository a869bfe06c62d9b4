/**
 The sliding-window rate limit of the admin: a Lua script over one Redis sorted set per client and
 path.  Two clocks are involved.  PHP reads `now` before it calls the script and the scores are in
 that clock; Redis expires the key by its own.  Times are milliseconds.
 */
module SlidingWindow {
  import opened Collections

  type Member = string

  // At most `limit` requests per `window` seconds.
  datatype Limit = Limit(limit: nat, window: nat) {
    function Length(): nat { window * 1000 }

    // EXPIRE gets window + 10 seconds.
    function KeyLife(): nat { Length() + SLACK }
  }

  const SLACK: nat := 10_000

  // `now` by PHP's clock, `redisAt` by Redis's when the script runs.
  datatype Request = Request(now: nat, redisAt: nat, member: Member) {
    function Lag(): int { redisAt - now }
  }

  datatype Store = Store(members: map<Member, nat>, deadline: nat)

  // What the sorted set holds when the script starts.  Expiry may strike at the deadline or just after.
  function Unexpired(s: Store, at: nat, atInstant: bool): map<Member, nat> {
    if s.deadline < at || (atInstant && s.deadline == at) then map[] else s.members
  }

  // ZREMRANGEBYSCORE key 0 cut
  function Later(members: map<Member, nat>, cut: int): map<Member, nat> {
    map m | m in members && !(0 <= members[m] <= cut) :: members[m]
  }

  // The script: the new set, whether the request passes, and the reported count.
  function Eval(l: Limit, s: Store, r: Request, atInstant: bool): (Store, bool, nat) {
    Decide(l, s.deadline, Later(Unexpired(s, r.redisAt, atInstant), r.now - l.Length()), r)
  }

  function Decide(l: Limit, deadline: nat, kept: map<Member, nat>, r: Request): (Store, bool, nat) {
    if |kept| >= l.limit then (Store(kept, deadline), false, |kept|)
    else (Store(kept[r.member := r.now], r.redisAt + l.KeyLife()), true, |kept| + 1)
  }

  class SortedSet {
    var members: map<Member, nat>
    var deadline: nat

    ghost function Value(): Store
      reads this
    {
      Store(members, deadline)
    }

    constructor ()
      ensures Value() == Store(map[], 0)
    {
      members, deadline := map[], 0;
    }

    method EvalScript(l: Limit, now: nat, redisAt: nat, member: Member, atInstant: bool)
      returns (ok: bool, count: nat)
      modifies this
      ensures (Value(), ok, count) == Eval(l, old(Value()), Request(now, redisAt, member), atInstant)
    {
      if deadline < redisAt || (atInstant && deadline == redisAt) {
        members := map[];
      }
      var windowStart := now - l.Length();
      members := map m | m in members && !(0 <= members[m] <= windowStart) :: members[m];
      count := |members|;
      if count >= l.limit {
        return false, count;
      }
      members := members[member := now];
      deadline := redisAt + l.KeyLife();
      return true, count + 1;
    }
  }

  // ---------------------------------------------------------------- runs

  function After(l: Limit, rs: seq<Request>, atInstant: bool): Store {
    if rs == [] then Store(map[], 0)
    else Eval(l, After(l, rs[..|rs| - 1], atInstant), rs[|rs| - 1], atInstant).0
  }

  predicate Passes(l: Limit, rs: seq<Request>, r: Request, atInstant: bool) {
    Eval(l, After(l, rs, atInstant), r, atInstant).1
  }

  // Every request that ever passed, with its time: the ideal log, which forgets nothing.
  function Admitted(l: Limit, rs: seq<Request>, atInstant: bool): map<Member, nat> {
    if rs == [] then map[]
    else
      var front, r := rs[..|rs| - 1], rs[|rs| - 1];
      if Passes(l, front, r, atInstant) then Admitted(l, front, atInstant)[r.member := r.now]
      else Admitted(l, front, atInstant)
  }

  // The logged requests with times in (from, to].
  ghost function Within(log: map<Member, nat>, from: int, to: int): set<Member> {
    set m | m in log && from < log[m] <= to
  }

  // Members differ, PHP's clock never goes back, and no request reaches Redis more than `drift` later,
  // relative to its `now`, than an earlier one did.
  ghost predicate Regular(rs: seq<Request>, drift: nat) {
    && (forall i, j :: 0 <= i < j < |rs| ==> rs[i].member != rs[j].member)
    && (forall i, j :: 0 <= i < j < |rs| ==> rs[i].now <= rs[j].now)
    && (forall i, j :: 0 <= i < j < |rs| ==> rs[j].Lag() - rs[i].Lag() <= drift)
  }

  // The drift the script bears: the slack, and one millisecond more if a key outlives its deadline.
  function Tolerance(atInstant: bool): nat {
    if atInstant then SLACK else SLACK + 1
  }

  lemma RegularFront(rs: seq<Request>, r: Request, drift: nat)
    requires Regular(rs + [r], drift)
    ensures Regular(rs, drift)
    ensures forall x :: x in rs ==> x.member != r.member && x.now <= r.now && r.Lag() - x.Lag() <= drift
  {
    var all := rs + [r];
    assert all[|rs|] == r && forall i :: 0 <= i < |rs| ==> all[i] == rs[i];
  }

  // ---------------------------------------------------------------- the set mirrors the log

  // At `now` the set is part of the log and misses only what the last window has outlived.
  ghost predicate Mirrors(l: Limit, members: map<Member, nat>, log: map<Member, nat>, now: nat) {
    && (forall m :: m in members ==> m in log && members[m] == log[m])
    && (forall m :: m in log ==> log[m] <= now && (m in members || log[m] <= now - l.Length()))
  }

  // The key was last given its life by a request no logged one is later than.
  ghost predicate Alive(l: Limit, rs: seq<Request>, s: Store) {
    s.members != map[] ==>
      exists x :: x in rs && s.deadline == x.redisAt + l.KeyLife() && NoLater(s.members, x.now)
  }

  ghost predicate NoLater(members: map<Member, nat>, now: nat) {
    forall m :: m in members ==> members[m] <= now
  }

  lemma LaterMirrors(l: Limit, members: map<Member, nat>, log: map<Member, nat>, now: nat, cut: int)
    requires Mirrors(l, members, log, now) && now - l.Length() <= cut
    ensures Later(members, cut) == Later(log, cut)
  {
  }

  // An expired key held nothing that the window had not already outlived.
  lemma ExpiryHidesNothing(l: Limit, rs: seq<Request>, s: Store, log: map<Member, nat>, now: nat, r: Request,
                           atInstant: bool)
    requires Mirrors(l, s.members, log, now) && Alive(l, rs, s) && now <= r.now
    requires forall x :: x in rs ==> r.Lag() - x.Lag() <= Tolerance(atInstant)
    ensures Later(Unexpired(s, r.redisAt, atInstant), r.now - l.Length()) == Later(log, r.now - l.Length())
  {
    var cut := r.now - l.Length();
    LaterMirrors(l, s.members, log, now, cut);
    if Unexpired(s, r.redisAt, atInstant) != s.members {
      var x :| x in rs && s.deadline == x.redisAt + l.KeyLife() && NoLater(s.members, x.now);
      assert r.Lag() - x.Lag() <= Tolerance(atInstant);
      assert x.now <= cut;
      assert Later(s.members, cut) == map[];
    }
  }

  lemma KeptMirrors(l: Limit, log: map<Member, nat>, now: nat)
    requires NoLater(log, now)
    ensures Mirrors(l, Later(log, now - l.Length()), log, now)
  {
  }

  lemma AddMirrors(l: Limit, members: map<Member, nat>, log: map<Member, nat>, now: nat, m: Member)
    requires Mirrors(l, members, log, now)
    ensures Mirrors(l, members[m := now], log[m := now], now)
  {
  }

  ghost predicate Recorded(kept: map<Member, nat>, members: map<Member, nat>) {
    forall m :: m in kept ==> m in members && members[m] == kept[m]
  }

  lemma LaterIsRecorded(l: Limit, members: map<Member, nat>, log: map<Member, nat>, now: nat, later: nat)
    requires Mirrors(l, members, log, now) && now <= later
    ensures Recorded(Later(log, later - l.Length()), members) && NoLater(log, later)
  {
  }

  lemma DecideMirrors(l: Limit, rs: seq<Request>, s: Store, log: map<Member, nat>, r: Request)
    requires NoLater(log, r.now) && Alive(l, rs, s)
    requires Recorded(Later(log, r.now - l.Length()), s.members)
    ensures var (s', ok, count) := Decide(l, s.deadline, Later(log, r.now - l.Length()), r);
            && Mirrors(l, s'.members, if ok then log[r.member := r.now] else log, r.now)
            && Alive(l, rs + [r], s')
  {
    var kept := Later(log, r.now - l.Length());
    KeptMirrors(l, log, r.now);
    if |kept| < l.limit {
      AddMirrors(l, kept, log, r.now, r.member);
      assert r in rs + [r] && NoLater(kept[r.member := r.now], r.now);
    } else if m :| m in kept {
      assert m in s.members;
      var x :| x in rs && s.deadline == x.redisAt + l.KeyLife() && NoLater(s.members, x.now);
      assert x in rs + [r] && NoLater(kept, x.now);
    }
  }

  lemma StepMirrors(l: Limit, rs: seq<Request>, s: Store, log: map<Member, nat>, now: nat, r: Request,
                    atInstant: bool)
    requires Mirrors(l, s.members, log, now) && Alive(l, rs, s) && now <= r.now
    requires forall x :: x in rs ==> r.Lag() - x.Lag() <= Tolerance(atInstant)
    ensures var (s', ok, count) := Eval(l, s, r, atInstant);
            && Mirrors(l, s'.members, if ok then log[r.member := r.now] else log, r.now)
            && Alive(l, rs + [r], s')
  {
    ExpiryHidesNothing(l, rs, s, log, now, r, atInstant);
    LaterIsRecorded(l, s.members, log, now, r.now);
    DecideMirrors(l, rs, s, log, r);
    assert Eval(l, s, r, atInstant) == Decide(l, s.deadline, Later(log, r.now - l.Length()), r);
  }

  function LastNow(rs: seq<Request>): nat {
    if rs == [] then 0 else rs[|rs| - 1].now
  }

  lemma {:induction false} RunMirrors(l: Limit, rs: seq<Request>, atInstant: bool)
    requires Regular(rs, Tolerance(atInstant))
    ensures Mirrors(l, After(l, rs, atInstant).members, Admitted(l, rs, atInstant), LastNow(rs))
    ensures Alive(l, rs, After(l, rs, atInstant))
    ensures forall m :: m in Admitted(l, rs, atInstant) ==> exists x :: x in rs && x.member == m
  {
    if rs == [] {
    } else {
      var front, r := rs[..|rs| - 1], rs[|rs| - 1];
      assert rs == front + [r];
      RegularFront(front, r, Tolerance(atInstant));
      RunMirrors(l, front, atInstant);
      StepMirrors(l, front, After(l, front, atInstant), Admitted(l, front, atInstant), LastNow(front), r, atInstant);
    }
  }

  // ---------------------------------------------------------------- the limit is exact

  lemma LaterIsWithin(log: map<Member, nat>, from: int, to: nat)
    requires NoLater(log, to)
    ensures |Later(log, from)| == |Within(log, from, to)|
  {
    assert Later(log, from).Keys == Within(log, from, to);
    assert |Later(log, from)| == |Later(log, from).Keys|;
  }

  // A request passes exactly when fewer than `limit` requests passed in (now - window, now], whether
  // or not the key has expired; and the count it is told is theirs, its own included.
  lemma PassesExactlyBelowLimit(l: Limit, rs: seq<Request>, r: Request, atInstant: bool)
    requires Regular(rs + [r], Tolerance(atInstant))
    ensures var recent := |Within(Admitted(l, rs, atInstant), r.now - l.Length(), r.now)|;
            var (s, ok, count) := Eval(l, After(l, rs, atInstant), r, atInstant);
            (ok <==> recent < l.limit) && count == if ok then recent + 1 else recent
    ensures NoLater(Admitted(l, rs, atInstant), r.now)
  {
    RegularFront(rs, r, Tolerance(atInstant));
    RunMirrors(l, rs, atInstant);
    assert LastNow(rs) <= r.now by {
      assert rs != [] ==> rs[|rs| - 1] in rs;
    }
    MirroredDecision(l, rs, After(l, rs, atInstant), Admitted(l, rs, atInstant), LastNow(rs), r, atInstant);
  }

  lemma MirroredDecision(l: Limit, rs: seq<Request>, s: Store, log: map<Member, nat>, now: nat, r: Request,
                         atInstant: bool)
    requires Mirrors(l, s.members, log, now) && Alive(l, rs, s) && now <= r.now
    requires forall x :: x in rs ==> r.Lag() - x.Lag() <= Tolerance(atInstant)
    ensures var recent := |Within(log, r.now - l.Length(), r.now)|;
            var (s', ok, count) := Eval(l, s, r, atInstant);
            (ok <==> recent < l.limit) && count == if ok then recent + 1 else recent
    ensures NoLater(log, r.now)
  {
    ExpiryHidesNothing(l, rs, s, log, now, r, atInstant);
    LaterIsWithin(log, r.now - l.Length(), r.now);
  }

  // So the two readings of key expiry, and no expiry at all, give the same answers on every run.
  lemma {:induction false} ExpiryNeverShows(l: Limit, rs: seq<Request>, r: Request)
    requires Regular(rs + [r], Tolerance(true))
    ensures Passes(l, rs, r, true) == Passes(l, rs, r, false)
    ensures Admitted(l, rs, true) == Admitted(l, rs, false)
    decreases |rs|
  {
    RegularFront(rs, r, Tolerance(true));
    if rs == [] {
    } else {
      var front, last := rs[..|rs| - 1], rs[|rs| - 1];
      assert rs == front + [last];
      ExpiryNeverShows(l, front, last);
    }
    PassesExactlyBelowLimit(l, rs, r, true);
    PassesExactlyBelowLimit(l, rs, r, false);
  }

  lemma WithinAfterOne(log: map<Member, nat>, m: Member, now: nat, from: int, to: int, cut: int)
    requires NoLater(log, now) && now <= to && cut <= from
    ensures |Within(log[m := now], from, to)| <= |Within(log, cut, now)| + 1
  {
    SubsetIsSmaller(Within(log[m := now], from, to), Within(log, cut, now) + {m});
  }

  // Every window-long interval of every run, wherever it lies, holds at most `limit` admissions.
  lemma {:induction false} WindowBound(l: Limit, rs: seq<Request>, atInstant: bool, end: int)
    requires Regular(rs, Tolerance(atInstant))
    ensures |Within(Admitted(l, rs, atInstant), end - l.Length(), end)| <= l.limit
  {
    if rs == [] {
      assert Within(map[], end - l.Length(), end) == {};
    } else {
      var front, r := rs[..|rs| - 1], rs[|rs| - 1];
      assert rs == front + [r];
      RegularFront(front, r, Tolerance(atInstant));
      WindowBound(l, front, atInstant, end);
      PassesExactlyBelowLimit(l, front, r, atInstant);
      OneMoreStaysBelow(l, Admitted(l, front, atInstant), r, end);
    }
  }

  lemma OneMoreStaysBelow(l: Limit, log: map<Member, nat>, r: Request, end: int)
    requires NoLater(log, r.now)
    requires |Within(log, end - l.Length(), end)| <= l.limit
    ensures |Within(log, r.now - l.Length(), r.now)| < l.limit ==>
              |Within(log[r.member := r.now], end - l.Length(), end)| <= l.limit
  {
    if r.now <= end {
      WithinAfterOne(log, r.member, r.now, end - l.Length(), end, r.now - l.Length());
    } else {
      SubsetIsSmaller(Within(log[r.member := r.now], end - l.Length(), end), Within(log, end - l.Length(), end));
    }
  }

  // ---------------------------------------------------------------- how much drift is borne

  // The answer to a request that comes after `rs` is what the limit says.
  ghost predicate AnswerIsExact(l: Limit, rs: seq<Request>, r: Request, atInstant: bool) {
    Passes(l, rs, r, atInstant) <==> |Within(Admitted(l, rs, atInstant), r.now - l.Length(), r.now)| < l.limit
  }

  // So is every answer of every run in which the clocks drift by at most `drift`.
  ghost predicate AnswersExactly(l: Limit, drift: nat, atInstant: bool) {
    forall rs: seq<Request>, r: Request :: Regular(rs + [r], drift) ==> AnswerIsExact(l, rs, r, atInstant)
  }

  function Name(i: nat): (m: Member)
    ensures |m| == i
  {
    seq(i, _ => 'm')
  }

  // `n` requests at time zero, and the log when all of them pass.
  function Burst(n: nat): seq<Request> {
    if n == 0 then [] else Burst(n - 1) + [Request(0, 0, Name(n - 1))]
  }

  function BurstLog(n: nat): map<Member, nat> {
    if n == 0 then map[] else BurstLog(n - 1)[Name(n - 1) := 0]
  }

  lemma {:induction false} BurstIs(n: nat)
    ensures |Burst(n)| == n && forall i :: 0 <= i < n ==> Burst(n)[i] == Request(0, 0, Name(i))
    ensures |BurstLog(n)| == n && forall m :: m in BurstLog(n) ==> |m| < n && BurstLog(n)[m] == 0
  {
    if n == 0 {
    } else {
      BurstIs(n - 1);
      assert Name(n - 1) !in BurstLog(n - 1);
    }
  }

  lemma NothingIsLater(members: map<Member, nat>, cut: int)
    requires cut < 0
    ensures Later(members, cut) == members
  {
  }

  lemma EarlyRequestPasses(l: Limit, s: Store, m: Member, atInstant: bool)
    requires |s.members| < l.limit && l.window >= 1 && (s.deadline > 0 || s.members == map[])
    ensures var (s', ok, count) := Eval(l, s, Request(0, 0, m), atInstant);
            ok && s' == Store(s.members[m := 0], l.KeyLife())
  {
    NothingIsLater(s.members, 0 - l.Length());
    assert Unexpired(s, 0, atInstant) == s.members;
  }

  lemma {:induction false} BurstPasses(l: Limit, n: nat, atInstant: bool)
    requires n <= l.limit && l.window >= 1
    ensures After(l, Burst(n), atInstant) == Store(BurstLog(n), if n == 0 then 0 else l.KeyLife())
    ensures Admitted(l, Burst(n), atInstant) == BurstLog(n)
  {
    if n == 0 {
    } else {
      assert Burst(n)[..|Burst(n)| - 1] == Burst(n - 1);
      BurstPasses(l, n - 1, atInstant);
      BurstIs(n - 1);
      EarlyRequestPasses(l, After(l, Burst(n - 1), atInstant), Name(n - 1), atInstant);
    }
  }

  // The request that finds the key gone although the window still holds the whole burst.
  function Latecomer(l: Limit, atInstant: bool): Request
    requires l.window >= 1
  {
    Request(l.Length() - 1, l.KeyLife() + if atInstant then 0 else 1, Name(l.limit))
  }

  lemma LatecomerIsRegular(l: Limit, atInstant: bool)
    requires l.window >= 1
    ensures Regular(Burst(l.limit) + [Latecomer(l, atInstant)], Tolerance(atInstant) + 1)
  {
    BurstIs(l.limit);
    var all := Burst(l.limit) + [Latecomer(l, atInstant)];
    forall i, j | 0 <= i < j < |all|
      ensures all[i].member != all[j].member && all[i].now <= all[j].now
      ensures all[j].Lag() - all[i].Lag() <= Tolerance(atInstant) + 1
    {
      assert |all[i].member| == i && |all[j].member| == j;
    }
  }

  lemma LatecomerSlipsIn(l: Limit, atInstant: bool)
    requires l.limit >= 1 && l.window >= 1
    ensures var r := Latecomer(l, atInstant);
            && Passes(l, Burst(l.limit), r, atInstant)
            && |Within(Admitted(l, Burst(l.limit), atInstant), r.now - l.Length(), r.now)| == l.limit
  {
    var r := Latecomer(l, atInstant);
    var log := BurstLog(l.limit);
    BurstIs(l.limit);
    BurstPasses(l, l.limit, atInstant);
    assert Unexpired(Store(log, l.KeyLife()), r.redisAt, atInstant) == map[];
    assert Later(map[], r.now - l.Length()) == map[];
    assert Within(log, r.now - l.Length(), r.now) == log.Keys;
    assert |log.Keys| == |log|;
  }

  lemma RegularWithLess(rs: seq<Request>, less: nat, more: nat)
    requires less <= more && Regular(rs, less)
    ensures Regular(rs, more)
  {
  }

  lemma TooMuchDrift(l: Limit, drift: nat, atInstant: bool)
    requires l.limit >= 1 && l.window >= 1 && drift > Tolerance(atInstant)
    ensures !AnswersExactly(l, drift, atInstant)
  {
    var rs, r := Burst(l.limit), Latecomer(l, atInstant);
    LatecomerIsRegular(l, atInstant);
    LatecomerSlipsIn(l, atInstant);
    RegularWithLess(rs + [r], Tolerance(atInstant) + 1, drift);
    assert !AnswerIsExact(l, rs, r, atInstant);
  }

  // A window of no length holds nothing, and a limit of zero lets nothing pass.
  lemma DegenerateIsExact(l: Limit, rs: seq<Request>, r: Request, drift: nat, atInstant: bool)
    requires l.limit == 0 || l.window == 0
    requires Regular(rs + [r], drift)
    ensures AnswerIsExact(l, rs, r, atInstant)
  {
    if l.limit > 0 {
      RegularFront(rs, r, drift);
      NothingOutlives(l, rs, atInstant, r.now);
      assert Within(Admitted(l, rs, atInstant), r.now, r.now) == {};
      assert Later(Unexpired(After(l, rs, atInstant), r.redisAt, atInstant), r.now) == map[];
    }
  }

  lemma {:induction false} NothingOutlives(l: Limit, rs: seq<Request>, atInstant: bool, now: nat)
    requires forall x :: x in rs ==> x.now <= now
    ensures NoLater(After(l, rs, atInstant).members, now)
  {
    if rs == [] {
    } else {
      NothingOutlives(l, rs[..|rs| - 1], atInstant, now);
    }
  }

  lemma DriftIsBorne(l: Limit, drift: nat, atInstant: bool)
    requires drift <= Tolerance(atInstant) || l.limit == 0 || l.window == 0
    ensures AnswersExactly(l, drift, atInstant)
  {
    forall rs: seq<Request>, r: Request | Regular(rs + [r], drift) ensures AnswerIsExact(l, rs, r, atInstant) {
      if l.limit == 0 || l.window == 0 {
        DegenerateIsExact(l, rs, r, drift, atInstant);
      } else {
        RegularWithLess(rs + [r], drift, Tolerance(atInstant));
        PassesExactlyBelowLimit(l, rs, r, atInstant);
      }
    }
  }

  // The ten seconds are exactly what it takes: every answer of every run is exact if and only if the
  // clocks drift by no more than that, or there is nothing to limit.
  lemma SlackIsExact(l: Limit, drift: nat, atInstant: bool)
    ensures AnswersExactly(l, drift, atInstant)
            <==> drift <= Tolerance(atInstant) || l.limit == 0 || l.window == 0
  {
    if drift <= Tolerance(atInstant) || l.limit == 0 || l.window == 0 {
      DriftIsBorne(l, drift, atInstant);
    } else {
      TooMuchDrift(l, drift, atInstant);
    }
  }
}
