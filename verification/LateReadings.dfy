/**
 The sliding window when scripts do not run in the order of their clock readings.  PHP reads `now` before
 it calls the script, so of two workers the one that read first may be served last.  If readings come at
 most `late` milliseconds out of order, every interval shorter than the window by that much still holds
 at most `limit` admissions.
 */
module LateReadings {
  import opened Collections
  import opened SlidingWindow

  // Members differ, no request is more than `late` behind an earlier one, Redis's own clock never goes
  // back, and the two clocks drift no more than the script bears.
  ghost predicate Nearly(rs: seq<Request>, late: nat, atInstant: bool) {
    && (forall i, j :: 0 <= i < j < |rs| ==> rs[i].member != rs[j].member)
    && (forall i, j :: 0 <= i < j < |rs| ==> rs[i].now <= rs[j].now + late)
    && (forall i, j :: 0 <= i < j < |rs| ==> rs[i].redisAt <= rs[j].redisAt)
    && (forall i, j :: 0 <= i < j < |rs| ==> rs[j].Lag() - rs[i].Lag() <= Tolerance(atInstant))
  }

  lemma NearlyFront(rs: seq<Request>, r: Request, late: nat, atInstant: bool)
    requires Nearly(rs + [r], late, atInstant)
    ensures Nearly(rs, late, atInstant)
    ensures forall i :: 0 <= i < |rs| ==>
              && rs[i].member != r.member && rs[i].now <= r.now + late && rs[i].redisAt <= r.redisAt
              && r.Lag() - rs[i].Lag() <= Tolerance(atInstant)
  {
    var all := rs + [r];
    assert all[|rs|] == r && forall i :: 0 <= i < |rs| ==> all[i] == rs[i];
  }

  // The latest reading so far.
  function HighNow(rs: seq<Request>): nat {
    if rs == [] then 0
    else
      var high, now := HighNow(rs[..|rs| - 1]), rs[|rs| - 1].now;
      if high >= now then high else now
  }

  lemma {:induction false} HighNowIs(rs: seq<Request>, bound: nat)
    requires forall i :: 0 <= i < |rs| ==> rs[i].now <= bound
    ensures HighNow(rs) <= bound
  {
    if rs == [] {
    } else {
      HighNowIs(rs[..|rs| - 1], bound);
    }
  }

  lemma HighNowSnoc(rs: seq<Request>, r: Request)
    ensures HighNow(rs + [r]) == if HighNow(rs) >= r.now then HighNow(rs) else r.now
  {
    assert (rs + [r])[..|rs|] == rs;
  }

  // ---------------------------------------------------------------- what the set has lost

  // The set is part of the log, and misses only what the latest reading's window has outlived.
  ghost predicate Keeps(l: Limit, members: map<Member, nat>, log: map<Member, nat>, high: nat) {
    && (forall m :: m in members ==> m in log && members[m] == log[m])
    && (forall m :: m in log && m !in members ==> log[m] <= high - l.Length())
  }

  // The `i`-th request asked under the name `m` at `now`.
  predicate AskedAt(rs: seq<Request>, i: nat, m: Member, now: nat) {
    i < |rs| && rs[i].member == m && rs[i].now == now
  }

  // The key was last given its life by request `last`, and what the set holds was asked no later.
  ghost predicate GivenBy(l: Limit, rs: seq<Request>, s: Store, last: nat) {
    && last < |rs| && s.deadline == rs[last].redisAt + l.KeyLife()
    && forall m :: m in s.members ==> exists i: nat :: i <= last && AskedAt(rs, i, m, s.members[m])
  }

  ghost predicate Lives(l: Limit, rs: seq<Request>, s: Store) {
    s.members != map[] ==> exists last: nat :: GivenBy(l, rs, s, last)
  }

  lemma OutlivedByLag(l: Limit, y: Request, deadline: nat, r: Request, atInstant: bool)
    requires y.redisAt + l.KeyLife() <= deadline && r.Lag() - y.Lag() <= Tolerance(atInstant)
    requires deadline < r.redisAt || (atInstant && deadline == r.redisAt)
    ensures y.now <= r.now - l.Length()
  {
  }

  // A key that has expired held nothing that the window had not outlived.
  lemma ExpiredWasOld(l: Limit, rs: seq<Request>, s: Store, r: Request, late: nat, atInstant: bool, m: Member)
    requires Nearly(rs + [r], late, atInstant) && Lives(l, rs, s) && m in s.members
    requires Unexpired(s, r.redisAt, atInstant) != s.members
    ensures s.members[m] <= r.now - l.Length()
  {
    NearlyFront(rs, r, late, atInstant);
    var last: nat :| GivenBy(l, rs, s, last);
    var i: nat :| i <= last && AskedAt(rs, i, m, s.members[m]);
    assert i < last ==> rs[i].redisAt <= rs[last].redisAt;
    OutlivedByLag(l, rs[i], s.deadline, r, atInstant);
  }

  // What is left of the set when the script has trimmed it.
  function Trimmed(l: Limit, s: Store, r: Request, atInstant: bool): map<Member, nat> {
    Later(Unexpired(s, r.redisAt, atInstant), r.now - l.Length())
  }

  lemma TrimmedWasOld(l: Limit, rs: seq<Request>, s: Store, r: Request, late: nat, atInstant: bool, m: Member)
    requires Nearly(rs + [r], late, atInstant) && Lives(l, rs, s)
    requires m in s.members && m !in Trimmed(l, s, r, atInstant)
    ensures s.members[m] <= r.now - l.Length()
  {
    if Unexpired(s, r.redisAt, atInstant) != s.members {
      ExpiredWasOld(l, rs, s, r, late, atInstant, m);
    }
  }

  lemma KeepsAfterExpiry(l: Limit, rs: seq<Request>, s: Store, log: map<Member, nat>, r: Request, late: nat,
                         atInstant: bool, high: nat, high': nat)
    requires Nearly(rs + [r], late, atInstant) && Lives(l, rs, s) && Keeps(l, s.members, log, high)
    requires high <= high' && r.now <= high'
    ensures Keeps(l, Trimmed(l, s, r, atInstant), log, high')
    ensures Recorded(Trimmed(l, s, r, atInstant), s.members)
  {
    forall m | m in log && m !in Trimmed(l, s, r, atInstant) ensures log[m] <= high' - l.Length() {
      if m in s.members {
        TrimmedWasOld(l, rs, s, r, late, atInstant, m);
      }
    }
  }

  lemma StillAsked(rs: seq<Request>, r: Request, i: nat, m: Member, now: nat)
    requires AskedAt(rs, i, m, now)
    ensures AskedAt(rs + [r], i, m, now)
  {
  }

  lemma RefusedLives(l: Limit, rs: seq<Request>, s: Store, r: Request, kept: map<Member, nat>)
    requires Lives(l, rs, s) && Recorded(kept, s.members)
    ensures Lives(l, rs + [r], Store(kept, s.deadline))
  {
    if kept != map[] {
      var k :| k in kept;
      assert k in s.members;
      var last: nat :| GivenBy(l, rs, s, last);
      forall m | m in kept ensures exists i: nat :: i <= last && AskedAt(rs + [r], i, m, kept[m]) {
        var i: nat :| i <= last && AskedAt(rs, i, m, s.members[m]);
        StillAsked(rs, r, i, m, kept[m]);
      }
      assert GivenBy(l, rs + [r], Store(kept, s.deadline), last);
    }
  }

  lemma AdmittedLives(l: Limit, rs: seq<Request>, s: Store, r: Request, kept: map<Member, nat>)
    requires Lives(l, rs, s) && Recorded(kept, s.members)
    ensures Lives(l, rs + [r], Store(kept[r.member := r.now], r.redisAt + l.KeyLife()))
  {
    var members := kept[r.member := r.now];
    forall m | m in members ensures exists i: nat :: i <= |rs| && AskedAt(rs + [r], i, m, members[m]) {
      if m == r.member {
        assert AskedAt(rs + [r], |rs|, m, r.now);
      } else {
        assert m in s.members;
        var last: nat :| GivenBy(l, rs, s, last);
        var i: nat :| i <= last && AskedAt(rs, i, m, s.members[m]);
        StillAsked(rs, r, i, m, kept[m]);
      }
    }
    assert GivenBy(l, rs + [r], Store(members, r.redisAt + l.KeyLife()), |rs|);
  }

  lemma KeepsMore(l: Limit, kept: map<Member, nat>, log: map<Member, nat>, high: nat, m: Member, now: nat)
    requires Keeps(l, kept, log, high)
    ensures Keeps(l, kept[m := now], log[m := now], high)
  {
  }

  lemma Decided(l: Limit, s: Store, r: Request, atInstant: bool)
    ensures var kept := Trimmed(l, s, r, atInstant);
            && (Eval(l, s, r, atInstant).1 <==> |kept| < l.limit)
            && Eval(l, s, r, atInstant).0
               == if |kept| < l.limit then Store(kept[r.member := r.now], r.redisAt + l.KeyLife())
                  else Store(kept, s.deadline)
  {
  }

  lemma EvalKeeps(l: Limit, rs: seq<Request>, s: Store, log: map<Member, nat>, r: Request, atInstant: bool, high: nat)
    requires Lives(l, rs, s) && Recorded(Trimmed(l, s, r, atInstant), s.members)
    requires Keeps(l, Trimmed(l, s, r, atInstant), log, high)
    ensures var next := Eval(l, s, r, atInstant);
            && Keeps(l, next.0.members, if next.1 then log[r.member := r.now] else log, high)
            && Lives(l, rs + [r], next.0)
  {
    var kept := Trimmed(l, s, r, atInstant);
    Decided(l, s, r, atInstant);
    if |kept| < l.limit {
      KeepsMore(l, kept, log, high, r.member, r.now);
      AdmittedLives(l, rs, s, r, kept);
    } else {
      RefusedLives(l, rs, s, r, kept);
    }
  }

  lemma StepKeeps(l: Limit, rs: seq<Request>, s: Store, log: map<Member, nat>, r: Request, late: nat, atInstant: bool)
    requires Nearly(rs + [r], late, atInstant) && Lives(l, rs, s) && Keeps(l, s.members, log, HighNow(rs))
    ensures var next := Eval(l, s, r, atInstant);
            && Keeps(l, next.0.members, if next.1 then log[r.member := r.now] else log, HighNow(rs + [r]))
            && Lives(l, rs + [r], next.0)
  {
    HighNowSnoc(rs, r);
    KeepsAfterExpiry(l, rs, s, log, r, late, atInstant, HighNow(rs), HighNow(rs + [r]));
    EvalKeeps(l, rs, s, log, r, atInstant, HighNow(rs + [r]));
  }

  lemma {:induction false} RunKeeps(l: Limit, rs: seq<Request>, late: nat, atInstant: bool)
    requires Nearly(rs, late, atInstant)
    ensures Keeps(l, After(l, rs, atInstant).members, Admitted(l, rs, atInstant), HighNow(rs))
    ensures Lives(l, rs, After(l, rs, atInstant))
  {
    if rs == [] {
    } else {
      var front, r := rs[..|rs| - 1], rs[|rs| - 1];
      assert rs == front + [r];
      NearlyFront(front, r, late, atInstant);
      RunKeeps(l, front, late, atInstant);
      StepKeeps(l, front, After(l, front, atInstant), Admitted(l, front, atInstant), r, late, atInstant);
    }
  }

  // ---------------------------------------------------------------- the bound

  lemma IntervalIsKept(l: Limit, kept: map<Member, nat>, log: map<Member, nat>, high: nat, from: int, to: int)
    requires Keeps(l, kept, log, high) && high - l.Length() <= from
    ensures |Within(log, from, to)| <= |kept|
  {
    assert Within(log, from, to) <= kept.Keys;
    SubsetIsSmaller(Within(log, from, to), kept.Keys);
    assert |kept.Keys| == |kept|;
  }

  // When a request is served, the set still holds all that is later than the window before the latest
  // reading there can have been.
  lemma TrimmedKeeps(l: Limit, rs: seq<Request>, r: Request, late: nat, atInstant: bool)
    requires Nearly(rs + [r], late, atInstant)
    ensures Keeps(l, Trimmed(l, After(l, rs, atInstant), r, atInstant), Admitted(l, rs, atInstant), r.now + late)
  {
    NearlyFront(rs, r, late, atInstant);
    RunKeeps(l, rs, late, atInstant);
    HighNowIs(rs, r.now + late);
    KeepsAfterExpiry(l, rs, After(l, rs, atInstant), Admitted(l, rs, atInstant), r, late, atInstant,
                     HighNow(rs), r.now + late);
  }

  lemma OneMore(log: map<Member, nat>, m: Member, now: nat, from: int, to: int)
    ensures |Within(log[m := now], from, to)| <= |Within(log, from, to)| + if from < now <= to then 1 else 0
  {
    SubsetIsSmaller(Within(log[m := now], from, to),
                    Within(log, from, to) + if from < now <= to then {m} else {});
  }

  lemma AdmittedStep(l: Limit, rs: seq<Request>, r: Request, atInstant: bool)
    ensures Admitted(l, rs + [r], atInstant)
            == if Passes(l, rs, r, atInstant) then Admitted(l, rs, atInstant)[r.member := r.now]
               else Admitted(l, rs, atInstant)
  {
    assert (rs + [r])[..|rs|] == rs;
  }

  // A request that passes inside the interval found fewer than `limit` of it in the set.
  lemma OneMoreFits(l: Limit, rs: seq<Request>, r: Request, atInstant: bool, high: nat, from: int, to: int)
    requires |Within(Admitted(l, rs, atInstant), from, to)| <= l.limit
    requires Keeps(l, Trimmed(l, After(l, rs, atInstant), r, atInstant), Admitted(l, rs, atInstant), high)
    requires r.now <= to ==> high - l.Length() <= from
    ensures |Within(Admitted(l, rs + [r], atInstant), from, to)| <= l.limit
  {
    var s, log := After(l, rs, atInstant), Admitted(l, rs, atInstant);
    AdmittedStep(l, rs, r, atInstant);
    Decided(l, s, r, atInstant);
    if Passes(l, rs, r, atInstant) {
      OneMore(log, r.member, r.now, from, to);
      if r.now <= to {
        IntervalIsKept(l, Trimmed(l, s, r, atInstant), log, high, from, to);
      }
    }
  }

  lemma LateStep(l: Limit, rs: seq<Request>, r: Request, late: nat, atInstant: bool, from: int, to: int)
    requires Nearly(rs + [r], late, atInstant) && to == from + l.Length() - late
    requires |Within(Admitted(l, rs, atInstant), from, to)| <= l.limit
    ensures |Within(Admitted(l, rs + [r], atInstant), from, to)| <= l.limit
  {
    TrimmedKeeps(l, rs, r, late, atInstant);
    OneMoreFits(l, rs, r, atInstant, r.now + late, from, to);
  }

  // Every interval shorter than the window by the lateness holds at most `limit` admissions.
  lemma {:induction false} LateWindowBound(l: Limit, rs: seq<Request>, late: nat, atInstant: bool, from: int, to: int)
    requires Nearly(rs, late, atInstant) && to == from + l.Length() - late
    ensures |Within(Admitted(l, rs, atInstant), from, to)| <= l.limit
  {
    if rs == [] {
      assert Within(map[], from, to) == {};
    } else {
      var front, r := rs[..|rs| - 1], rs[|rs| - 1];
      assert rs == front + [r];
      NearlyFront(front, r, late, atInstant);
      LateWindowBound(l, front, late, atInstant, from, to);
      LateStep(l, front, r, late, atInstant, from, to);
    }
  }

  // ---------------------------------------------------------------- the whole window can overflow

  // A full burst, a request when it is just outlived, and one that read its clock a millisecond before.
  function Outlived(l: Limit): seq<Request> {
    Burst(l.limit) + [Request(l.Length(), l.Length(), Name(l.limit))]
  }

  function Behind(l: Limit): Request
    requires l.window >= 1
  {
    Request(l.Length() - 1, l.Length(), Name(l.limit + 1))
  }

  function Swapped(l: Limit): seq<Request>
    requires l.window >= 1
  {
    Outlived(l) + [Behind(l)]
  }

  lemma SwappedAre(l: Limit, i: nat)
    requires l.window >= 1 && i < l.limit + 2
    ensures |Swapped(l)| == l.limit + 2 && |Swapped(l)[i].member| == i
    ensures Swapped(l)[i].now
            == if i < l.limit then 0 else if i == l.limit then l.Length() else l.Length() - 1
    ensures Swapped(l)[i].redisAt == if i < l.limit then 0 else l.Length()
  {
    BurstIs(l.limit);
  }

  lemma SwappedIsNearly(l: Limit, atInstant: bool)
    requires l.window >= 1
    ensures Nearly(Swapped(l), 1, atInstant)
  {
    SwappedAre(l, 0);
    var rs := Swapped(l);
    forall i, j | 0 <= i < j < |rs|
      ensures rs[i].member != rs[j].member && rs[i].now <= rs[j].now + 1 && rs[i].redisAt <= rs[j].redisAt
      ensures rs[j].Lag() - rs[i].Lag() <= Tolerance(atInstant)
    {
      SwappedAre(l, i);
      SwappedAre(l, j);
    }
  }

  lemma OutlivedBurst(l: Limit, atInstant: bool)
    requires l.limit >= 2 && l.window >= 1
    ensures After(l, Outlived(l), atInstant) == Store(map[Name(l.limit) := l.Length()], l.Length() + l.KeyLife())
    ensures Admitted(l, Outlived(l), atInstant) == BurstLog(l.limit)[Name(l.limit) := l.Length()]
  {
    var burst, r := Burst(l.limit), Request(l.Length(), l.Length(), Name(l.limit));
    BurstIs(l.limit);
    BurstPasses(l, l.limit, atInstant);
    assert Trimmed(l, After(l, burst, atInstant), r, atInstant) == map[];
    assert Passes(l, burst, r, atInstant);
    AdmittedStep(l, burst, r, atInstant);
    assert (burst + [r])[..|burst|] == burst;
  }

  lemma LatecomerPasses(l: Limit, first: seq<Request>, r: Request, atInstant: bool)
    requires l.limit >= 2 && l.window >= 1 && |After(l, first, atInstant).members| == 1
    requires r.now < l.Length() && r.redisAt < After(l, first, atInstant).deadline
    ensures Passes(l, first, r, atInstant)
  {
    NothingIsLater(After(l, first, atInstant).members, r.now - l.Length());
  }

  lemma FullWindow(log: map<Member, nat>, n: nat, first: Member, length: nat, second: Member, now: nat)
    requires now == length - 1 && |log| == n && (forall m :: m in log ==> log[m] == 0)
    requires first !in log && second !in log && first != second
    ensures |Within(log[first := length][second := now], -1, now)| == n + 1
  {
    assert Within(log[first := length][second := now], -1, now) == log.Keys + {second};
    assert |log.Keys| == |log|;
  }

  lemma LateOneAdmitted(l: Limit, first: seq<Request>, r: Request, log: map<Member, nat>, atInstant: bool)
    requires l.limit >= 2 && l.window >= 1 && |After(l, first, atInstant).members| == 1
    requires r.now < l.Length() && r.redisAt < After(l, first, atInstant).deadline
    requires Admitted(l, first, atInstant) == log
    ensures Admitted(l, first + [r], atInstant) == log[r.member := r.now]
  {
    LatecomerPasses(l, first, r, atInstant);
    AdmittedStep(l, first, r, atInstant);
  }

  lemma SwappedFillsUp(l: Limit, first: seq<Request>, r: Request, burst: map<Member, nat>, m: Member, n: nat,
                       atInstant: bool)
    requires l.limit >= 2 && l.window >= 1 && |After(l, first, atInstant).members| == 1
    requires r.now == l.Length() - 1 && r.redisAt < After(l, first, atInstant).deadline
    requires Admitted(l, first, atInstant) == burst[m := l.Length()]
    requires |burst| == n && (forall x :: x in burst ==> burst[x] == 0)
    requires m !in burst && r.member !in burst && m != r.member
    ensures |Within(Admitted(l, first + [r], atInstant), -1, r.now)| == n + 1
  {
    FullWindow(burst, n, m, l.Length(), r.member, r.now);
    LateOneAdmitted(l, first, r, burst[m := l.Length()], atInstant);
  }

  lemma BurstLogIsNew(n: nat)
    ensures |BurstLog(n)| == n && (forall x :: x in BurstLog(n) ==> BurstLog(n)[x] == 0)
    ensures Name(n) !in BurstLog(n) && Name(n + 1) !in BurstLog(n) && Name(n) != Name(n + 1)
  {
    BurstIs(n);
    assert |Name(n)| != |Name(n + 1)|;
  }

  lemma OutlivedIs(l: Limit, atInstant: bool)
    requires l.limit >= 2 && l.window >= 1
    ensures |After(l, Outlived(l), atInstant).members| == 1 && After(l, Outlived(l), atInstant).deadline > l.Length()
    ensures Admitted(l, Outlived(l), atInstant) == BurstLog(l.limit)[Name(l.limit) := l.Length()]
  {
    OutlivedBurst(l, atInstant);
  }

  lemma SwappedOverflows(l: Limit, atInstant: bool)
    requires l.limit >= 2 && l.window >= 1
    ensures |Within(Admitted(l, Outlived(l) + [Behind(l)], atInstant), -1, l.Length() - 1)| == l.limit + 1
  {
    OutlivedIs(l, atInstant);
    BurstLogIsNew(l.limit);
    SwappedFillsUp(l, Outlived(l), Behind(l), BurstLog(l.limit), Name(l.limit), l.limit, atInstant);
  }

  // Two readings that differ by a millisecond and are served in the wrong order let one request too many
  // into a window, for every limit of at least two.
  lemma LateWindowOverflows(l: Limit, atInstant: bool)
    requires l.limit >= 2 && l.window >= 1
    ensures Nearly(Swapped(l), 1, atInstant)
    ensures |Within(Admitted(l, Swapped(l), atInstant), -1, l.Length() - 1)| == l.limit + 1
  {
    SwappedIsNearly(l, atInstant);
    SwappedOverflows(l, atInstant);
  }
}
