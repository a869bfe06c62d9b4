/**
 The distributed lock over Redis `SET NX PX` (`ecat-data-redis`): a lease with an owner's token
 and an expiry.  Times are milliseconds of Redis's clock.  A command takes effect when Redis runs
 it; its reply may reach the client at any later time, so runs speak of effects only.
 */
module RedisLock {
  type Key = string
  type Token = string

  const U64_MAX: nat := 0xFFFF_FFFF_FFFF_FFFF
  const I64_MAX: nat := 0x7FFF_FFFF_FFFF_FFFF

  datatype Lease = Lease(token: Token, expireAt: nat) {
    // Whether a key is gone at its very expiry instant or only after it is left open.
    predicate Runs(now: nat, atInstant: bool) {
      now < expireAt || (now == expireAt && !atInstant)
    }
  }

  type Leases = map<Key, Lease>

  // A duration in nanoseconds as the PX argument, clamped to 64 bits.
  function Millis(ttl: nat): nat {
    if ttl / 1_000_000 > U64_MAX then U64_MAX else ttl / 1_000_000
  }

  // Redis refuses a zero expiry and one beyond its signed 64-bit clock.
  predicate Refused(px: nat, now: nat) {
    px == 0 || now + px > I64_MAX
  }

  function Present(s: Leases, now: nat, atInstant: bool): Leases {
    map k | k in s && s[k].Runs(now, atInstant) :: s[k]
  }

  datatype Reply = Granted(token: Token) | Held | Failed

  function Acquire(s: Leases, k: Key, token: Token, ttl: nat, now: nat, atInstant: bool): (Leases, Reply) {
    var present := Present(s, now, atInstant);
    if Refused(Millis(ttl), now) then (present, Failed)
    else if k in present then (present, Held)
    else (present[k := Lease(token, now + Millis(ttl))], Granted(token))
  }

  function Release(s: Leases, k: Key, token: Token, now: nat, atInstant: bool): Leases {
    var present := Present(s, now, atInstant);
    if k in present && present[k].token == token then present - {k} else present
  }

  class RedisServer {
    var leases: Leases

    constructor ()
      ensures leases == map[]
    {
      leases := map[];
    }

    method AcquireLock(k: Key, token: Token, ttl: nat, now: nat, atInstant: bool) returns (reply: Reply)
      modifies this
      ensures (leases, reply) == Acquire(old(leases), k, token, ttl, now, atInstant)
    {
      leases := Present(leases, now, atInstant);
      var millis := ttl / 1_000_000;
      var px := if millis > U64_MAX then U64_MAX else millis;
      if Refused(px, now) {
        return Failed;
      }
      if k in leases {
        return Held;
      }
      leases := leases[k := Lease(token, now + px)];
      return Granted(token);
    }

    method ReleaseLock(k: Key, token: Token, now: nat, atInstant: bool)
      modifies this
      ensures leases == Release(old(leases), k, token, now, atInstant)
    {
      leases := Present(leases, now, atInstant);
      if k in leases && leases[k].token == token {
        leases := leases - {k};
      }
    }
  }

  // ---------------------------------------------------------------- runs

  datatype Command =
    | Acquiring(key: Key, token: Token, ttl: nat, at: nat)
    | Releasing(key: Key, token: Token, at: nat)

  // Redis's clock never goes back, and every acquisition brings a token never used before it.
  ghost predicate Legal(cs: seq<Command>) {
    && (forall i, j :: 0 <= i < j < |cs| ==> cs[i].at <= cs[j].at)
    && (forall i, j :: 0 <= i < j < |cs| && cs[j].Acquiring? ==> cs[i].token != cs[j].token)
  }

  function After(cs: seq<Command>, atInstant: bool): Leases {
    if cs == [] then map[]
    else
      var s := After(cs[..|cs| - 1], atInstant);
      match cs[|cs| - 1]
      case Acquiring(k, token, ttl, at) => Acquire(s, k, token, ttl, at, atInstant).0
      case Releasing(k, token, at) => Release(s, k, token, at, atInstant)
  }

  function ReplyTo(cs: seq<Command>, k: Key, token: Token, ttl: nat, at: nat, atInstant: bool): Reply {
    Acquire(After(cs, atInstant), k, token, ttl, at, atInstant).1
  }

  datatype Grant = Grant(key: Key, lease: Lease)

  // Every grant ever made and not released since with its own token; expiry does not matter here.
  function Unreleased(cs: seq<Command>, atInstant: bool): set<Grant> {
    if cs == [] then {}
    else
      var front := cs[..|cs| - 1];
      var gs := Unreleased(front, atInstant);
      match cs[|cs| - 1]
      case Acquiring(k, token, ttl, at) =>
        if ReplyTo(front, k, token, ttl, at, atInstant) == Granted(token) then
          gs + {Grant(k, Lease(token, at + Millis(ttl)))}
        else gs
      case Releasing(k, token, _) => set g | g in gs && !(g.key == k && g.lease.token == token)
  }

  // Redis holds exactly the unreleased leases that still run at `now`, one per key.
  ghost predicate Agrees(s: Leases, gs: set<Grant>, now: nat, atInstant: bool) {
    && (forall k :: k in s ==> Grant(k, s[k]) in gs)
    && (forall g :: g in gs && g.lease.Runs(now, atInstant) ==> g.key in s && s[g.key] == g.lease)
  }

  lemma TimePasses(s: Leases, gs: set<Grant>, now: nat, later: nat, atInstant: bool)
    requires Agrees(s, gs, now, atInstant) && now <= later
    ensures Agrees(Present(s, later, atInstant), gs, later, atInstant)
  {
  }

  function LastAt(cs: seq<Command>): nat {
    if cs == [] then 0 else cs[|cs| - 1].at
  }

  lemma LegalFront(cs: seq<Command>)
    requires cs != [] && Legal(cs)
    ensures Legal(cs[..|cs| - 1]) && LastAt(cs[..|cs| - 1]) <= cs[|cs| - 1].at
  {
  }

  lemma {:induction false} RunsAgree(cs: seq<Command>, atInstant: bool)
    requires Legal(cs)
    ensures Agrees(After(cs, atInstant), Unreleased(cs, atInstant), LastAt(cs), atInstant)
  {
    if cs == [] {
    } else {
      var front, c := cs[..|cs| - 1], cs[|cs| - 1];
      LegalFront(cs);
      RunsAgree(front, atInstant);
      TimePasses(After(front, atInstant), Unreleased(front, atInstant), LastAt(front), c.at, atInstant);
    }
  }

  // ---------------------------------------------------------------- mutual exclusion

  // At no time do two unreleased, unexpired grants of a key exist.
  lemma MutualExclusion(cs: seq<Command>, now: nat, atInstant: bool, g: Grant, h: Grant)
    requires Legal(cs) && LastAt(cs) <= now
    requires g in Unreleased(cs, atInstant) && h in Unreleased(cs, atInstant) && g.key == h.key
    requires g.lease.Runs(now, atInstant) && h.lease.Runs(now, atInstant)
    ensures g == h
  {
    RunsAgree(cs, atInstant);
    TimePasses(After(cs, atInstant), Unreleased(cs, atInstant), LastAt(cs), now, atInstant);
  }

  // An acquisition Redis can time is granted exactly when no unreleased grant of the key still runs.
  lemma GrantedExactlyWhenFree(cs: seq<Command>, k: Key, token: Token, ttl: nat, at: nat, atInstant: bool)
    requires Legal(cs) && LastAt(cs) <= at && !Refused(Millis(ttl), at)
    ensures ReplyTo(cs, k, token, ttl, at, atInstant) == Granted(token)
            <==> forall g :: g in Unreleased(cs, atInstant) && g.key == k ==> !g.lease.Runs(at, atInstant)
  {
    RunsAgree(cs, atInstant);
    TimePasses(After(cs, atInstant), Unreleased(cs, atInstant), LastAt(cs), at, atInstant);
    var present := Present(After(cs, atInstant), at, atInstant);
    if k in present {
      assert Grant(k, present[k]) in Unreleased(cs, atInstant);
    }
  }

  // A release, however late it runs, ends exactly the grants made with its own token: the lease of
  // any successor keeps running as if the release had never been sent.
  lemma StaleReleaseIsHarmless(cs: seq<Command>, k: Key, token: Token, at: nat, now: nat, atInstant: bool, g: Grant)
    requires Legal(cs + [Releasing(k, token, at)]) && LastAt(cs) <= at <= now
    requires g in Unreleased(cs, atInstant) && g.lease.Runs(now, atInstant)
    ensures var after := Present(After(cs + [Releasing(k, token, at)], atInstant), now, atInstant);
            (g.key in after && after[g.key] == g.lease) <==> !(g.key == k && g.lease.token == token)
  {
    var all := cs + [Releasing(k, token, at)];
    assert all[..|cs|] == cs;
    LegalFront(all);
    RunsAgree(all, atInstant);
    TimePasses(After(all, atInstant), Unreleased(all, atInstant), at, now, atInstant);
  }

  // Every grant ever made.
  function Grants(cs: seq<Command>, atInstant: bool): set<Grant> {
    if cs == [] then {}
    else
      var front := cs[..|cs| - 1];
      match cs[|cs| - 1]
      case Acquiring(k, token, ttl, at) =>
        if ReplyTo(front, k, token, ttl, at, atInstant) == Granted(token) then
          Grants(front, atInstant) + {Grant(k, Lease(token, at + Millis(ttl)))}
        else Grants(front, atInstant)
      case Releasing(_, _, _) => Grants(front, atInstant)
  }

  lemma {:induction false} UnreleasedWereGranted(cs: seq<Command>, atInstant: bool)
    ensures Unreleased(cs, atInstant) <= Grants(cs, atInstant)
  {
    if cs == [] {
    } else {
      UnreleasedWereGranted(cs[..|cs| - 1], atInstant);
    }
  }

  lemma {:induction false} TokensComeFromCommands(cs: seq<Command>, atInstant: bool, g: Grant)
    requires g in Grants(cs, atInstant)
    ensures exists i :: 0 <= i < |cs| && cs[i].token == g.lease.token && cs[i].key == g.key && cs[i].Acquiring?
  {
    var front := cs[..|cs| - 1];
    if g in Grants(front, atInstant) {
      TokensComeFromCommands(front, atInstant, g);
      var i :| 0 <= i < |front| && front[i].token == g.lease.token && front[i].key == g.key && front[i].Acquiring?;
      assert cs[i] == front[i];
    } else {
      assert cs[|cs| - 1].token == g.lease.token;
    }
  }

  // With fresh tokens no two grants, released or not, share one.
  lemma {:induction false} TokensNameGrants(cs: seq<Command>, atInstant: bool, g: Grant, h: Grant)
    requires Legal(cs)
    requires g in Grants(cs, atInstant) && h in Grants(cs, atInstant)
    requires g.lease.token == h.lease.token
    ensures g == h
  {
    var front := cs[..|cs| - 1];
    LegalFront(cs);
    if g in Grants(front, atInstant) && h in Grants(front, atInstant) {
      TokensNameGrants(front, atInstant, g, h);
    } else if g in Grants(front, atInstant) {
      TokensComeFromCommands(front, atInstant, g);
    } else if h in Grants(front, atInstant) {
      TokensComeFromCommands(front, atInstant, h);
    }
  }

  // A duration under one millisecond never acquires the lock; nor does one clamped to 64 bits.
  lemma UnusableDurations(cs: seq<Command>, k: Key, token: Token, ttl: nat, at: nat, atInstant: bool)
    ensures ReplyTo(cs, k, token, ttl, at, atInstant).Failed? <==>
              ttl < 1_000_000 || at + ttl / 1_000_000 > 9_223_372_036_854_775_807
  {
  }

  // ---------------------------------------------------------------- how long a lock is held

  lemma {:induction false} GrantStays(cs: seq<Command>, more: seq<Command>, g: Grant, atInstant: bool)
    requires g in Unreleased(cs, atInstant)
    requires forall i :: 0 <= i < |more| ==>
               !(more[i].Releasing? && more[i].key == g.key && more[i].token == g.lease.token)
    ensures g in Unreleased(cs + more, atInstant)
    decreases |more|
  {
    if more == [] {
      assert cs + more == cs;
    } else {
      var front := more[..|more| - 1];
      assert (cs + more)[..|cs + more| - 1] == cs + front;
      GrantStays(cs, front, g, atInstant);
    }
  }

  // An unreleased grant is held as long as its lease runs.
  lemma HeldWhileItRuns(cs: seq<Command>, now: nat, atInstant: bool, g: Grant)
    requires Legal(cs) && LastAt(cs) <= now && g in Unreleased(cs, atInstant)
    ensures var held := Present(After(cs, atInstant), now, atInstant);
            (g.key in held && held[g.key].token == g.lease.token) <==> g.lease.Runs(now, atInstant)
  {
    RunsAgree(cs, atInstant);
    TimePasses(After(cs, atInstant), Unreleased(cs, atInstant), LastAt(cs), now, atInstant);
    var held := Present(After(cs, atInstant), now, atInstant);
    if g.key in held && held[g.key].token == g.lease.token {
      UnreleasedWereGranted(cs, atInstant);
      TokensNameGrants(cs, atInstant, g, Grant(g.key, held[g.key]));
    }
  }

  lemma GrantedIsUnreleased(cs: seq<Command>, k: Key, token: Token, ttl: nat, at: nat, atInstant: bool)
    requires ReplyTo(cs, k, token, ttl, at, atInstant) == Granted(token)
    ensures Grant(k, Lease(token, at + ttl / 1_000_000)) in Unreleased(cs + [Acquiring(k, token, ttl, at)], atInstant)
  {
    assert (cs + [Acquiring(k, token, ttl, at)])[..|cs|] == cs;
  }

  /**
   A granted lock that its holder does not release is held until `ttl` nanoseconds, in whole
   milliseconds, after the grant, whatever anybody else does; and no longer.
   */
  lemma HeldForItsTime(cs: seq<Command>, k: Key, token: Token, ttl: nat, at: nat, more: seq<Command>, now: nat,
                       atInstant: bool)
    requires var all := cs + [Acquiring(k, token, ttl, at)] + more; Legal(all) && LastAt(all) <= now
    requires ReplyTo(cs, k, token, ttl, at, atInstant) == Granted(token)
    requires forall i :: 0 <= i < |more| ==>
               !(more[i].Releasing? && more[i].key == k && more[i].token == token)
    ensures var held := Present(After(cs + [Acquiring(k, token, ttl, at)] + more, atInstant), now, atInstant);
            (k in held && held[k].token == token)
            <==> now < at + ttl / 1_000_000 || (now == at + ttl / 1_000_000 && !atInstant)
  {
    var first := cs + [Acquiring(k, token, ttl, at)];
    var g := Grant(k, Lease(token, at + ttl / 1_000_000));
    assert g in Unreleased(first, atInstant) by {
      GrantedIsUnreleased(cs, k, token, ttl, at, atInstant);
    }
    GrantStays(first, more, g, atInstant);
    HeldWhileItRuns(first + more, now, atInstant, g);
  }
}
