/**
 When a revoked key still opens the gateway.  A key is revoked once no app has its hash any more and no
 reset is about to save it.  From then on nobody reads the hash again, but writes that carry it may
 still be pending, and a delete may have failed.
 */
module KeyRevocation {
  import opened Wrappers
  import opened OrderConfirm

  // What happens to one key in Redis: a pending write lands, or it is deleted or evicted.
  datatype Touch = Put(call: CallId) | Gone

  ghost function TouchedBy(s: System, e: Event, h: Hash): seq<Touch>
    requires Enabled(s, e)
  {
    match e
    case WriteRedis(c) => if s.writes[c].hash == h then [Put(c)] else []
    case DeleteOld(c) => if s.resets[c].oldHash == h then [Gone] else []
    case Evict(g) => if g == h then [Gone] else []
    case _ => []
  }

  ghost function Touches(s: System, events: seq<Event>, s': System, h: Hash): seq<Touch>
    requires Reaches(s, events, s')
    decreases |events|
  {
    if events == [] then []
    else TouchedBy(s, events[0], h) + Touches(Apply(s, events[0]), events[1..], s', h)
  }

  // The writes that landed since the key was last deleted or evicted.
  function LandedSince(ts: seq<Touch>): seq<CallId> {
    if ts == [] then []
    else
      match ts[|ts| - 1]
      case Gone => []
      case Put(c) => LandedSince(ts[..|ts| - 1]) + [c]
  }

  // A write has landed since, or the key was there before and never went.
  predicate LiveAfter(ts: seq<Touch>, before: bool) {
    LandedSince(ts) != [] || (before && Gone !in ts)
  }

  // ---------------------------------------------------------------- any key

  lemma LiveAfterOne(ts: seq<Touch>, t: Touch, before: bool)
    ensures LiveAfter(ts + [t], before) <==> t.Put?
  {
    assert (ts + [t])[..|ts|] == ts && (ts + [t])[|ts|] == t;
  }

  lemma StepTouches(s: System, e: Event, h: Hash, ts: seq<Touch>, before: bool)
    requires Enabled(s, e) && (h in s.redis <==> LiveAfter(ts, before))
    ensures h in Apply(s, e).redis <==> LiveAfter(ts + TouchedBy(s, e, h), before)
  {
    if TouchedBy(s, e, h) == [] {
      assert ts + [] == ts;
    } else {
      var t := TouchedBy(s, e, h)[0];
      assert TouchedBy(s, e, h) == [t];
      LiveAfterOne(ts, t, before);
    }
  }

  lemma {:induction false} RunTouches(s: System, events: seq<Event>, s': System, h: Hash, ts: seq<Touch>, before: bool)
    requires Reaches(s, events, s') && (h in s.redis <==> LiveAfter(ts, before))
    ensures h in s'.redis <==> LiveAfter(ts + Touches(s, events, s', h), before)
    decreases |events|
  {
    if events == [] {
      assert ts + [] == ts;
    } else {
      var e, next := events[0], Apply(s, events[0]);
      StepTouches(s, e, h, ts, before);
      RunTouches(next, events[1..], s', h, ts + TouchedBy(s, e, h), before);
      Associate(ts, TouchedBy(s, e, h), Touches(next, events[1..], s', h));
    }
  }

  lemma Associate(a: seq<Touch>, b: seq<Touch>, c: seq<Touch>)
    ensures a + b + c == a + (b + c)
  {
  }

  // ---------------------------------------------------------------- revoked keys

  ghost predicate Revoked(s: System, h: Hash) {
    && (forall a :: a in s.apps ==> s.apps[a].hash != h)
    && (forall c :: c in s.resets && s.resets[c].newHash == h ==> s.resets[c].stage.Finished?)
  }

  // Nobody takes the key into use again.
  predicate NeverReused(events: seq<Event>, h: Hash) {
    forall e :: e in events && e.StartReset? ==> e.newHash != h
  }

  lemma CommitKeepsRevoked(s: System, c: CallId, h: Hash)
    requires ReadsOk(s) && Revoked(s, h) && Enabled(s, Commit(c)) && s.calls[c].phase.Saved?
    ensures Revoked(Apply(s, Commit(c)), h) && Apply(s, Commit(c)).writes[c].hash != h
  {
    assert HoldsApp(s, c, s.orders[s.calls[c].order].app);
  }

  // No step makes a new write that carries a revoked hash.
  lemma StepKeepsRevoked(s: System, e: Event, h: Hash)
    requires ReadsOk(s) && Revoked(s, h) && Enabled(s, e) && (e.StartReset? ==> e.newHash != h)
    ensures Revoked(Apply(s, e), h)
    ensures forall c :: c in Apply(s, e).writes && Apply(s, e).writes[c].hash == h ==>
              c in s.writes && s.writes[c] == Apply(s, e).writes[c]
  {
    if e.Commit? && s.calls[e.call].phase.Saved? {
      CommitKeepsRevoked(s, e.call, h);
    } else {
      OtherStepKeepsRevoked(s, e, h);
    }
  }

  lemma OtherStepKeepsRevoked(s: System, e: Event, h: Hash)
    requires Revoked(s, h) && Enabled(s, e) && (e.StartReset? ==> e.newHash != h)
    requires e.Commit? ==> !s.calls[e.call].phase.Saved?
    ensures Revoked(Apply(s, e), h)
    ensures forall c :: c in Apply(s, e).writes && Apply(s, e).writes[c].hash == h ==>
              c in s.writes && s.writes[c] == Apply(s, e).writes[c]
  {
  }

  // Who carries the hash at the moment of revocation.
  ghost predicate Carries(m: System, c: CallId, h: Hash) {
    c in m.writes && m.writes[c].hash == h
  }

  ghost predicate OnlyFrom(m: System, s: System, h: Hash) {
    forall c :: Carries(s, c, h) ==> Carries(m, c, h)
  }

  ghost predicate PutsFrom(m: System, ts: seq<Touch>, h: Hash) {
    forall t :: t in ts && t.Put? ==> Carries(m, t.call, h)
  }

  lemma StepOnlyDrains(m: System, s: System, e: Event, h: Hash)
    requires ReadsOk(s) && Enabled(s, e) && (e.StartReset? ==> e.newHash != h)
    requires Revoked(s, h) && OnlyFrom(m, s, h)
    ensures Revoked(Apply(s, e), h) && OnlyFrom(m, Apply(s, e), h) && PutsFrom(m, TouchedBy(s, e, h), h)
  {
    StepKeepsRevoked(s, e, h);
    forall c | Carries(Apply(s, e), c, h) ensures Carries(m, c, h) {
      assert Carries(s, c, h);
    }
    forall t | t in TouchedBy(s, e, h) && t.Put? ensures Carries(m, t.call, h) {
      assert Carries(s, t.call, h);
    }
  }

  lemma {:induction false} RevokedOnlyDrains(s0: System, m: System, s: System, events: seq<Event>, s': System, h: Hash)
    requires Sound(s0, s) && Reaches(s, events, s') && NeverReused(events, h)
    requires Revoked(s, h) && OnlyFrom(m, s, h)
    ensures Revoked(s', h) && OnlyFrom(m, s', h) && PutsFrom(m, Touches(s, events, s', h), h)
    decreases |events|
  {
    if events == [] {
    } else {
      var e, next := events[0], Apply(s, events[0]);
      StepOnlyDrains(m, s, e, h);
      StepKeepsSound(s0, s, e);
      RevokedOnlyDrains(s0, m, next, events[1..], s', h);
      PutsTogether(m, TouchedBy(s, e, h), Touches(next, events[1..], s', h), h);
    }
  }

  lemma PutsTogether(m: System, a: seq<Touch>, b: seq<Touch>, h: Hash)
    requires PutsFrom(m, a, h) && PutsFrom(m, b, h)
    ensures PutsFrom(m, a + b, h)
  {
  }

  lemma {:induction false} LandedArePuts(ts: seq<Touch>)
    ensures forall c :: c in LandedSince(ts) ==> Put(c) in ts
  {
    if ts == [] {
    } else {
      LandedArePuts(ts[..|ts| - 1]);
    }
  }

  // ---------------------------------------------------------------- main results

  // After its revocation in state `m`, a key is live exactly when a write has landed on it since it was
  // last deleted or evicted, or it was live at the revocation and has not gone since; and every such
  // write was pending at the revocation already, so it read the hash while that was in use.
  lemma RevokedIsLiveExactly(s0: System, before: seq<Event>, m: System, after: seq<Event>, s: System, h: Hash)
    requires Start(s0) && Reaches(s0, before, m) && Revoked(m, h)
    requires Reaches(m, after, s) && NeverReused(after, h)
    ensures Revoked(s, h)
    ensures var ts := Touches(m, after, s, h);
            && (h in s.redis <==> LandedSince(ts) != [] || (h in m.redis && Gone !in ts))
            && (forall c :: c in LandedSince(ts) ==> Carries(m, c, h))
  {
    StartIsSound(s0);
    RunKeepsSound(s0, s0, before, m);
    RevokedOnlyDrains(s0, m, m, after, s, h);
    RunTouches(m, after, s, h, [], h in m.redis);
    var ts := Touches(m, after, s, h);
    assert [] + ts == ts;
    LandedArePuts(ts);
  }

  // Over the whole run: once a reset's delete has succeeded, the key is live exactly when some write has
  // landed since the last delete or eviction.
  lemma LiveSinceDelete(s0: System, events: seq<Event>, s: System, h: Hash)
    requires Start(s0) && Reaches(s0, events, s) && Gone in Touches(s0, events, s, h)
    ensures h in s.redis <==> LandedSince(Touches(s0, events, s, h)) != []
  {
    RunTouches(s0, events, s, h, [], h in s0.redis);
    assert [] + Touches(s0, events, s, h) == Touches(s0, events, s, h);
  }

  lemma FirstIsMember(cs: seq<CallId>)
    requires cs != []
    ensures cs[0] in cs
  {
  }

  // A revoked key that is not live and that no pending write carries never comes back.
  lemma RevokedStaysDead(s0: System, before: seq<Event>, m: System, after: seq<Event>, s: System, h: Hash)
    requires Start(s0) && Reaches(s0, before, m) && Revoked(m, h)
    requires h !in m.redis && forall c :: !Carries(m, c, h)
    requires Reaches(m, after, s) && NeverReused(after, h)
    ensures h !in s.redis && Revoked(s, h)
  {
    RevokedIsLiveExactly(s0, before, m, after, s, h);
    var landed := LandedSince(Touches(m, after, s, h));
    if landed != [] {
      FirstIsMember(landed);
    }
  }
}
