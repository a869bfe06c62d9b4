/**
 When the gateway's keys are up to date.  Every write to a key carries a hash and an expiry that were
 read earlier, by the commit of a renewal or at the start of a key reset; writes may land late, in any
 order or not at all.  A key is current exactly when the last write to land on its hash read the expiry
 since the app's last renewal.
 */
module KeyFreshness {
  import opened Wrappers
  import opened OrderConfirm

  // ---------------------------------------------------------------- what a run read and wrote

  // An expiry read for a key of an app, by a renewal or a key reset, and the hash it will be written to.
  datatype Reading = Reading(call: CallId, hash: Hash, renews: bool)

  ghost function ReadBy(s: System, e: Event, a: AppId): seq<Reading>
    requires Enabled(s, e)
  {
    match e
    case Commit(c) =>
      if s.calls[c].phase.Saved? && s.orders[s.calls[c].order].app == a then
        [Reading(c, s.calls[c].phase.row.hash, true)]
      else []
    case StartReset(c, b, h) => if b == a then [Reading(c, h, false)] else []
    case _ => []
  }

  ghost function WrittenBy(s: System, e: Event, h: Hash): seq<CallId>
    requires Enabled(s, e)
  {
    match e
    case WriteRedis(c) => if s.writes[c].hash == h then [c] else []
    case _ => []
  }

  // All readings of a run for the keys of `a`, and all writes that landed on a hash, in their order.
  ghost function Readings(s: System, events: seq<Event>, s': System, a: AppId): seq<Reading>
    requires Reaches(s, events, s')
    decreases |events|
  {
    if events == [] then []
    else ReadBy(s, events[0], a) + Readings(Apply(s, events[0]), events[1..], s', a)
  }

  ghost function Writers(s: System, events: seq<Event>, s': System, h: Hash): seq<CallId>
    requires Reaches(s, events, s')
    decreases |events|
  {
    if events == [] then []
    else WrittenBy(s, events[0], h) + Writers(Apply(s, events[0]), events[1..], s', h)
  }

  // Who read the expiry since the last renewal, the renewal itself included.  None stands for the
  // key that was there at the start.
  function Fresh(rs: seq<Reading>): set<Option<CallId>> {
    if rs == [] then {None}
    else
      var r := rs[|rs| - 1];
      if r.renews then {Some(r.call)} else Fresh(rs[..|rs| - 1]) + {Some(r.call)}
  }

  function LastWriter(ws: seq<CallId>): Option<CallId> {
    if ws == [] then None else Some(ws[|ws| - 1])
  }

  function LastReader(rs: seq<Reading>): Option<CallId> {
    if rs == [] then None else Some(rs[|rs| - 1].call)
  }

  // ---------------------------------------------------------------- invariant

  // A reset, or a confirmation that has committed: it reads no expiry any more.
  predicate HasRead(s: System, c: CallId) {
    c in s.resets || (c in s.calls && s.calls[c].phase.Done?)
  }

  ghost predicate Apart(s: System) {
    && s.resets.Keys !! s.calls.Keys
    && (forall c :: c in s.writes ==> HasRead(s, c))
    && s.redis.Keys <= s.owner.Keys
    && (forall c :: c in s.writes ==> Owned(s, s.writes[c].hash, s.writes[c].app))
  }

  // What the key, the pending writes and the resets of `a` carry is current exactly if it was read since
  // the last renewal.
  ghost predicate Tracks(s: System, a: AppId, h: Hash, writer: Option<CallId>, current: set<Option<CallId>>) {
    && a in s.apps
    && (h in s.redis && Owned(s, h, a) ==> (s.redis[h].expireAt == s.apps[a].expireAt <==> writer in current))
    && (forall c :: c in s.writes && s.writes[c].app == a ==>
          (s.writes[c].expiry == s.apps[a].expireAt <==> Some(c) in current))
    && (forall c :: c in s.resets && s.resets[c].app == a ==>
          (s.resets[c].expiry == s.apps[a].expireAt <==> Some(c) in current))
    && (forall c :: Some(c) in current + {writer} ==> HasRead(s, c))
  }

  lemma HasReadStays(s: System, e: Event, c: CallId)
    requires Enabled(s, e) && HasRead(s, c)
    ensures HasRead(Apply(s, e), c)
  {
  }

  lemma SoundIsApart(s0: System, s: System)
    requires Sound(s0, s) && s.resets.Keys !! s.calls.Keys && forall c :: c in s.writes ==> HasRead(s, c)
    ensures Apart(s)
  {
    forall h | h in s.redis ensures h in s.owner {
      assert KeyOk(s0, s, h, s.redis[h]);
    }
  }

  lemma StepKeepsDistinct(s: System, e: Event)
    requires Enabled(s, e) && Apart(s)
    ensures Apply(s, e).resets.Keys !! Apply(s, e).calls.Keys
    ensures forall c :: c in Apply(s, e).writes ==> HasRead(Apply(s, e), c)
  {
    forall c | c in Apply(s, e).writes ensures HasRead(Apply(s, e), c) {
      if c in s.writes {
        HasReadStays(s, e, c);
      }
    }
  }

  // Nothing written or to be written to a key of `a` is later than the database's expiry, and a saved
  // row is.
  ghost predicate Bounded(s: System, a: AppId) {
    && a in s.apps
    && (forall h :: h in s.redis && Owned(s, h, a) ==> s.redis[h].expireAt <= s.apps[a].expireAt)
    && (forall c :: c in s.writes && s.writes[c].app == a ==> s.writes[c].expiry <= s.apps[a].expireAt)
    && (forall c :: c in s.resets && s.resets[c].app == a ==> s.resets[c].expiry <= s.apps[a].expireAt)
    && (forall c :: c in s.calls && s.calls[c].phase.Saved? && s.calls[c].order in s.orders
                    && s.orders[s.calls[c].order].app == a ==>
          s.calls[c].phase.row.expireAt > s.apps[a].expireAt)
  }

  lemma SoundIsBounded(s0: System, s: System, a: AppId)
    requires Sound(s0, s) && a in s.apps
    ensures Bounded(s, a)
  {
    var e0, rs := s0.apps[a].expireAt, RenewalsOf(s, a);
    forall h | h in s.redis && Owned(s, h, a) ensures s.redis[h].expireAt <= s.apps[a].expireAt {
      assert KeyOk(s0, s, h, s.redis[h]);
      PassedIsNoLater(e0, rs, s.redis[h].expireAt);
    }
    forall c | c in s.writes && s.writes[c].app == a ensures s.writes[c].expiry <= s.apps[a].expireAt {
      PassedIsNoLater(e0, rs, s.writes[c].expiry);
    }
    forall c | c in s.resets && s.resets[c].app == a ensures s.resets[c].expiry <= s.apps[a].expireAt {
      PassedIsNoLater(e0, rs, s.resets[c].expiry);
    }
    forall c | c in s.calls && s.calls[c].phase.Saved? && s.calls[c].order in s.orders
               && s.orders[s.calls[c].order].app == a
      ensures s.calls[c].phase.row.expireAt > s.apps[a].expireAt
    {
      SavedIsRenewed(s, c, a);
    }
  }

  // A renewal outdates everything read before it.
  lemma RenewalTracks(s: System, c: CallId, a: AppId, h: Hash, writer: Option<CallId>, current: set<Option<CallId>>)
    requires Bounded(s, a) && Apart(s) && Tracks(s, a, h, writer, current)
    requires Enabled(s, Commit(c)) && s.calls[c].phase.Saved? && s.orders[s.calls[c].order].app == a
    ensures Tracks(Apply(s, Commit(c)), a, h, writer, {Some(c)})
  {
    assert !HasRead(s, c);
    forall d | Some(d) in {Some(c), writer} && d != c ensures HasRead(Apply(s, Commit(c)), d) {
      HasReadStays(s, Commit(c), d);
    }
  }

  lemma ResetTracks(s: System, c: CallId, a: AppId, newHash: Hash, h: Hash, writer: Option<CallId>,
                    current: set<Option<CallId>>)
    requires Apart(s) && Tracks(s, a, h, writer, current) && Enabled(s, StartReset(c, a, newHash))
    ensures Tracks(Apply(s, StartReset(c, a, newHash)), a, h, writer, current + {Some(c)})
  {
    assert !HasRead(s, c);
    forall d | Some(d) in current + {Some(c)} + {writer}
      ensures HasRead(Apply(s, StartReset(c, a, newHash)), d)
    {
      if d != c {
        HasReadStays(s, StartReset(c, a, newHash), d);
      }
    }
  }

  lemma WriteTracks(s: System, c: CallId, a: AppId, h: Hash, writer: Option<CallId>, current: set<Option<CallId>>)
    requires Apart(s) && Tracks(s, a, h, writer, current) && Enabled(s, WriteRedis(c)) && s.writes[c].hash == h
    ensures Tracks(Apply(s, WriteRedis(c)), a, h, Some(c), current)
  {
    forall d | Some(d) in current + {Some(c)} ensures HasRead(Apply(s, WriteRedis(c)), d) {
      HasReadStays(s, WriteRedis(c), d);
    }
  }

  // Neither the app's expiry nor the key nor what is to be written changes, except for a write that a
  // reset of the app has prepared.
  lemma SameTracks(s: System, s': System, a: AppId, h: Hash, writer: Option<CallId>, current: set<Option<CallId>>)
    requires Tracks(s, a, h, writer, current)
    requires a in s'.apps && s'.apps[a].expireAt == s.apps[a].expireAt
    requires h in s'.redis && Owned(s', h, a) ==> h in s.redis && Owned(s, h, a) && s'.redis[h] == s.redis[h]
    requires forall c :: c in s'.writes && s'.writes[c].app == a ==>
               || (c in s.writes && s'.writes[c] == s.writes[c])
               || (c in s.resets && s.resets[c].app == a && s.resets[c].expiry == s'.writes[c].expiry)
    requires forall c :: c in s'.resets && s'.resets[c].app == a ==>
               c in s.resets && s.resets[c].app == a && s'.resets[c].expiry == s.resets[c].expiry
    requires forall c :: HasRead(s, c) ==> HasRead(s', c)
    ensures Tracks(s', a, h, writer, current)
  {
  }

  lemma OtherTracks(s: System, e: Event, a: AppId, h: Hash, writer: Option<CallId>, current: set<Option<CallId>>)
    requires Apart(s) && Tracks(s, a, h, writer, current) && Enabled(s, e)
    requires ReadBy(s, e, a) == [] && WrittenBy(s, e, h) == []
    ensures Tracks(Apply(s, e), a, h, writer, current)
  {
    var s' := Apply(s, e);
    forall c | HasRead(s, c) ensures HasRead(s', c) {
      HasReadStays(s, e, c);
    }
    OtherExpiry(s, e, a);
    OtherKey(s, e, h, a);
    OtherPending(s, e, a);
    SameTracks(s, s', a, h, writer, current);
  }

  lemma OtherExpiry(s: System, e: Event, a: AppId)
    requires Enabled(s, e) && ReadBy(s, e, a) == [] && a in s.apps
    ensures a in Apply(s, e).apps && Apply(s, e).apps[a].expireAt == s.apps[a].expireAt
  {
  }

  lemma OtherKey(s: System, e: Event, h: Hash, a: AppId)
    requires Enabled(s, e) && WrittenBy(s, e, h) == [] && s.redis.Keys <= s.owner.Keys
    ensures var s' := Apply(s, e);
            h in s'.redis && Owned(s', h, a) ==> h in s.redis && Owned(s, h, a) && s'.redis[h] == s.redis[h]
  {
  }

  lemma OtherPending(s: System, e: Event, a: AppId)
    requires Enabled(s, e) && ReadBy(s, e, a) == []
    ensures var s' := Apply(s, e);
            && (forall c :: c in s'.writes && s'.writes[c].app == a ==>
                  || (c in s.writes && s'.writes[c] == s.writes[c])
                  || (c in s.resets && s.resets[c].app == a && s.resets[c].expiry == s'.writes[c].expiry))
            && (forall c :: c in s'.resets && s'.resets[c].app == a ==>
                  c in s.resets && s.resets[c].app == a && s'.resets[c].expiry == s.resets[c].expiry)
  {
  }

  // A step reads or writes at most once, and never both.
  lemma ReadsOrWrites(s: System, e: Event, a: AppId, h: Hash)
    requires Enabled(s, e)
    ensures |ReadBy(s, e, a)| + |WrittenBy(s, e, h)| <= 1
    ensures ReadBy(s, e, a) != [] ==>
              var r := ReadBy(s, e, a)[0];
              if r.renews then
                e == Commit(r.call) && s.calls[r.call].phase.Saved? && s.orders[s.calls[r.call].order].app == a
              else e == StartReset(r.call, a, r.hash)
    ensures WrittenBy(s, e, h) != [] ==>
              var c := WrittenBy(s, e, h)[0];
              e == WriteRedis(c) && s.writes[c].hash == h
  {
  }

  lemma ReadTracks(s: System, e: Event, a: AppId, h: Hash, writer: Option<CallId>, rs: seq<Reading>, r: Reading)
    requires Bounded(s, a) && Apart(s) && Enabled(s, e) && ReadBy(s, e, a) == [r]
    requires Tracks(s, a, h, writer, Fresh(rs))
    ensures Tracks(Apply(s, e), a, h, writer, Fresh(rs + [r]))
  {
    assert (rs + [r])[..|rs|] == rs;
    ReadsOrWrites(s, e, a, h);
    if r.renews {
      RenewalTracks(s, r.call, a, h, writer, Fresh(rs));
    } else {
      ResetTracks(s, r.call, a, r.hash, h, writer, Fresh(rs));
    }
  }

  lemma StepTracks(s: System, e: Event, a: AppId, h: Hash, ws: seq<CallId>, rs: seq<Reading>)
    requires Bounded(s, a) && Apart(s) && Enabled(s, e)
    requires Tracks(s, a, h, LastWriter(ws), Fresh(rs))
    ensures Tracks(Apply(s, e), a, h, LastWriter(ws + WrittenBy(s, e, h)), Fresh(rs + ReadBy(s, e, a)))
  {
    ReadsOrWrites(s, e, a, h);
    assert ws + [] == ws && rs + [] == rs;
    if ReadBy(s, e, a) != [] {
      var r := ReadBy(s, e, a)[0];
      assert ReadBy(s, e, a) == [r];
      ReadTracks(s, e, a, h, LastWriter(ws), rs, r);
    } else if WrittenBy(s, e, h) != [] {
      var c := WrittenBy(s, e, h)[0];
      assert WrittenBy(s, e, h) == [c];
      WriteTracks(s, c, a, h, LastWriter(ws), Fresh(rs));
    } else {
      OtherTracks(s, e, a, h, LastWriter(ws), Fresh(rs));
    }
  }

  lemma SoundStep(s0: System, s: System, e: Event)
    requires Sound(s0, s) && Apart(s) && Enabled(s, e)
    ensures Sound(s0, Apply(s, e)) && Apart(Apply(s, e))
  {
    StepKeepsSound(s0, s, e);
    StepKeepsDistinct(s, e);
    SoundIsApart(s0, Apply(s, e));
  }

  lemma {:induction false} RunTracks(s0: System, s: System, events: seq<Event>, s': System, a: AppId, h: Hash,
                                     ws: seq<CallId>, rs: seq<Reading>)
    requires Sound(s0, s) && Apart(s) && Reaches(s, events, s')
    requires Tracks(s, a, h, LastWriter(ws), Fresh(rs))
    ensures Tracks(s', a, h, LastWriter(ws + Writers(s, events, s', h)), Fresh(rs + Readings(s, events, s', a)))
    decreases |events|
  {
    if events == [] {
      assert ws + [] == ws && rs + [] == rs;
    } else {
      var e, next := events[0], Apply(s, events[0]);
      SoundIsBounded(s0, s, a);
      StepTracks(s, e, a, h, ws, rs);
      SoundStep(s0, s, e);
      RunTracks(s0, next, events[1..], s', a, h, ws + WrittenBy(s, e, h), rs + ReadBy(s, e, a));
      Associate(ws, WrittenBy(s, e, h), Writers(next, events[1..], s', h));
      Associate(rs, ReadBy(s, e, a), Readings(next, events[1..], s', a));
    }
  }

  lemma Associate<T>(a: seq<T>, b: seq<T>, c: seq<T>)
    ensures a + b + c == a + (b + c)
  {
  }

  // ---------------------------------------------------------------- main results

  lemma StartTracks(s0: System, a: AppId, h: Hash)
    requires Start(s0) && a in s0.apps
    ensures Sound(s0, s0) && Apart(s0) && Tracks(s0, a, h, None, {None})
  {
    StartIsSound(s0);
    SoundIsApart(s0, s0);
  }

  lemma KeyHasOwner(s0: System, s: System, h: Hash)
    requires Sound(s0, s) && h in s.redis
    ensures h in s.owner && s.owner[h] in s0.apps && s.owner[h] in s.apps
  {
    assert KeyOk(s0, s, h, s.redis[h]);
  }

  lemma TracksToTheEnd(s0: System, events: seq<Event>, s: System, a: AppId, h: Hash)
    requires Start(s0) && Reaches(s0, events, s) && a in s0.apps
    ensures Tracks(s, a, h, LastWriter(Writers(s0, events, s, h)), Fresh(Readings(s0, events, s, a)))
  {
    StartTracks(s0, a, h);
    RunTracks(s0, s0, events, s, a, h, [], []);
    var ws, rs := Writers(s0, events, s, h), Readings(s0, events, s, a);
    assert [] + ws == ws && [] + rs == rs;
  }

  // In every state of every run, every key of an app, in use or revoked, carries the database's expiry
  // exactly when the last write to land on it read the expiry since the app's last renewal.
  lemma KeyIsCurrentExactly(s0: System, events: seq<Event>, s: System, a: AppId, h: Hash)
    requires Start(s0) && Reaches(s0, events, s) && h in s.redis && Owned(s, h, a)
    ensures a in s.apps
    ensures s.redis[h].expireAt == s.apps[a].expireAt
            <==> LastWriter(Writers(s0, events, s, h)) in Fresh(Readings(s0, events, s, a))
  {
    StartIsSound(s0);
    RunKeepsSound(s0, s0, events, s);
    KeyHasOwner(s0, s, h);
    TracksToTheEnd(s0, events, s, a, h);
  }

  // Without key resets: exactly when the last write to land is that of the last renewal.
  lemma KeyIsCurrentWithoutResets(s0: System, events: seq<Event>, s: System, a: AppId, h: Hash)
    requires Start(s0) && Reaches(s0, events, s) && h in s.redis && Owned(s, h, a)
    requires forall r :: r in Readings(s0, events, s, a) ==> r.renews
    ensures a in s.apps
    ensures s.redis[h].expireAt == s.apps[a].expireAt
            <==> LastWriter(Writers(s0, events, s, h)) == LastReader(Readings(s0, events, s, a))
  {
    KeyIsCurrentExactly(s0, events, s, a, h);
  }

  // Whose write goes to a hash, in the order of their readings.
  function ReadersFor(rs: seq<Reading>, h: Hash): seq<CallId> {
    if rs == [] then []
    else ReadersFor(rs[..|rs| - 1], h) + if rs[|rs| - 1].hash == h then [rs[|rs| - 1].call] else []
  }

  // The app's present key is up to date if the last reading was made for it, and its writes landed in the
  // order of their readings with none lost or pending.
  lemma WritesInOrderKeepUp(s0: System, events: seq<Event>, s: System, a: AppId)
    requires Start(s0) && Reaches(s0, events, s) && a in s.apps && s.apps[a].hash in s.redis
    requires var rs := Readings(s0, events, s, a);
             && (rs != [] ==> rs[|rs| - 1].hash == s.apps[a].hash)
             && Writers(s0, events, s, s.apps[a].hash) == ReadersFor(rs, s.apps[a].hash)
    ensures s.redis[s.apps[a].hash].expireAt == s.apps[a].expireAt
  {
    StartIsSound(s0);
    RunKeepsSound(s0, s0, events, s);
    KeyIsCurrentExactly(s0, events, s, a, s.apps[a].hash);
  }

  // The order alone is not enough: a reset that straddles a renewal writes the new key with the expiry of
  // before, and the renewal writes its own to the revoked key, which so comes back to life.  Readings and
  // writes come in the same order and none is lost.
  lemma StraddlingResetIsStale(s: System, o: OrderId, c: CallId, r: CallId, newHash: Hash)
    returns (events: seq<Event>, s': System)
    requires AtRest(s) && c != r && {c, r} !! s.calls.Keys + s.resets.Keys && Renewable(s, o)
    requires s.apps[s.orders[o].app].expireAt > s.clock && newHash != s.apps[s.orders[o].app].hash
    requires MayUse(s, s.orders[o].app, newHash)
    ensures events == Begin(r, s.orders[o].app, newHash) + FromCallToCommit(c, o, "") + Finish(r, c)
    ensures Reaches(s, events, s') && s'.writes == s.writes - {c, r}
    ensures var a := s.orders[o].app;
            var oldHash := s.apps[a].hash;
            && a in s'.apps && s'.apps[a].hash == newHash && newHash in s'.redis && oldHash in s'.redis
            && s'.redis[newHash].expireAt == s.apps[a].expireAt < s'.apps[a].expireAt
            && s'.redis[oldHash].expireAt == s'.apps[a].expireAt
  {
    var a := s.orders[o].app;
    var m := Straddled(s, o, c, r, newHash);
    s' := ResetFinishes(m, r, c);
    events := Begin(r, a, newHash) + FromCallToCommit(c, o, "") + Finish(r, c);
    ReachesTogether(s, Begin(r, a, newHash) + FromCallToCommit(c, o, ""), m, Finish(r, c), s');
  }

  // The renewal runs while the reset has read the app and deleted the old key.
  lemma Straddled(s: System, o: OrderId, c: CallId, r: CallId, newHash: Hash) returns (m: System)
    requires AtRest(s) && c != r && {c, r} !! s.calls.Keys + s.resets.Keys && Renewable(s, o)
    requires MayUse(s, s.orders[o].app, newHash)
    ensures Reaches(s, Begin(r, s.orders[o].app, newHash) + FromCallToCommit(c, o, ""), m) && AtRest(m)
    ensures var a := s.orders[o].app;
            var app := s.apps[a];
            && m.apps == s.apps[a := Renew(app, s.clock, s.orders[o].days, "")] && m.clock == s.clock
            && m.resets == s.resets[r := Reset(a, app.hash, newHash, true, app.expireAt, Cleared)]
            && m.writes == s.writes[c := Write(a, app.hash, m.apps[a].expireAt)]
  {
    var a := s.orders[o].app;
    var begun := ResetBegins(s, r, a, newHash);
    m := AloneCommits(begun, c, o, "");
    ReachesTogether(s, Begin(r, a, newHash), begun, FromCallToCommit(c, o, ""), m);
  }

  function Begin(r: CallId, a: AppId, newHash: Hash): seq<Event> {
    [StartReset(r, a, newHash)] + [DeleteOld(r)]
  }

  // The reset goes on, and its write lands before that of the confirmation.
  function Finish(r: CallId, c: CallId): seq<Event> {
    [SaveHash(r)] + [WriteRedis(r)] + [WriteRedis(c)]
  }

  lemma ResetBegins(s: System, r: CallId, a: AppId, newHash: Hash) returns (s': System)
    requires r !in s.calls && r !in s.resets && a in s.apps && MayUse(s, a, newHash)
    ensures Reaches(s, Begin(r, a, newHash), s')
    ensures var app := s.apps[a];
            s' == s.(resets := s.resets[r := Reset(a, app.hash, newHash, app.approved, app.expireAt, Cleared)],
                     redis := s.redis - {app.hash}, owner := s.owner[newHash := a])
  {
    var s1 := Apply(s, StartReset(r, a, newHash));
    s' := Apply(s1, DeleteOld(r));
    FirstStep(s1, DeleteOld(r), [], s');
    FirstStep(s, StartReset(r, a, newHash), [DeleteOld(r)], s');
    var app := s.apps[a];
    assert s'.resets == s.resets[r := Reset(a, app.hash, newHash, app.approved, app.expireAt, Cleared)];
  }

  lemma ResetFinishes(s: System, r: CallId, c: CallId) returns (s': System)
    requires AtRest(s) && r in s.resets && s.resets[r].stage.Cleared? && s.resets[r].app in s.apps
    requires s.resets[r].approved && s.resets[r].expiry > s.clock
    requires c != r && c in s.writes && s.writes[c].hash != s.resets[r].newHash
    ensures Reaches(s, Finish(r, c), s')
    ensures s'.writes == s.writes - {c, r}
    ensures var t := s.resets[r];
            && s'.apps == s.apps[t.app := s.apps[t.app].(hash := t.newHash)]
            && t.newHash in s'.redis && s'.redis[t.newHash].expireAt == t.expiry
            && s.writes[c].hash in s'.redis && s'.redis[s.writes[c].hash].expireAt == s.writes[c].expiry
  {
    var s1 := Apply(s, SaveHash(r));
    var s2 := Apply(s1, WriteRedis(r));
    s' := Apply(s2, WriteRedis(c));
    FirstStep(s2, WriteRedis(c), [], s');
    FirstStep(s1, WriteRedis(r), [WriteRedis(c)], s');
    FirstStep(s, SaveHash(r), [WriteRedis(r)] + [WriteRedis(c)], s');
    assert [SaveHash(r)] + [WriteRedis(r)] + [WriteRedis(c)]
           == [SaveHash(r)] + ([WriteRedis(r)] + [WriteRedis(c)]);
  }
}
