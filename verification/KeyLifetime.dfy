/**
 How long a gateway key lives, and what a renewal buys, over every run of confirmations and key resets.
 */
module KeyLifetime {
  import opened Wrappers
  import opened OrderConfirm

  // A write that has landed on a key: the expiry it carried, and Redis's clock then.
  datatype Landing = Landing(expiry: nat, at: nat)

  ghost function LandingBy(s: System, e: Event, h: Hash): seq<Landing>
    requires Enabled(s, e)
  {
    match e
    case WriteRedis(c) => if s.writes[c].hash == h then [Landing(s.writes[c].expiry, s.clock)] else []
    case _ => []
  }

  ghost function Landings(s: System, events: seq<Event>, s': System, h: Hash): seq<Landing>
    requires Reaches(s, events, s')
    decreases |events|
  {
    if events == [] then []
    else LandingBy(s, events[0], h) + Landings(Apply(s, events[0]), events[1..], s', h)
  }

  // The key is as its last landing left it: it carries that expiry and lives until then, or for one second
  // if that is over.
  ghost predicate AsLanded(s: System, h: Hash, ls: seq<Landing>) {
    ls != [] && h in s.redis ==>
      var last := ls[|ls| - 1];
      && s.redis[h].expireAt == last.expiry
      && s.redis[h].deadline == if last.expiry > last.at then last.expiry else last.at + 1
  }

  lemma StepLands(s: System, e: Event, h: Hash, ls: seq<Landing>)
    requires Enabled(s, e) && AsLanded(s, h, ls)
    ensures AsLanded(Apply(s, e), h, ls + LandingBy(s, e, h))
  {
    assert LandingBy(s, e, h) == [] ==> ls + LandingBy(s, e, h) == ls;
  }

  lemma {:induction false} RunLands(s: System, events: seq<Event>, s': System, h: Hash, ls: seq<Landing>)
    requires Reaches(s, events, s') && AsLanded(s, h, ls)
    ensures AsLanded(s', h, ls + Landings(s, events, s', h))
    decreases |events|
  {
    if events == [] {
      assert ls + [] == ls;
    } else {
      var e, next := events[0], Apply(s, events[0]);
      StepLands(s, e, h, ls);
      RunLands(next, events[1..], s', h, ls + LandingBy(s, e, h));
      Associate(ls, LandingBy(s, e, h), Landings(next, events[1..], s', h));
    }
  }

  lemma Associate(a: seq<Landing>, b: seq<Landing>, c: seq<Landing>)
    ensures a + b + c == a + (b + c)
  {
  }

  // In every state of every run, a key on which a write has landed carries the expiry of the last one, and
  // Redis keeps it exactly until that expiry, or for one second if the expiry was over when it landed.
  lemma KeyLivesAsLong(s0: System, events: seq<Event>, s: System, h: Hash)
    requires Reaches(s0, events, s) && h in s.redis && Landings(s0, events, s, h) != []
    ensures var ls := Landings(s0, events, s, h);
            var last := ls[|ls| - 1];
            && s.redis[h].expireAt == last.expiry
            && s.redis[h].deadline == (if last.expiry > last.at then last.expiry else last.at + 1)
            && s.redis[h].deadline >= s.redis[h].expireAt
  {
    RunLands(s0, events, s, h, []);
    assert [] + Landings(s0, events, s, h) == Landings(s0, events, s, h);
  }

  // ---------------------------------------------------------------- what is bought

  // A committed renewal is for the days of its order's plan, from a reading of the clock no later than now.
  ghost predicate BoughtOk(s: System) {
    && (forall c :: c in s.calls && s.calls[c].phase.Saved? ==> s.calls[c].phase.at <= s.clock)
    && (forall a, i :: 0 <= i < |RenewalsOf(s, a)| ==>
          var r := RenewalsOf(s, a)[i];
          && r.order in s.orders && s.orders[r.order].days > 0
          && r.seconds == s.orders[r.order].days * 86400 && r.at <= s.clock)
  }

  lemma CommitKeepsBought(s: System, c: CallId)
    requires BoughtOk(s) && ReadsOk(s) && Enabled(s, Commit(c)) && s.calls[c].phase.Saved?
    ensures BoughtOk(Apply(s, Commit(c)))
  {
    assert HoldsApp(s, c, s.orders[s.calls[c].order].app);
    var a, r := RenewingCommitRenews(s, c);
    var s' := Apply(s, Commit(c));
    forall b, i | 0 <= i < |RenewalsOf(s', b)|
      ensures var x := RenewalsOf(s', b)[i];
              && x.order in s'.orders && s'.orders[x.order].days > 0
              && x.seconds == s'.orders[x.order].days * 86400 && x.at <= s'.clock
    {
      assert i < |RenewalsOf(s, b)| ==> RenewalsOf(s', b)[i] == RenewalsOf(s, b)[i];
    }
  }

  lemma OtherKeepsBought(s: System, e: Event)
    requires BoughtOk(s) && Enabled(s, e) && (e.Commit? ==> !s.calls[e.call].phase.Saved?)
    ensures BoughtOk(Apply(s, e))
  {
    var s' := Apply(s, e);
    forall a ensures RenewalsOf(s', a) == RenewalsOf(s, a) {
    }
    SameDays(s, e);
  }

  lemma SameDays(s: System, e: Event)
    requires Enabled(s, e)
    ensures s.clock <= Apply(s, e).clock
    ensures forall o :: o in s.orders ==> o in Apply(s, e).orders && Apply(s, e).orders[o].days == s.orders[o].days
  {
  }

  lemma {:induction false} RunKeepsBought(s0: System, s: System, events: seq<Event>, s': System)
    requires Sound(s0, s) && BoughtOk(s) && Reaches(s, events, s')
    ensures BoughtOk(s')
    decreases |events|
  {
    if events == [] {
    } else {
      var e := events[0];
      if e.Commit? && s.calls[e.call].phase.Saved? {
        CommitKeepsBought(s, e.call);
      } else {
        OtherKeepsBought(s, e);
      }
      StepKeepsSound(s0, s, e);
      RunKeepsBought(s0, Apply(s, e), events[1..], s');
    }
  }

  // In every run each renewal of an app buys the days of its order's plan, of 86400 seconds each.
  lemma RenewalsAreBought(s0: System, events: seq<Event>, s: System, a: AppId, i: nat)
    requires Start(s0) && Reaches(s0, events, s) && i < |RenewalsOf(s, a)|
    ensures var r := RenewalsOf(s, a)[i];
            && r.order in s.orders && s.orders[r.order].days > 0
            && r.seconds == s.orders[r.order].days * 86400 && r.at <= s.clock
  {
    StartIsSound(s0);
    RunKeepsBought(s0, s0, events, s);
  }
}
