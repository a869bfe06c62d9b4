/**
 No confirmation waits for ever: from every reachable state every open call can be brought to its end
 by steps of confirmations alone.  Each takes the order's lock before the app's, so a holder of an app's
 lock waits for nobody, and a holder of an order's lock at most for one of those.
 */
module ConfirmProgress {
  import opened Wrappers
  import opened OrderConfirm

  // Every call's order is known.
  ghost predicate OrdersKnown(s: System) {
    forall c :: c in s.calls ==> s.calls[c].order in s.orders
  }

  lemma {:induction false} RunKeepsOrdersKnown(s: System, events: seq<Event>, s': System)
    requires OrdersKnown(s) && Reaches(s, events, s')
    ensures OrdersKnown(s')
    decreases |events|
  {
    if events == [] {
    } else {
      StepKeepsOrdersKnown(s, events[0]);
      RunKeepsOrdersKnown(Apply(s, events[0]), events[1..], s');
    }
  }

  lemma StepKeepsOrdersKnown(s: System, e: Event)
    requires OrdersKnown(s) && Enabled(s, e)
    ensures OrdersKnown(Apply(s, e))
  {
  }

  // The locks, the reads and the orders are in order.
  ghost predicate Ready(s: System) {
    LocksOk(s) && ReadsOk(s) && OrdersKnown(s)
  }

  // Only `c` has moved, to its end.
  ghost predicate OnlyEnded(s: System, s': System, c: CallId) {
    && c in s.calls && s'.calls == s.calls[c := s.calls[c].(phase := Done)]
    && s'.apps.Keys == s.apps.Keys && s'.orders.Keys == s.orders.Keys
    && (forall o :: o in s.orders ==> s'.orders[o].app == s.orders[o].app)
  }

  // Calls have ended, none that had not begun its transaction, and nothing else has moved.
  ghost predicate SomeEnded(s: System, s': System) {
    && s'.calls.Keys == s.calls.Keys && s'.orders.Keys == s.orders.Keys
    && forall e :: e in s.calls ==>
         || s'.calls[e] == s.calls[e]
         || (!s.calls[e].phase.Called? && s'.calls[e] == s.calls[e].(phase := Done))
  }

  // ---------------------------------------------------------------- a holder of an app's lock

  lemma CommitEnds(s: System, c: CallId) returns (s': System)
    requires Enabled(s, Commit(c)) && (s.calls[c].phase.Saved? ==> s.orders[s.calls[c].order].app in s.apps)
    ensures Reaches(s, [Commit(c)], s') && OnlyEnded(s, s', c)
  {
    s' := Apply(s, Commit(c));
    FirstStep(s, Commit(c), [], s');
  }

  lemma SaveStep(s: System, c: CallId) returns (s': System)
    requires Enabled(s, Save(c))
    ensures s' == Apply(s, Save(c)) && Enabled(s', Commit(c))
    ensures s'.calls == s.calls[c := s.calls[c].(phase := s'.calls[c].phase)]
    ensures s'.apps == s.apps && s'.orders == s.orders
  {
    s' := Apply(s, Save(c));
  }

  lemma LockedEnds(s: System, c: CallId) returns (events: seq<Event>, s': System)
    requires Ready(s) && c in s.calls && s.calls[c].phase.Locked?
    ensures Reaches(s, events, s') && OnlyEnded(s, s', c)
  {
    var o := s.orders[s.calls[c].order];
    assert HoldsApp(s, c, o.app);
    if s.apps[o.app].approved && o.days > 0 {
      var saved := SaveStep(s, c);
      s' := CommitEnds(saved, c);
      FirstStep(s, Save(c), [Commit(c)], s');
      events := [Save(c)] + [Commit(c)];
    } else {
      s' := CommitEnds(s, c);
      events := [Commit(c)];
    }
  }

  lemma HolderEnds(s: System, c: CallId) returns (events: seq<Event>, s': System)
    requires Ready(s) && c in s.calls && (s.calls[c].phase.Locked? || s.calls[c].phase.Saved?)
    ensures Reaches(s, events, s') && OnlyEnded(s, s', c)
  {
    if s.calls[c].phase.Locked? {
      events, s' := LockedEnds(s, c);
    } else {
      assert HoldsApp(s, c, s.orders[s.calls[c].order].app);
      s' := CommitEnds(s, c);
      events := [Commit(c)];
    }
  }

  // ---------------------------------------------------------------- a holder of an order's lock

  lemma LockStep(s: System, c: CallId) returns (s': System)
    requires Ready(s) && Enabled(s, LockApp(c))
    ensures s' == Apply(s, LockApp(c)) && Ready(s')
    ensures s'.calls == s.calls[c := s.calls[c].(phase := s'.calls[c].phase)] && s'.calls[c].phase.Locked?
    ensures s'.apps == s.apps && s'.orders == s.orders
  {
    s' := Apply(s, LockApp(c));
    var a := s.orders[s.calls[c].order].app;
    forall d: CallId, p: OrderId ensures HoldsOrder(s', d, p) <==> HoldsOrder(s, d, p) {
    }
    forall d: CallId, b: AppId | HoldsApp(s', d, b)
      ensures (d == c && b == a) || (HoldsApp(s, d, b) && s'.calls[d] == s.calls[d])
    {
    }
    assert forall d: CallId :: !HoldsApp(s, d, a);
  }

  lemma FreeClaimEnds(s: System, c: CallId) returns (events: seq<Event>, s': System)
    requires Ready(s) && c in s.calls && s.calls[c].phase.Claimed?
    requires s.orders[s.calls[c].order].app in s.apps && AppFree(s, s.orders[s.calls[c].order].app)
    ensures Reaches(s, events, s') && OnlyEnded(s, s', c)
  {
    var locked := LockStep(s, c);
    var rest;
    rest, s' := LockedEnds(locked, c);
    FirstStep(s, LockApp(c), rest, s');
    events := [LockApp(c)] + rest;
  }

  // Once its one holder has ended, an app's lock is free.
  lemma EndedFrees(s: System, s': System, d: CallId, a: AppId)
    requires LocksOk(s) && HoldsApp(s, d, a) && OnlyEnded(s, s', d)
    ensures AppFree(s', a)
  {
    forall e: CallId ensures !HoldsApp(s', e, a) {
      assert HoldsApp(s', e, a) ==> HoldsApp(s, e, a);
    }
  }

  lemma RunKeepsReady(s0: System, s: System, events: seq<Event>, s': System)
    requires Sound(s0, s) && OrdersKnown(s) && Reaches(s, events, s')
    ensures Sound(s0, s') && OrdersKnown(s') && Ready(s')
  {
    RunKeepsSound(s0, s, events, s');
    RunKeepsOrdersKnown(s, events, s');
  }

  lemma BothEnded(s: System, m: System, s': System, d: CallId, c: CallId)
    requires OnlyEnded(s, m, d) && OnlyEnded(m, s', c)
    requires !s.calls[d].phase.Called? && c in s.calls && !s.calls[c].phase.Called?
    ensures SomeEnded(s, s') && s'.calls[c].phase.Done?
  {
  }

  // The holder of the app's lock is let end first.
  lemma HolderMakesWay(s0: System, s: System, c: CallId, d: CallId) returns (events: seq<Event>, m: System)
    requires Sound(s0, s) && OrdersKnown(s) && c in s.calls && s.calls[c].phase.Claimed?
    requires HoldsApp(s, d, s.orders[s.calls[c].order].app) && s.orders[s.calls[c].order].app in s.apps
    ensures Reaches(s, events, m) && OnlyEnded(s, m, d) && Ready(m) && m.calls[c] == s.calls[c]
    ensures m.orders[m.calls[c].order].app in m.apps && AppFree(m, m.orders[m.calls[c].order].app)
  {
    events, m := HolderEnds(s, d);
    EndedFrees(s, m, d, s.orders[s.calls[c].order].app);
    RunKeepsReady(s0, s, events, m);
  }

  lemma WaitingClaimEnds(s0: System, s: System, c: CallId, d: CallId) returns (events: seq<Event>, s': System)
    requires Sound(s0, s) && OrdersKnown(s) && c in s.calls && s.calls[c].phase.Claimed?
    requires HoldsApp(s, d, s.orders[s.calls[c].order].app) && s.orders[s.calls[c].order].app in s.apps
    ensures Reaches(s, events, s') && SomeEnded(s, s') && s'.calls[c].phase.Done?
  {
    var first, m := HolderMakesWay(s0, s, c, d);
    var second;
    second, s' := FreeClaimEnds(m, c);
    ReachesTogether(s, first, m, second, s');
    BothEnded(s, m, s', d, c);
    events := first + second;
  }

  lemma ClaimedEnds(s0: System, s: System, c: CallId) returns (events: seq<Event>, s': System)
    requires Sound(s0, s) && OrdersKnown(s) && c in s.calls && s.calls[c].phase.Claimed?
    ensures Reaches(s, events, s') && SomeEnded(s, s') && s'.calls[c].phase.Done?
  {
    var a := s.orders[s.calls[c].order].app;
    if a !in s.apps {
      s' := CommitEnds(s, c);
      events := [Commit(c)];
    } else if AppFree(s, a) {
      events, s' := FreeClaimEnds(s, c);
    } else {
      var d :| HoldsApp(s, d, a);
      events, s' := WaitingClaimEnds(s0, s, c, d);
    }
  }

  lemma OrderHolderEnds(s0: System, s: System, c: CallId) returns (events: seq<Event>, s': System)
    requires Sound(s0, s) && OrdersKnown(s) && c in s.calls && HoldsOrder(s, c, s.calls[c].order)
    ensures Reaches(s, events, s') && SomeEnded(s, s') && s'.calls[c].phase.Done?
  {
    if s.calls[c].phase.Claimed? {
      events, s' := ClaimedEnds(s0, s, c);
    } else {
      events, s' := HolderEnds(s, c);
    }
  }

  // ---------------------------------------------------------------- a call that holds nothing yet

  lemma ClaimStep(s: System, c: CallId) returns (s': System)
    requires Enabled(s, Claim(c))
    ensures s' == Apply(s, Claim(c))
    ensures s'.calls.Keys == s.calls.Keys && (s'.calls[c].phase.Claimed? || s'.calls[c].phase.Done?)
  {
    s' := Apply(s, Claim(c));
  }

  lemma FreeCallEnds(s0: System, s: System, c: CallId) returns (events: seq<Event>, s': System)
    requires Sound(s0, s) && OrdersKnown(s) && c in s.calls && s.calls[c].phase.Called?
    requires OrderFree(s, s.calls[c].order)
    ensures Reaches(s, events, s') && c in s'.calls && s'.calls[c].phase.Done?
  {
    var m := ClaimStep(s, c);
    FirstStep(s, Claim(c), [], m);
    if m.calls[c].phase.Done? {
      events, s' := [Claim(c)], m;
    } else {
      RunKeepsReady(s0, s, [Claim(c)], m);
      var rest;
      rest, s' := ClaimedEnds(s0, m, c);
      ReachesTogether(s, [Claim(c)], m, rest, s');
      events := [Claim(c)] + rest;
    }
  }

  lemma OrderFreed(s: System, s': System, d: CallId, o: OrderId)
    requires LocksOk(s) && HoldsOrder(s, d, o) && SomeEnded(s, s') && s'.calls[d].phase.Done?
    ensures OrderFree(s', o)
  {
    forall e: CallId ensures !HoldsOrder(s', e, o) {
      assert HoldsOrder(s', e, o) ==> HoldsOrder(s, e, o);
    }
  }

  lemma WaitingCallEnds(s0: System, s: System, c: CallId, d: CallId) returns (events: seq<Event>, s': System)
    requires Sound(s0, s) && OrdersKnown(s) && c in s.calls && s.calls[c].phase.Called?
    requires HoldsOrder(s, d, s.calls[c].order)
    ensures Reaches(s, events, s') && c in s'.calls && s'.calls[c].phase.Done?
  {
    var first, m := OrderHolderEnds(s0, s, d);
    OrderFreed(s, m, d, s.calls[c].order);
    RunKeepsReady(s0, s, first, m);
    var second;
    second, s' := FreeCallEnds(s0, m, c);
    ReachesTogether(s, first, m, second, s');
    events := first + second;
  }

  // ---------------------------------------------------------------- main result

  lemma CallCanEnd(s0: System, s: System, c: CallId) returns (events: seq<Event>, s': System)
    requires Sound(s0, s) && OrdersKnown(s) && c in s.calls
    ensures Reaches(s, events, s') && c in s'.calls && s'.calls[c].phase.Done?
  {
    if s.calls[c].phase.Done? {
      events, s' := [], s;
    } else if !s.calls[c].phase.Called? {
      events, s' := OrderHolderEnds(s0, s, c);
    } else if OrderFree(s, s.calls[c].order) {
      events, s' := FreeCallEnds(s0, s, c);
    } else {
      var d :| HoldsOrder(s, d, s.calls[c].order);
      events, s' := WaitingCallEnds(s0, s, c, d);
    }
  }

  // In every state of every run every call can still reach its end: there is no deadlock.
  lemma NoDeadlock(s0: System, before: seq<Event>, s: System, c: CallId) returns (after: seq<Event>, s': System)
    requires Start(s0) && Reaches(s0, before, s) && c in s.calls
    ensures Reaches(s, after, s') && c in s'.calls && s'.calls[c].phase.Done?
  {
    StartIsSound(s0);
    RunKeepsReady(s0, s0, before, s);
    after, s' := CallCanEnd(s0, s, c);
  }
}
