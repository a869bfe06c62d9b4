/**
 Which requests the circuit breaker refuses, over every run: those that come too soon after it opened,
 and those beyond the probes while it is half-open.  A closed breaker refuses none.
 */
module BreakerAdmission {
  import opened Wrappers
  import opened Clock
  import opened CircuitBreaker

  // When the breaker last opened: the reading at the completion that took it out of Closed or HalfOpen.
  // None while it is closed.
  ghost function OpenSince(c: Config, t0: nat, events: seq<Event>): Option<nat> {
    if events == [] then None
    else
      var n := |events| - 1;
      var before, after := Run(c, Initial(t0), events[..n]).state, Run(c, Initial(t0), events).state;
      match after
      case Closed => None
      case Open => if before == Open then OpenSince(c, t0, events[..n]) else Some(events[n].at)
      case HalfOpen => OpenSince(c, t0, events[..n])
  }

  ghost predicate Passes(c: Config, t0: nat, events: seq<Event>, at: nat) {
    Admit(c, Run(c, Initial(t0), events), at).1
  }

  // The arrivals let through since the one that turned the breaker half-open, that one not counted.
  ghost function LetThrough(c: Config, t0: nat, events: seq<Event>): nat {
    if events == [] || Run(c, Initial(t0), events).state != HalfOpen then 0
    else
      var n := |events| - 1;
      if Run(c, Initial(t0), events[..n]).state != HalfOpen then 0
      else
        LetThrough(c, t0, events[..n])
        + if events[n].Arrive? && Passes(c, t0, events[..n], events[n].at) then 1 else 0
  }

  lemma StepOpens(c: Config, b: Breaker, e: Event)
    requires b.openedAt.Some? <==> b.state != Closed
    ensures var s := Step(c, b, e);
            s.openedAt == match s.state
                          case Closed => None
                          case Open => if b.state == Open then b.openedAt else Some(e.at)
                          case HalfOpen => b.openedAt
    ensures Step(c, b, e).state == HalfOpen ==> b.state != Closed
  {
  }

  // The opening time the breaker carries is that of its last opening.
  lemma {:induction false} CarriesOpening(c: Config, t0: nat, events: seq<Event>)
    ensures Run(c, Initial(t0), events).openedAt == OpenSince(c, t0, events)
    ensures OpenSince(c, t0, events).Some? <==> Run(c, Initial(t0), events).state != Closed
  {
    if events == [] {
    } else {
      var front, e := events[..|events| - 1], events[|events| - 1];
      CarriesOpening(c, t0, front);
      StepOpens(c, Run(c, Initial(t0), front), e);
    }
  }

  lemma StepCountsProbe(c: Config, b: Breaker, e: Event)
    requires b.openedAt.Some? <==> b.state != Closed
    requires Step(c, b, e).state == HalfOpen
    ensures Step(c, b, e).halfOpenCount
            == if b.state != HalfOpen then 0
               else b.halfOpenCount + if e.Arrive? && Admit(c, b, e.at).1 then 1 else 0
  {
  }

  // The probe count is the number of arrivals let through.
  lemma {:induction false} CountsLetThrough(c: Config, t0: nat, events: seq<Event>)
    ensures Run(c, Initial(t0), events).state == HalfOpen ==>
              Run(c, Initial(t0), events).halfOpenCount == LetThrough(c, t0, events)
  {
    if events == [] {
    } else {
      var front, e := events[..|events| - 1], events[|events| - 1];
      CountsLetThrough(c, t0, front);
      CarriesOpening(c, t0, front);
      if Run(c, Initial(t0), events).state == HalfOpen {
        StepCountsProbe(c, Run(c, Initial(t0), front), e);
      }
    }
  }

  // An arrival is refused exactly when the breaker is open and less than the open duration has passed
  // since it opened, or half-open with as many arrivals let through as there may be probes.
  lemma RefusedExactly(c: Config, t0: nat, events: seq<Event>, at: nat)
    requires Ordered(t0, events + [Arrive(at)])
    ensures var state := Run(c, Initial(t0), events).state;
            !Passes(c, t0, events, at)
            <==> || (state == Open && OpenSince(c, t0, events).Some?
                     && at < OpenSince(c, t0, events).value + c.openDuration)
                 || (state == HalfOpen && LetThrough(c, t0, events) == c.halfOpenProbes)
  {
    CarriesOpening(c, t0, events);
    CountsLetThrough(c, t0, events);
    OrderedParts(t0, events, Arrive(at));
    RunKeepsInvariant(c, t0, events);
  }

  // Every arrival at a closed breaker passes.
  lemma ClosedLetsPass(c: Config, t0: nat, events: seq<Event>, at: nat)
    requires Run(c, Initial(t0), events).state == Closed
    ensures Passes(c, t0, events, at)
  {
  }

  // What an arrival does to the breaker: one that passes an open breaker turns it half-open with no probe
  // counted yet; no other changes the state, and none the window or the opening time.
  lemma ArrivalMoves(c: Config, t0: nat, events: seq<Event>, at: nat)
    ensures var b, b' := Run(c, Initial(t0), events), Run(c, Initial(t0), events + [Arrive(at)]);
            && b'.state == (if b.state == Open && Passes(c, t0, events, at) then HalfOpen else b.state)
            && b'.window == b.window && b'.openedAt == b.openedAt
            && (b.state == Open && b'.state == HalfOpen ==> LetThrough(c, t0, events + [Arrive(at)]) == 0)
  {
    CarriesOpening(c, t0, events);
    RunSnoc(c, Initial(t0), events, Arrive(at));
    assert (events + [Arrive(at)])[..|events|] == events;
  }

  // A completion that finds the breaker open leaves it open since the same time.
  lemma LateCompletionStaysOpen(c: Config, t0: nat, events: seq<Event>, at: nat, outcome: Outcome)
    requires Run(c, Initial(t0), events).state == Open
    ensures Run(c, Initial(t0), events + [Finish(at, outcome)]).state == Open
    ensures OpenSince(c, t0, events + [Finish(at, outcome)]) == OpenSince(c, t0, events)
  {
    RunSnoc(c, Initial(t0), events, Finish(at, outcome));
    assert (events + [Finish(at, outcome)])[..|events|] == events;
  }

  // Each completion is counted as a success exactly if it is a response that is not classified as a
  // failure.
  lemma CountedAs(events: seq<Event>, at: nat, outcome: Outcome)
    ensures Log(events + [Finish(at, outcome)]) == Log(events) + [Completion(at, outcome == Response(false))]
    ensures Log(events + [Arrive(at)]) == Log(events)
  {
    assert (events + [Finish(at, outcome)])[..|events|] == events;
    assert (events + [Arrive(at)])[..|events|] == events;
  }
}
