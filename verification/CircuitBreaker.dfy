/**
 The circuit breaker of `ecat-circuit-breaker`.

 `SlidingWindow` and `CircuitBreaker` are the two mutable objects; every method is one
 section executed under the mutex and takes the clock reading of that section.  `Window`
 and `Breaker` are their abstract values: the abstract window is the list of completions
 recorded since the last rotate or clear, of which the object keeps only two counters.
 */
module CircuitBreaker {
  import opened Wrappers
  import opened Clock

  datatype State = Closed | Open | HalfOpen

  datatype Config = Config(failureRatio: real, window: nat, halfOpenProbes: nat, openDuration: nat)

  datatype Completion = Completion(at: nat, success: bool)

  // What the wrapped service produced: a response, which the classify callback may
  // still call a failure, or a transport error.
  datatype Outcome = Response(classifiedFailure: bool) | Error

  function Succeeded(o: Outcome): bool {
    o.Response? && !o.classifiedFailure
  }

  function Count(cs: seq<Completion>, success: bool): nat {
    if cs == [] then 0
    else Count(cs[..|cs| - 1], success) + if cs[|cs| - 1].success == success then 1 else 0
  }

  lemma {:induction false} CountsAddUp(cs: seq<Completion>)
    ensures Count(cs, true) + Count(cs, false) == |cs|
  {
    if cs == [] {
    } else {
      CountsAddUp(cs[..|cs| - 1]);
    }
  }

  lemma CountsSnoc(cs: seq<Completion>, c: Completion)
    ensures Count(cs + [c], c.success) == Count(cs, c.success) + 1
    ensures Count(cs + [c], !c.success) == Count(cs, !c.success)
  {
    assert (cs + [c])[..|cs|] == cs;
  }

  // n * r, added up: keeps products of variables away from the larger proofs.
  function Times(n: nat, r: real): real {
    if n == 0 then 0.0 else r + Times(n - 1, r)
  }

  lemma {:induction false} TimesIsProduct(n: nat, r: real)
    ensures Times(n, r) == n as real * r
  {
    if n == 0 {
    } else {
      TimesIsProduct(n - 1, r);
      assert n as real * r == (n - 1) as real * r + r;
    }
  }

  lemma RatioAsTimes(k: nat, n: nat, r: real)
    requires n > 0
    ensures k as real / n as real >= r <==> k as real >= Times(n, r)
  {
    var q := k as real / n as real;
    assert q * n as real == k as real;
    TimesIsProduct(n, r);
    CompareScaled(q, r, n as real);
  }

  lemma CompareScaled(q: real, r: real, m: real)
    requires m > 0.0
    ensures q >= r <==> q * m >= m * r
  {
    assert q * m - m * r == (q - r) * m;
    if q < r {
      assert (q - r) * m < 0.0;
    } else {
      assert (q - r) * m >= 0.0;
    }
  }

  // ---------------------------------------------------------------- abstract values

  datatype Window = Window(recent: seq<Completion>, start: nat) {
    function Rotate(length: nat, now: nat): Window {
      if Elapsed(start, now) >= length then Window([], now) else this
    }

    function Record(length: nat, now: nat, success: bool): Window {
      var w := Rotate(length, now);
      w.(recent := w.recent + [Completion(now, success)])
    }

    // At least five completions, and failures / total at or above the ratio.
    ghost predicate Failing(ratio: real) {
      |recent| >= 5 && Count(recent, false) as real >= Times(|recent|, ratio)
    }
  }

  datatype Breaker = Breaker(state: State, window: Window, openedAt: Option<nat>, halfOpenCount: nat)

  function Initial(now: nat): Breaker {
    Breaker(Closed, Window([], now), None, 0)
  }

  // First half of `call`: may the request go through, and what the breaker becomes.
  function Admit(c: Config, b: Breaker, now: nat): (Breaker, bool) {
    match b.state
    case Closed => (b, true)
    case Open =>
      if b.openedAt.None? then (b, true)
      else if Elapsed(b.openedAt.value, now) >= c.openDuration then
        (b.(state := HalfOpen, halfOpenCount := 0), true)
      else (b, false)
    case HalfOpen =>
      if b.halfOpenCount >= c.halfOpenProbes then (b, false)
      else (b.(halfOpenCount := b.halfOpenCount + 1), true)
  }

  // Second half of `call`: the response or error of an admitted request arrives.
  ghost function Complete(c: Config, b: Breaker, now: nat, o: Outcome): Breaker {
    var w := b.window.Record(c.window, now, Succeeded(o));
    match b.state
    case Closed =>
      var w := w.Rotate(c.window, now);
      if w.Failing(c.failureRatio) then
        b.(window := w, state := Open, openedAt := Some(now))
      else b.(window := w)
    case HalfOpen =>
      if o.Response? then b.(window := Window([], now), state := Closed, openedAt := None)
      else b.(window := w, state := Open, openedAt := Some(now))
    case Open => b.(window := w)
  }

  // ---------------------------------------------------------------- the objects

  class SlidingWindow {
    var successes: nat
    var failures: nat
    var windowStart: nat
    const window: nat
    ghost var recent: seq<Completion>

    ghost predicate Valid()
      reads this
    {
      successes == Count(recent, true) && failures == Count(recent, false)
    }

    ghost function Value(): Window
      reads this
    {
      Window(recent, windowStart)
    }

    constructor (window: nat, now: nat)
      ensures Valid() && this.window == window && Value() == Window([], now)
    {
      this.window := window;
      successes, failures, windowStart := 0, 0, now;
      recent := [];
    }

    method Record(now: nat, success: bool)
      requires Valid()
      modifies this
      ensures Valid() && Value() == old(Value()).Record(window, now, success)
    {
      Rotate(now);
      ghost var rotated := Value();
      ghost var done := Completion(now, success);
      CountsSnoc(rotated.recent, done);
      if success {
        successes := successes + 1;
      } else {
        failures := failures + 1;
      }
      recent := rotated.recent + [done];
      assert Value() == rotated.(recent := rotated.recent + [done]);
    }

    method Total(now: nat) returns (total: nat)
      requires Valid()
      modifies this
      ensures Valid() && Value() == old(Value()).Rotate(window, now)
      ensures total == |recent|
    {
      Rotate(now);
      CountsAddUp(recent);
      total := successes + failures;
    }

    method FailureRatio(now: nat) returns (ratio: real)
      requires Valid()
      modifies this
      ensures Valid() && Value() == old(Value()).Rotate(window, now)
      ensures recent == [] ==> ratio == 0.0
      ensures recent != [] ==>
                forall r: real :: ratio >= r <==> Count(recent, false) as real >= Times(|recent|, r)
    {
      var total := Total(now);
      if total == 0 {
        return 0.0;
      }
      ratio := failures as real / total as real;
      forall r: real
        ensures ratio >= r <==> Count(recent, false) as real >= Times(|recent|, r)
      {
        RatioAsTimes(failures, total, r);
      }
    }

    method Rotate(now: nat)
      requires Valid()
      modifies this
      ensures Valid() && Value() == old(Value()).Rotate(window, now)
    {
      if Elapsed(windowStart, now) >= window {
        Clear(now);
      }
    }

    method Clear(now: nat)
      modifies this
      ensures Valid() && Value() == Window([], now)
    {
      successes, failures, windowStart := 0, 0, now;
      recent := [];
    }
  }

  class CircuitBreaker {
    var state: State
    const window: SlidingWindow
    var openedAt: Option<nat>
    var halfOpenCount: nat
    const config: Config

    ghost predicate Valid()
      reads this, window
    {
      window.Valid() && window.window == config.window
    }

    ghost function Value(): Breaker
      reads this, window
    {
      Breaker(state, window.Value(), openedAt, halfOpenCount)
    }

    constructor (config: Config, now: nat)
      ensures Valid() && fresh(window) && this.config == config && Value() == Initial(now)
    {
      this.config := config;
      window := new SlidingWindow(config.window, now);
      state, openedAt, halfOpenCount := Closed, None, 0;
    }

    method AdmitRequest(now: nat) returns (admitted: bool)
      requires Valid()
      modifies this
      ensures Valid() && (Value(), admitted) == Admit(config, old(Value()), now)
      ensures admitted <==>
                && !(old(state) == Open && old(openedAt).Some?
                     && (if now > old(openedAt).value then now - old(openedAt).value else 0) < config.openDuration)
                && !(old(state) == HalfOpen && old(halfOpenCount) >= config.halfOpenProbes)
      ensures state == if old(state) == Open && old(openedAt).Some? && admitted then HalfOpen else old(state)
      ensures halfOpenCount == if state == HalfOpen && old(state) == Open then 0
                               else if old(state) == HalfOpen && admitted then old(halfOpenCount) + 1
                               else old(halfOpenCount)
      ensures openedAt == old(openedAt)
    {
      match state
      case Open =>
        if openedAt.Some? {
          if Elapsed(openedAt.value, now) >= config.openDuration {
            state := HalfOpen;
            halfOpenCount := 0;
          } else {
            return false;
          }
        }
        return true;
      case HalfOpen =>
        if halfOpenCount >= config.halfOpenProbes {
          return false;
        }
        halfOpenCount := halfOpenCount + 1;
        return true;
      case Closed =>
        return true;
    }

    method CompleteRequest(now: nat, outcome: Outcome)
      requires Valid()
      modifies this, window
      ensures Valid() && Value() == Complete(config, old(Value()), now, outcome)
    {
      window.Record(now, Succeeded(outcome));
      ghost var recorded := old(Value()).window.Record(config.window, now, Succeeded(outcome));
      assert window.Value() == recorded;
      match state
      case Closed =>
        var total := window.Total(now);
        if total >= 5 {
          var ratio := window.FailureRatio(now);
          assert window.Value() == recorded.Rotate(config.window, now);
          if ratio >= config.failureRatio {
            state := Open;
            openedAt := Some(now);
          }
        }
      case HalfOpen =>
        if outcome.Response? {
          state := Closed;
          openedAt := None;
          window.Clear(now);
        } else {
          state := Open;
          openedAt := Some(now);
        }
      case Open =>
    }
  }

  // ---------------------------------------------------------------- runs

  // One locked section.  Completions may come in any order and arbitrarily late: a run is
  // any interleaving, so it also covers requests admitted in one state and completed in another.
  datatype Event = Arrive(at: nat) | Finish(at: nat, outcome: Outcome)

  ghost function Step(c: Config, b: Breaker, e: Event): Breaker {
    match e
    case Arrive(at) => Admit(c, b, at).0
    case Finish(at, outcome) => Complete(c, b, at, outcome)
  }

  ghost function Run(c: Config, b: Breaker, events: seq<Event>): Breaker {
    if events == [] then b
    else Step(c, Run(c, b, events[..|events| - 1]), events[|events| - 1])
  }

  // Clock readings never go back, starting from `from`.
  ghost predicate Ordered(from: nat, events: seq<Event>) {
    && (forall i :: 0 <= i < |events| ==> from <= events[i].at)
    && (forall i, j :: 0 <= i < j < |events| ==> events[i].at <= events[j].at)
  }

  function Log(events: seq<Event>): seq<Completion> {
    if events == [] then []
    else Log(events[..|events| - 1]) + Logged(events[|events| - 1])
  }

  ghost predicate IsSuffix(s: seq<Completion>, t: seq<Completion>) {
    |s| <= |t| && s == t[|t| - |s|..]
  }

  // The counted completions are the latest ones, none older than the window's start, and every
  // completion that is not counted came no later than that start.
  ghost predicate WindowOk(w: Window, log: seq<Completion>, now: nat) {
    && w.start <= now
    && IsSuffix(w.recent, log)
    && (forall x :: x in w.recent ==> w.start <= x.at)
    && (forall i :: 0 <= i < |log| ==> log[i].at <= now)
    && (forall i :: 0 <= i < |log| - |w.recent| ==> log[i].at <= w.start)
  }

  lemma RotateKeepsWindow(w: Window, log: seq<Completion>, now: nat, length: nat, later: nat)
    requires WindowOk(w, log, now) && now <= later
    ensures WindowOk(w.Rotate(length, later), log, later)
  {
  }

  lemma AppendKeepsWindow(w: Window, log: seq<Completion>, now: nat, x: Completion)
    requires WindowOk(w, log, now) && x.at == now
    ensures WindowOk(w.(recent := w.recent + [x]), log + [x], now)
  {
    var k := |log| - |w.recent|;
    assert w.recent + [x] == (log + [x])[k..];
    assert forall i :: 0 <= i < |log| ==> (log + [x])[i] == log[i];
  }

  lemma RecordKeepsWindow(w: Window, log: seq<Completion>, now: nat, length: nat, later: nat, success: bool)
    requires WindowOk(w, log, now) && now <= later
    ensures WindowOk(w.Record(length, later, success), log + [Completion(later, success)], later)
  {
    RotateKeepsWindow(w, log, now, length, later);
    AppendKeepsWindow(w.Rotate(length, later), log, later, Completion(later, success));
  }

  lemma ClearKeepsWindow(log: seq<Completion>, now: nat)
    requires forall i :: 0 <= i < |log| ==> log[i].at <= now
    ensures WindowOk(Window([], now), log, now)
  {
  }

  // Open and HalfOpen carry the opening time, Closed none, and no probe too many is counted.
  ghost predicate StateOk(c: Config, b: Breaker, now: nat) {
    && (b.openedAt.Some? <==> b.state != Closed)
    && (b.openedAt.Some? ==> b.openedAt.value <= now)
    && b.halfOpenCount <= c.halfOpenProbes
  }

  // What every reachable breaker satisfies at clock `now`, given all completions so far.
  ghost predicate Invariant(c: Config, b: Breaker, log: seq<Completion>, now: nat) {
    StateOk(c, b, now) && WindowOk(b.window, log, now)
  }

  lemma AdmitKeepsInvariant(c: Config, b: Breaker, log: seq<Completion>, now: nat, later: nat)
    requires Invariant(c, b, log, now) && now <= later
    ensures Invariant(c, Admit(c, b, later).0, log, later)
  {
  }

  // The window a completion leaves: a closed breaker rotates it once more when it looks at the
  // total, a closing one clears it.
  function WindowAfter(c: Config, state: State, w: Window, now: nat, o: Outcome): Window {
    var recorded := w.Record(c.window, now, Succeeded(o));
    match state
    case Closed => recorded.Rotate(c.window, now)
    case HalfOpen => if o.Response? then Window([], now) else recorded
    case Open => recorded
  }

  lemma CompleteLeavesWindow(c: Config, b: Breaker, now: nat, o: Outcome)
    ensures Complete(c, b, now, o).window == WindowAfter(c, b.state, b.window, now, o)
  {
  }

  lemma WindowAfterIsOk(c: Config, state: State, w: Window, log: seq<Completion>, now: nat, later: nat, o: Outcome)
    requires WindowOk(w, log, now) && now <= later
    ensures WindowOk(WindowAfter(c, state, w, later, o), log + [Completion(later, Succeeded(o))], later)
  {
    var x := Completion(later, Succeeded(o));
    var recorded := w.Record(c.window, later, x.success);
    RecordKeepsWindow(w, log, now, c.window, later, x.success);
    match state
    case Closed => RotateKeepsWindow(recorded, log + [x], later, c.window, later);
    case HalfOpen => ClearKeepsWindow(log + [x], later);
    case Open =>
  }

  lemma CompleteKeepsState(c: Config, b: Breaker, now: nat, later: nat, o: Outcome)
    requires StateOk(c, b, now) && now <= later
    ensures StateOk(c, Complete(c, b, later, o), later)
  {
  }

  lemma CompleteKeepsInvariant(c: Config, b: Breaker, log: seq<Completion>, now: nat, later: nat, o: Outcome)
    requires Invariant(c, b, log, now) && now <= later
    ensures Invariant(c, Complete(c, b, later, o), log + [Completion(later, Succeeded(o))], later)
  {
    CompleteKeepsState(c, b, now, later, o);
    CompleteLeavesWindow(c, b, later, o);
    WindowAfterIsOk(c, b.state, b.window, log, now, later, o);
  }

  function Logged(e: Event): seq<Completion> {
    match e
    case Arrive(_) => []
    case Finish(at, outcome) => [Completion(at, Succeeded(outcome))]
  }

  lemma StepKeepsInvariant(c: Config, b: Breaker, log: seq<Completion>, now: nat, e: Event)
    requires Invariant(c, b, log, now) && now <= e.at
    ensures Invariant(c, Step(c, b, e), log + Logged(e), e.at)
  {
    match e
    case Arrive(at) =>
      AdmitKeepsInvariant(c, b, log, now, at);
      assert log + [] == log;
    case Finish(at, outcome) =>
      CompleteKeepsInvariant(c, b, log, now, at, outcome);
  }

  lemma {:induction false} RunKeepsInvariant(c: Config, t0: nat, events: seq<Event>)
    requires Ordered(t0, events)
    ensures Invariant(c, Run(c, Initial(t0), events), Log(events),
                      if events == [] then t0 else events[|events| - 1].at)
  {
    if events == [] {
    } else {
      var front, last := events[..|events| - 1], events[|events| - 1];
      RunKeepsInvariant(c, t0, front);
      var now := if front == [] then t0 else front[|front| - 1].at;
      StepKeepsInvariant(c, Run(c, Initial(t0), front), Log(front), now, last);
    }
  }

  // ---------------------------------------------------------------- what the window counts

  // The last time the window was emptied: the completions since then are those of the events from
  // `index` on.
  datatype Reset = Reset(index: nat, at: nat)

  // A completion empties the window before it is recorded if one window length has passed since the
  // last reset; and after it is recorded if it closes the breaker, or if a closed breaker looks at a
  // window of length zero.
  function ResetBy(c: Config, state: State, before: Reset, n: nat, at: nat, o: Outcome): Reset {
    if state == HalfOpen && o.Response? then Reset(n + 1, at)
    else if Elapsed(before.at, at) < c.window then before
    else if state == Closed && c.window == 0 then Reset(n + 1, at)
    else Reset(n, at)
  }

  ghost function LastReset(c: Config, t0: nat, events: seq<Event>): (r: Reset)
    ensures r.index <= |events|
  {
    if events == [] then Reset(0, t0)
    else
      var n := |events| - 1;
      var before := LastReset(c, t0, events[..n]);
      match events[n]
      case Arrive(_) => before
      case Finish(at, outcome) => ResetBy(c, Run(c, Initial(t0), events[..n]).state, before, n, at, outcome)
  }

  // All completions since the last reset.
  ghost function Counted(c: Config, t0: nat, events: seq<Event>): seq<Completion> {
    Log(events[LastReset(c, t0, events).index..])
  }

  lemma LogFrom(events: seq<Event>, k: nat)
    requires k < |events|
    ensures Log(events[k..]) == Log(events[..|events| - 1][k..]) + Logged(events[|events| - 1])
  {
    assert events[k..][..|events[k..]| - 1] == events[..|events| - 1][k..];
  }

  lemma WindowAfterReset(c: Config, state: State, events: seq<Event>, before: Reset)
    requires events != [] && before.index < |events| && events[|events| - 1].Finish?
    ensures var n := |events| - 1;
            var e := events[n];
            var r := ResetBy(c, state, before, n, e.at, e.outcome);
            && r.index <= |events|
            && WindowAfter(c, state, Window(Log(events[..n][before.index..]), before.at), e.at, e.outcome)
               == Window(Log(events[r.index..]), r.at)
  {
    var n := |events| - 1;
    LogFrom(events, before.index);
    LogFrom(events, n);
    assert Log(events[..n][n..]) == [];
    assert Log(events[n + 1..]) == [];
  }

  lemma WindowStep(c: Config, b: Breaker, events: seq<Event>, before: Reset)
    requires events != [] && before.index < |events| && events[|events| - 1].Finish?
    requires b.window == Window(Log(events[..|events| - 1][before.index..]), before.at)
    ensures var n := |events| - 1;
            var r := ResetBy(c, b.state, before, n, events[n].at, events[n].outcome);
            r.index <= |events| && Step(c, b, events[n]).window == Window(Log(events[r.index..]), r.at)
  {
    var e := events[|events| - 1];
    CompleteLeavesWindow(c, b, e.at, e.outcome);
    WindowAfterReset(c, b.state, events, before);
  }

  // In every run the window is exactly the completions since the last rotate or clear.
  lemma {:induction false} WindowCountsSinceReset(c: Config, t0: nat, events: seq<Event>)
    ensures Run(c, Initial(t0), events).window == Window(Counted(c, t0, events), LastReset(c, t0, events).at)
  {
    if events == [] {
      assert Log(events[0..]) == [];
    } else {
      var front := events[..|events| - 1];
      var before := LastReset(c, t0, front);
      WindowCountsSinceReset(c, t0, front);
      if events[|events| - 1].Finish? {
        WindowStep(c, Run(c, Initial(t0), front), events, before);
      } else {
        LogFrom(events, before.index);
      }
    }
  }

  // Closed opens exactly when the completions since the last reset, all younger than one window
  // length, number five or more at or above the ratio.
  lemma OpensExactlyOnFailingWindow(c: Config, t0: nat, events: seq<Event>, at: nat, outcome: Outcome)
    requires Ordered(t0, events + [Finish(at, outcome)])
    requires Run(c, Initial(t0), events).state == Closed
    ensures var all := events + [Finish(at, outcome)];
            var b := Run(c, Initial(t0), all);
            var counted := Counted(c, t0, all);
            && (forall x :: x in counted ==> x.at <= at < x.at + c.window)
            && b.state != HalfOpen
            && (b.state == Open <==>
                  |counted| >= 5 && Count(counted, false) as real >= Times(|counted|, c.failureRatio))
            && (b.state == Open ==> b.openedAt == Some(at))
  {
    var e := Finish(at, outcome);
    OrderedParts(t0, events, e);
    RunKeepsInvariant(c, t0, events);
    WindowCountsSinceReset(c, t0, events + [e]);
    assert (events + [e])[..|events|] == events;
    var now := if events == [] then t0 else events[|events| - 1].at;
    var b := Run(c, Initial(t0), events);
    CompleteLeavesWindow(c, b, at, outcome);
    ClosedWindowIsYoung(c, b.window, Log(events), now, at, outcome);
    CloseOrOpen(c, b, now, at, outcome);
  }

  lemma OrderedParts(t0: nat, events: seq<Event>, e: Event)
    requires Ordered(t0, events + [e])
    ensures Ordered(t0, events) && (if events == [] then t0 else events[|events| - 1].at) <= e.at
  {
    var all := events + [e];
    assert forall i :: 0 <= i < |events| ==> events[i] == all[i];
    assert all[|events|] == e;
  }

  lemma ClosedWindowIsYoung(c: Config, w: Window, log: seq<Completion>, now: nat, at: nat, o: Outcome)
    requires WindowOk(w, log, now) && now <= at
    ensures forall x :: x in WindowAfter(c, Closed, w, at, o).recent ==> x.at <= at < x.at + c.window
  {
    var log' := log + [Completion(at, Succeeded(o))];
    var w' := WindowAfter(c, Closed, w, at, o);
    WindowAfterIsOk(c, Closed, w, log, now, at, o);
    forall x | x in w'.recent ensures x.at <= at < x.at + c.window {
      assert w'.start <= x.at;
      assert x in log';
    }
  }

  lemma CloseOrOpen(c: Config, b: Breaker, now: nat, at: nat, outcome: Outcome)
    requires StateOk(c, b, now) && b.state == Closed
    ensures var b' := Complete(c, b, at, outcome);
            var recent := b'.window.recent;
            && b'.state != HalfOpen
            && (b'.state == Open <==>
                  |recent| >= 5 && Count(recent, false) as real >= Times(|recent|, c.failureRatio))
            && (b'.state == Open ==> b'.openedAt == Some(at))
  {
  }

  // ---------------------------------------------------------------- probes

  // A completion that finds the breaker half-open closes it exactly when there is a response at all,
  // whatever the classification says, and then nothing is counted any more; an error opens it anew.
  lemma ProbeDecides(c: Config, t0: nat, events: seq<Event>, at: nat, outcome: Outcome)
    requires Run(c, Initial(t0), events).state == HalfOpen
    ensures var all := events + [Finish(at, outcome)];
            var b := Run(c, Initial(t0), all);
            && (b.state == Closed <==> outcome.Response?) && (b.state == Open <==> outcome.Error?)
            && (outcome.Response? ==> b.openedAt == None && Counted(c, t0, all) == [])
            && (outcome.Error? ==> b.openedAt == Some(at))
  {
    var all := events + [Finish(at, outcome)];
    assert all[..|events|] == events && all[|all|..] == [];
  }

  function Repeat(e: Event, n: nat): seq<Event> {
    if n == 0 then [] else [e] + Repeat(e, n - 1)
  }

  lemma {:induction false} RepeatIs(e: Event, n: nat)
    ensures |Repeat(e, n)| == n && forall i :: 0 <= i < n ==> Repeat(e, n)[i] == e
    ensures n > 0 ==> Repeat(e, n)[..n - 1] == Repeat(e, n - 1)
  {
    if n == 0 {
    } else {
      RepeatIs(e, n - 1);
    }
  }

  lemma ErrorIsCounted(c: Config, b: Breaker, now: nat)
    requires c.window > 0 && b.state == Closed && b.window.start == now && |b.window.recent| < 4
    ensures Complete(c, b, now, Error) == b.(window := Window(b.window.recent + [Completion(now, false)], now))
  {
  }

  lemma RunSnoc(c: Config, b: Breaker, events: seq<Event>, e: Event)
    ensures Run(c, b, events + [e]) == Step(c, Run(c, b, events), e)
  {
    assert (events + [e])[..|events|] == events;
  }

  // `n` requests, one after another, that all end in an error at once.
  function Failures(at: nat, n: nat): seq<Event> {
    if n == 0 then [] else Failures(at, n - 1) + [Arrive(at)] + [Finish(at, Error)]
  }

  lemma {:induction false} FailuresAre(at: nat, n: nat)
    ensures |Failures(at, n)| == 2 * n && forall i :: 0 <= i < 2 * n ==> Failures(at, n)[i].at == at
  {
    if n == 0 {
    } else {
      FailuresAre(at, n - 1);
    }
  }

  lemma {:induction false} ErrorsAreCounted(c: Config, t0: nat, n: nat)
    requires n <= 4 && c.window > 0
    ensures var b := Run(c, Initial(t0), Failures(t0, n));
            && b == Breaker(Closed, Window(b.window.recent, t0), None, 0)
            && |b.window.recent| == n == Count(b.window.recent, false)
  {
    if n == 0 {
    } else {
      var front := Failures(t0, n - 1);
      var b := Run(c, Initial(t0), front);
      ErrorsAreCounted(c, t0, n - 1);
      RunSnoc(c, Initial(t0), front, Arrive(t0));
      RunSnoc(c, Initial(t0), front + [Arrive(t0)], Finish(t0, Error));
      ErrorIsCounted(c, b, t0);
      CountsSnoc(b.window.recent, Completion(t0, false));
    }
  }

  // The fifth of five errors at once opens any breaker whose ratio can be reached.
  lemma FifthErrorOpens(c: Config, b: Breaker, now: nat)
    requires c.window > 0 && c.failureRatio <= 1.0
    requires b.state == Closed && b.window.start == now && |b.window.recent| == 4 == Count(b.window.recent, false)
    ensures Complete(c, b, now, Error).state == Open && Complete(c, b, now, Error).openedAt == Some(now)
  {
    CountsSnoc(b.window.recent, Completion(now, false));
    TimesIsProduct(5, c.failureRatio);
  }

  lemma FiveErrorsOpen(c: Config, t0: nat)
    requires c.window > 0 && c.failureRatio <= 1.0
    ensures var b := Run(c, Initial(t0), Failures(t0, 5));
            b.state == Open && b.openedAt == Some(t0)
  {
    var four := Failures(t0, 4);
    ErrorsAreCounted(c, t0, 4);
    RunSnoc(c, Initial(t0), four, Arrive(t0));
    RunSnoc(c, Initial(t0), four + [Arrive(t0)], Finish(t0, Error));
    FifthErrorOpens(c, Run(c, Initial(t0), four), t0);
  }

  // So a response that is classified as a failure does close a half-open breaker: here is the run, of
  // five failing requests and then one that probes.
  lemma ClassifiedFailureCloses(c: Config, t0: nat) returns (events: seq<Event>)
    requires c.window > 0 && c.failureRatio <= 1.0
    ensures events == Failures(t0, 5) + [Arrive(t0 + c.openDuration)]
    ensures var probe := Finish(t0 + c.openDuration, Response(true));
            && Ordered(t0, events + [probe])
            && Run(c, Initial(t0), events).state == HalfOpen
            && Run(c, Initial(t0), events + [probe]).state == Closed
  {
    var five := Failures(t0, 5);
    events := five + [Arrive(t0 + c.openDuration)];
    FailuresAre(t0, 5);
    FiveErrorsOpen(c, t0);
    RunSnoc(c, Initial(t0), five, Arrive(t0 + c.openDuration));
    ProbeDecides(c, t0, events, t0 + c.openDuration, Response(true));
  }

  // ---------------------------------------------------------------- the leak bound

  // Requests let through before the breaker first becomes Closed.
  ghost function AdmittedUntilClosed(c: Config, b: Breaker, events: seq<Event>): nat
    decreases |events|
  {
    if b.state == Closed || events == [] then 0
    else
      (if events[0].Arrive? && Admit(c, b, events[0].at).1 then 1 else 0)
      + AdmittedUntilClosed(c, Step(c, b, events[0]), events[1..])
  }

  // `k` for every whole period of length `d` inside `span`.
  function PerPeriod(k: nat, span: nat, d: nat): nat
    requires d > 0
  {
    if span < d then 0 else k + PerPeriod(k, span - d, d)
  }

  lemma {:induction false} PerPeriodIsProduct(k: nat, span: nat, d: nat)
    requires d > 0
    ensures PerPeriod(k, span, d) == k * (span / d)
  {
    if span < d {
    } else {
      PerPeriodIsProduct(k, span - d, d);
      DivStep(span, d);
      Distribute(k, (span - d) / d);
    }
  }

  lemma Distribute(k: nat, q: nat)
    ensures k * (q + 1) == k + k * q
  {
  }

  lemma DivStep(x: nat, d: nat)
    requires 0 < d <= x
    ensures x / d == (x - d) / d + 1
  {
    var a, b := x / d, (x - d) / d;
    assert x == d * a + x % d && x - d == d * b + (x - d) % d;
    var k := a - b - 1;
    assert d * k == d * a - d * b - d;
  }

  lemma {:induction false} PerPeriodMonotone(k: nat, x: nat, y: nat, d: nat)
    requires d > 0 && x <= y
    ensures PerPeriod(k, x, d) <= PerPeriod(k, y, d)
  {
    if x < d {
    } else {
      PerPeriodMonotone(k, x - d, y - d, d);
    }
  }

  // What a breaker that is not closed can still let through by time `end`.
  function Budget(c: Config, b: Breaker, now: nat, end: nat): nat
    requires c.openDuration > 0 && now <= end
    requires b.state == Open ==> b.openedAt.Some? && b.openedAt.value <= end
    requires b.halfOpenCount <= c.halfOpenProbes
  {
    match b.state
    case Closed => 0
    case Open => PerPeriod(c.halfOpenProbes + 1, end - b.openedAt.value, c.openDuration)
    case HalfOpen =>
      c.halfOpenProbes - b.halfOpenCount + PerPeriod(c.halfOpenProbes + 1, end - now, c.openDuration)
  }

  lemma StepSpendsBudget(c: Config, b: Breaker, log: seq<Completion>, now: nat, e: Event, end: nat)
    requires c.openDuration > 0 && now <= e.at <= end
    requires Invariant(c, b, log, now) && b.state != Closed
    ensures Invariant(c, Step(c, b, e), log + Logged(e), e.at)
    ensures (if e.Arrive? && Admit(c, b, e.at).1 then 1 else 0) + Budget(c, Step(c, b, e), e.at, end)
            <= Budget(c, b, now, end)
  {
    StepKeepsInvariant(c, b, log, now, e);
    var k := c.halfOpenProbes + 1;
    if b.state == HalfOpen {
      PerPeriodMonotone(k, end - e.at, end - now, c.openDuration);
    } else if e.Arrive? && Admit(c, b, e.at).1 {
      PerPeriodMonotone(k, end - e.at, end - b.openedAt.value - c.openDuration, c.openDuration);
    }
  }

  lemma {:induction false} RunSpendsBudget(c: Config, b: Breaker, log: seq<Completion>, now: nat,
                                           events: seq<Event>, end: nat)
    requires c.openDuration > 0 && now <= end
    requires Invariant(c, b, log, now)
    requires Ordered(now, events) && forall e :: e in events ==> e.at <= end
    ensures AdmittedUntilClosed(c, b, events) <= Budget(c, b, now, end)
    decreases |events|
  {
    if b.state == Closed || events == [] {
    } else {
      StepSpendsBudget(c, b, log, now, events[0], end);
      RunSpendsBudget(c, Step(c, b, events[0]), log + Logged(events[0]), events[0].at, events[1..], end);
    }
  }

  // Whatever happened before, once the breaker opens at t0 it lets through at most
  // (probes + 1) * floor(T / openDuration) requests by t0 + T unless it closes first.
  lemma OutageLeakBound(c: Config, t: nat, before: seq<Event>, opening: Event, after: seq<Event>, span: nat)
    requires c.openDuration > 0
    requires Ordered(t, before + [opening] + after)
    requires Run(c, Initial(t), before).state != Open
    requires Run(c, Initial(t), before + [opening]).state == Open
    requires forall e :: e in after ==> e.at <= opening.at + span
    ensures AdmittedUntilClosed(c, Run(c, Initial(t), before + [opening]), after)
            <= (c.halfOpenProbes + 1) * (span / c.openDuration)
  {
    var upTo := before + [opening];
    SplitOrdered(t, upTo, after);
    RunKeepsInvariant(c, t, upTo);
    OpensNow(c, t, before, opening);
    LeakFromOpen(c, Run(c, Initial(t), upTo), Log(upTo), opening.at, after, span);
  }

  lemma LeakFromOpen(c: Config, b: Breaker, log: seq<Completion>, now: nat, after: seq<Event>, span: nat)
    requires c.openDuration > 0
    requires Invariant(c, b, log, now) && b.state == Open && b.openedAt == Some(now)
    requires Ordered(now, after) && forall e :: e in after ==> e.at <= now + span
    ensures AdmittedUntilClosed(c, b, after) <= (c.halfOpenProbes + 1) * (span / c.openDuration)
  {
    RunSpendsBudget(c, b, log, now, after, now + span);
    PerPeriodIsProduct(c.halfOpenProbes + 1, span, c.openDuration);
  }

  lemma OpensNow(c: Config, t: nat, before: seq<Event>, e: Event)
    requires Run(c, Initial(t), before).state != Open
    requires Run(c, Initial(t), before + [e]).state == Open
    ensures Run(c, Initial(t), before + [e]).openedAt == Some(e.at)
  {
    assert (before + [e])[..|before|] == before;
  }

  lemma SplitOrdered(t: nat, upTo: seq<Event>, after: seq<Event>)
    requires upTo != [] && Ordered(t, upTo + after)
    ensures Ordered(t, upTo) && Ordered(upTo[|upTo| - 1].at, after)
  {
    var all := upTo + after;
    assert forall i :: 0 <= i < |upTo| ==> upTo[i] == all[i];
    assert forall i :: 0 <= i < |after| ==> after[i] == all[|upTo| + i];
  }

  lemma {:induction false} ProbesAllAdmitted(c: Config, b: Breaker, at: nat, n: nat, rest: seq<Event>)
    requires b.state == HalfOpen && b.halfOpenCount + n <= c.halfOpenProbes
    ensures AdmittedUntilClosed(c, b, Repeat(Arrive(at), n) + rest)
            == n + AdmittedUntilClosed(c, b.(halfOpenCount := b.halfOpenCount + n), rest)
    decreases n
  {
    if n == 0 {
      assert Repeat(Arrive(at), 0) + rest == rest;
    } else {
      var e := Arrive(at);
      assert (Repeat(e, n) + rest)[1..] == Repeat(e, n - 1) + rest;
      ProbesAllAdmitted(c, Step(c, b, e), at, n - 1, rest);
    }
  }

  // One open period: an arrival that flips the breaker, all probes, and then a failing one.
  function Period(c: Config, at: nat): seq<Event> {
    [Arrive(at)] + Repeat(Arrive(at), c.halfOpenProbes) + [Finish(at, Error)]
  }

  // One such period after another, as long as they fit into `span`.
  function Periods(c: Config, openedAt: nat, span: nat): seq<Event>
    requires c.openDuration > 0
    decreases span
  {
    if span < c.openDuration then []
    else
      var at := openedAt + c.openDuration;
      Period(c, at) + Periods(c, at, span - c.openDuration)
  }

  lemma PeriodAdmits(c: Config, b: Breaker, at: nat, rest: seq<Event>) returns (b': Breaker)
    requires b.state == Open && b.openedAt.Some? && Elapsed(b.openedAt.value, at) >= c.openDuration
    ensures b'.state == Open && b'.openedAt == Some(at)
    ensures AdmittedUntilClosed(c, b, Period(c, at) + rest)
            == c.halfOpenProbes + 1 + AdmittedUntilClosed(c, b', rest)
  {
    var flip, fail := Arrive(at), Finish(at, Error);
    var half := Step(c, b, flip);
    var full := half.(halfOpenCount := c.halfOpenProbes);
    b' := Step(c, full, fail);
    var probes := Repeat(flip, c.halfOpenProbes);
    ProbesAllAdmitted(c, half, at, c.halfOpenProbes, [fail] + rest);
    assert (Period(c, at) + rest)[1..] == probes + ([fail] + rest);
    assert ([fail] + rest)[1..] == rest;
  }

  lemma {:induction false} PeriodsAdmit(c: Config, b: Breaker, openedAt: nat, span: nat)
    requires c.openDuration > 0 && b.state == Open && b.openedAt == Some(openedAt)
    ensures AdmittedUntilClosed(c, b, Periods(c, openedAt, span))
            == PerPeriod(c.halfOpenProbes + 1, span, c.openDuration)
    decreases span
  {
    if span < c.openDuration {
    } else {
      var at := openedAt + c.openDuration;
      var b' := PeriodAdmits(c, b, at, Periods(c, at, span - c.openDuration));
      PeriodsAdmit(c, b', at, span - c.openDuration);
    }
  }

  // A run's clock readings in order, none before `from` and none after `to`.
  ghost predicate OrderedWithin(from: nat, events: seq<Event>, to: nat) {
    Ordered(from, events) && forall e :: e in events ==> e.at <= to
  }

  lemma OrderedConcat(from: nat, a: seq<Event>, mid: nat, b: seq<Event>, to: nat)
    requires from <= mid <= to && OrderedWithin(from, a, mid) && OrderedWithin(mid, b, to)
    ensures OrderedWithin(from, a + b, to)
  {
    forall i | 0 <= i < |a| ensures a[i].at <= mid {
      assert a[i] in a;
    }
  }

  lemma PeriodIsOrdered(c: Config, from: nat, at: nat)
    requires from <= at
    ensures OrderedWithin(from, Period(c, at), at)
  {
    RepeatIs(Arrive(at), c.halfOpenProbes);
  }

  lemma {:induction false} PeriodsAreOrdered(c: Config, openedAt: nat, span: nat)
    requires c.openDuration > 0
    ensures OrderedWithin(openedAt, Periods(c, openedAt, span), openedAt + span)
    decreases span
  {
    if span < c.openDuration {
    } else {
      var at := openedAt + c.openDuration;
      PeriodIsOrdered(c, openedAt, at);
      PeriodsAreOrdered(c, at, span - c.openDuration);
      OrderedConcat(openedAt, Period(c, at), at, Periods(c, at, span - c.openDuration), openedAt + span);
    }
  }

  // The bound is met, after every opening of every run and for every span: probes + 1 simultaneous
  // arrivals at the end of each open period, the last of them failing.  The extra one is the arrival
  // that turns Open into HalfOpen, which is not counted as a probe.
  lemma LeakBoundIsTight(c: Config, t: nat, before: seq<Event>, opening: Event, span: nat)
    returns (after: seq<Event>)
    requires c.openDuration > 0 && Ordered(t, before + [opening])
    requires Run(c, Initial(t), before).state != Open
    requires Run(c, Initial(t), before + [opening]).state == Open
    ensures Ordered(t, before + [opening] + after)
    ensures forall e :: e in after ==> e.at <= opening.at + span
    ensures AdmittedUntilClosed(c, Run(c, Initial(t), before + [opening]), after)
            == (c.halfOpenProbes + 1) * (span / c.openDuration)
  {
    var upTo := before + [opening];
    after := Periods(c, opening.at, span);
    PeriodsAreOrdered(c, opening.at, span);
    assert OrderedWithin(t, upTo, opening.at);
    OrderedConcat(t, upTo, opening.at, after, opening.at + span);
    OpensNow(c, t, before, opening);
    PeriodsAdmit(c, Run(c, Initial(t), upTo), opening.at, span);
    PerPeriodIsProduct(c.halfOpenProbes + 1, span, c.openDuration);
  }
}
