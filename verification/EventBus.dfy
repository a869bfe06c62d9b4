/**
 The remote mode of the event bus in `ecat-events`: one consumer task per topic, started
 lazily by `subscribe` under a placeholder, with the message queue's streams as environment.

 `EventBus` is the shared object; each of its methods is one section under a lock.  `System`
 puts any number of concurrent subscribers, consumer tasks and publishers around it; a run is
 any interleaving of their steps, including failing queue subscriptions and dying tasks.
 */
module EventBus {
  import opened Wrappers

  type Topic = string
  type TaskId = nat
  type Msg = nat

  // Every subscribe call registers one handler, so the call's number names the handler too.
  type CallId = nat

  // ---------------------------------------------------------------- the shared object

  datatype Bus = Bus(handlers: map<Topic, seq<CallId>>, consumers: map<Topic, Option<TaskId>>) {
    function HandlersOf(t: Topic): seq<CallId> {
      if t in handlers then handlers[t] else []
    }

    function Register(t: Topic, h: CallId): Bus {
      this.(handlers := handlers[t := HandlersOf(t) + [h]])
    }

    // A subscriber goes on to start a consumer unless one is starting or still running.
    predicate MayStart(t: Topic, finished: set<TaskId>) {
      t !in consumers || (consumers[t].Some? && consumers[t].value in finished)
    }

    function Reserve(t: Topic, finished: set<TaskId>): Bus {
      if MayStart(t, finished) then this.(consumers := consumers[t := None]) else this
    }

    function Rollback(t: Topic): Bus {
      this.(consumers := consumers - {t})
    }

    function Bind(t: Topic, k: TaskId): Bus {
      this.(consumers := consumers[t := Some(k)])
    }
  }

  class EventBus {
    var handlers: map<Topic, seq<CallId>>
    var consumers: map<Topic, Option<TaskId>>

    ghost function Value(): Bus
      reads this
    {
      Bus(handlers, consumers)
    }

    constructor ()
      ensures Value() == Bus(map[], map[])
    {
      handlers, consumers := map[], map[];
    }

    method Register(t: Topic, h: CallId)
      modifies this
      ensures Value() == old(Value()).Register(t, h)
      ensures t in handlers && handlers[t] == (if t in old(handlers) then old(handlers)[t] else []) + [h]
      ensures forall u :: u != t ==>
                (u in handlers <==> u in old(handlers)) && (u in handlers ==> handlers[u] == old(handlers)[u])
      ensures consumers == old(consumers)
    {
      if t !in handlers {
        handlers := handlers[t := []];
      }
      handlers := handlers[t := handlers[t] + [h]];
    }

    // `finished` is what `is_finished` says of each task handle at this moment.
    method Reserve(t: Topic, finished: set<TaskId>) returns (start: bool)
      modifies this
      ensures start == old(Value()).MayStart(t, finished)
      ensures Value() == old(Value()).Reserve(t, finished)
      ensures start <==> !(t in old(consumers)
                           && (old(consumers)[t].None? || old(consumers)[t].value !in finished))
      ensures handlers == old(handlers) && consumers == if start then old(consumers)[t := None] else old(consumers)
    {
      if t in consumers {
        match consumers[t] {
          case None => return false;
          case Some(k) =>
            if k !in finished {
              return false;
            }
        }
      }
      consumers := consumers[t := None];
      return true;
    }

    method Rollback(t: Topic)
      modifies this
      ensures Value() == old(Value()).Rollback(t)
      ensures handlers == old(handlers) && consumers == old(consumers) - {t}
    {
      consumers := consumers - {t};
    }

    method Bind(t: Topic, k: TaskId)
      modifies this
      ensures Value() == old(Value()).Bind(t, k)
      ensures handlers == old(handlers) && consumers == old(consumers)[t := Some(k)]
    {
      consumers := consumers[t := Some(k)];
    }

    // A received payload is handed to every registered handler, in registration order.
    method Dispatch(t: Topic, m: Msg) returns (spawned: seq<(Msg, CallId)>)
      ensures spawned == Deliveries(m, Value().HandlersOf(t))
      ensures |spawned| == if t in handlers then |handlers[t]| else 0
      ensures forall i :: 0 <= i < |spawned| ==> spawned[i] == (m, handlers[t][i])
    {
      DeliveriesAre(m, Value().HandlersOf(t));
      spawned := [];
      if t in handlers {
        var list := handlers[t];
        if |list| == 1 {
          assert list[..0] == [];
          return [(m, list[0])];
        }
        for i := 0 to |list|
          invariant spawned == Deliveries(m, list[..i])
        {
          assert list[..i + 1][..i] == list[..i];
          spawned := spawned + [(m, list[i])];
        }
        assert list[..|list|] == list;
      }
    }
  }

  function Deliveries(m: Msg, list: seq<CallId>): seq<(Msg, CallId)> {
    if list == [] then []
    else Deliveries(m, list[..|list| - 1]) + [(m, list[|list| - 1])]
  }

  lemma {:induction false} DeliveriesAre(m: Msg, list: seq<CallId>)
    ensures |Deliveries(m, list)| == |list|
    ensures forall i :: 0 <= i < |list| ==> Deliveries(m, list)[i] == (m, list[i])
  {
    if list == [] {
    } else {
      DeliveriesAre(m, list[..|list| - 1]);
    }
  }

  // ---------------------------------------------------------------- the whole system

  // Where a subscribe call stands: handler registered; waiting for the queue's answer; task
  // spawned but its handle not stored yet; returned.
  datatype Phase = Registered | Initialising | Spawned(task: TaskId) | Returned

  datatype Call = Call(topic: Topic, phase: Phase)

  datatype Task = Task(topic: Topic, alive: bool, pending: seq<Msg>)

  datatype System = System(bus: Bus, calls: map<CallId, Call>, tasks: map<TaskId, Task>,
                           published: set<Msg>, dispatched: multiset<(Msg, CallId)>)

  const INITIAL := System(Bus(map[], map[]), map[], map[], {}, multiset{})

  datatype Event =
    | Subscribe(call: CallId, topic: Topic)
    | Reserve(call: CallId)
    | QueueAccepts(call: CallId, task: TaskId)
    | QueueRefuses(call: CallId)
    | Bind(call: CallId)
    | Publish(topic: Topic, msg: Msg)
    | Receive(task: TaskId)
    | Lose(task: TaskId)
    | Die(task: TaskId)

  ghost function Finished(s: System): set<TaskId> {
    set k | k in s.tasks && !s.tasks[k].alive
  }

  predicate InPhase(s: System, c: CallId, p: Phase) {
    c in s.calls && s.calls[c].phase == p
  }

  predicate Alive(s: System, k: TaskId) {
    k in s.tasks && s.tasks[k].alive
  }

  // Call numbers, task handles and messages are new when they first appear.
  predicate Enabled(s: System, e: Event) {
    match e
    case Subscribe(c, _) => c !in s.calls
    case Reserve(c) => InPhase(s, c, Registered)
    case QueueAccepts(c, k) => InPhase(s, c, Initialising) && k !in s.tasks
    case QueueRefuses(c) => InPhase(s, c, Initialising)
    case Bind(c) => c in s.calls && s.calls[c].phase.Spawned?
    case Publish(_, m) => m !in s.published
    case Receive(k) => Alive(s, k) && s.tasks[k].pending != []
    case Lose(k) => Alive(s, k) && s.tasks[k].pending != []
    case Die(k) => Alive(s, k)
  }

  function MoveTo(s: System, c: CallId, p: Phase): System
    requires c in s.calls
  {
    s.(calls := s.calls[c := s.calls[c].(phase := p)])
  }

  function Offer(t: Task, topic: Topic, m: Msg): Task {
    if t.alive && t.topic == topic then t.(pending := t.pending + [m]) else t
  }

  ghost function Apply(s: System, e: Event): System
    requires Enabled(s, e)
  {
    match e
    case Subscribe(c, t) =>
      s.(bus := s.bus.Register(t, c), calls := s.calls[c := Call(t, Registered)])
    case Reserve(c) =>
      var t := s.calls[c].topic;
      var p := if s.bus.MayStart(t, Finished(s)) then Initialising else Returned;
      MoveTo(s, c, p).(bus := s.bus.Reserve(t, Finished(s)))
    case QueueAccepts(c, k) =>
      MoveTo(s, c, Spawned(k)).(tasks := s.tasks[k := Task(s.calls[c].topic, true, [])])
    case QueueRefuses(c) =>
      MoveTo(s, c, Returned).(bus := s.bus.Rollback(s.calls[c].topic))
    case Bind(c) =>
      MoveTo(s, c, Returned).(bus := s.bus.Bind(s.calls[c].topic, s.calls[c].phase.task))
    case Publish(t, m) =>
      s.(tasks := map k | k in s.tasks :: Offer(s.tasks[k], t, m), published := s.published + {m})
    case Receive(k) =>
      var t := s.tasks[k];
      s.(tasks := s.tasks[k := t.(pending := t.pending[1..])],
         dispatched := s.dispatched + multiset(Deliveries(t.pending[0], s.bus.HandlersOf(t.topic))))
    case Lose(k) =>
      s.(tasks := s.tasks[k := s.tasks[k].(pending := s.tasks[k].pending[1..])])
    case Die(k) =>
      s.(tasks := s.tasks[k := s.tasks[k].(alive := false)])
  }

  // Some interleaving leads from `s` to `s'`.
  ghost predicate Reaches(s: System, events: seq<Event>, s': System)
    decreases |events|
  {
    if events == [] then s == s'
    else Enabled(s, events[0]) && Reaches(Apply(s, events[0]), events[1..], s')
  }

  // ---------------------------------------------------------------- invariant

  ghost predicate Starting(s: System, c: CallId, t: Topic) {
    c in s.calls && s.calls[c].topic == t && (s.calls[c].phase.Initialising? || s.calls[c].phase.Spawned?)
  }

  ghost predicate Consuming(s: System, k: TaskId, t: Topic) {
    k in s.tasks && s.tasks[k].topic == t && s.tasks[k].alive
  }

  ghost predicate Placeholder(s: System, t: Topic) {
    t in s.bus.consumers && s.bus.consumers[t].None?
  }

  // The placeholder stands for exactly one starting call; a stored handle names a task of its topic.
  ghost predicate EntriesOk(s: System) {
    && (forall c, t :: Starting(s, c, t) ==> Placeholder(s, t))
    && (forall c, d, t :: Starting(s, c, t) && Starting(s, d, t) ==> c == d)
    && (forall t :: Placeholder(s, t) ==> exists c :: Starting(s, c, t))
    && (forall t :: t in s.bus.consumers && s.bus.consumers[t].Some? ==>
          s.bus.consumers[t].value in s.tasks && s.tasks[s.bus.consumers[t].value].topic == t)
  }

  // A running task is the one its topic's entry stands for.
  ghost predicate TasksOk(s: System) {
    && (forall c :: c in s.calls && s.calls[c].phase.Spawned? ==>
          s.calls[c].phase.task in s.tasks && s.tasks[s.calls[c].phase.task].topic == s.calls[c].topic)
    && (forall k: TaskId, t: Topic :: Consuming(s, k, t) ==>
          || (t in s.bus.consumers && s.bus.consumers[t] == Some(k))
          || (exists c :: c in s.calls && s.calls[c] == Call(t, Spawned(k))))
  }

  ghost predicate Protocol(s: System) {
    EntriesOk(s) && TasksOk(s)
  }

  // Tasks whose entry or spawning call is untouched stay accounted for.
  lemma KeepsConsumers(s: System, s': System)
    requires TasksOk(s)
    requires s'.tasks.Keys >= s.tasks.Keys
    requires forall k :: k in s.tasks ==>
               s'.tasks[k].topic == s.tasks[k].topic && (s'.tasks[k].alive ==> s.tasks[k].alive)
    requires forall k :: k in s'.tasks && k !in s.tasks ==>
               exists c :: c in s'.calls && s'.calls[c] == Call(s'.tasks[k].topic, Spawned(k))
    requires forall c :: c in s'.calls && s'.calls[c].phase.Spawned? ==>
               (c in s.calls && s'.calls[c] == s.calls[c])
               || (s'.calls[c].phase.task in s'.tasks
                   && s'.tasks[s'.calls[c].phase.task].topic == s'.calls[c].topic)
    requires forall c :: c in s.calls && s.calls[c].phase.Spawned? ==>
               (c in s'.calls && s'.calls[c] == s.calls[c])
               || (s.calls[c].topic in s'.bus.consumers
                   && s'.bus.consumers[s.calls[c].topic] == Some(s.calls[c].phase.task))
    requires forall t: Topic, k: TaskId ::
               (Consuming(s', k, t) && t in s.bus.consumers && s.bus.consumers[t] == Some(k)) ==>
                 (t in s'.bus.consumers && s'.bus.consumers[t] == Some(k))
    ensures TasksOk(s')
  {
    forall k: TaskId, t: Topic | Consuming(s', k, t)
      ensures (t in s'.bus.consumers && s'.bus.consumers[t] == Some(k))
              || (exists c :: c in s'.calls && s'.calls[c] == Call(t, Spawned(k)))
    {
      if k in s.tasks {
        assert Consuming(s, k, t);
        if !(t in s.bus.consumers && s.bus.consumers[t] == Some(k)) {
          var c :| c in s.calls && s.calls[c] == Call(t, Spawned(k));
        }
      }
    }
  }

  // The entries of a system in which only call `c` moved and only its topic's entry changed.
  lemma KeepsEntries(s: System, s': System, c: CallId)
    requires EntriesOk(s) && c in s.calls && c in s'.calls
    requires s'.calls[c].topic == s.calls[c].topic
    requires s'.calls.Keys == s.calls.Keys && forall d :: d in s.calls && d != c ==> s'.calls[d] == s.calls[d]
    requires forall u :: u != s.calls[c].topic ==>
               (u in s'.bus.consumers <==> u in s.bus.consumers)
               && (u in s.bus.consumers ==> s'.bus.consumers[u] == s.bus.consumers[u])
    requires s'.tasks.Keys >= s.tasks.Keys
    requires forall k :: k in s.tasks ==> s'.tasks[k].topic == s.tasks[k].topic
    // the topic of c, before and after
    requires var t := s.calls[c].topic;
             && (Starting(s', c, t) <==> Placeholder(s', t))
             && (forall d :: d != c ==> !Starting(s, d, t))
             && (t in s'.bus.consumers && s'.bus.consumers[t].Some? ==>
                   s'.bus.consumers[t].value in s'.tasks && s'.tasks[s'.bus.consumers[t].value].topic == t)
    ensures EntriesOk(s')
  {
    var t := s.calls[c].topic;
    forall d, u | d != c || u != t ensures Starting(s', d, u) <==> Starting(s, d, u) {
    }
    forall u | Placeholder(s', u) ensures exists d :: Starting(s', d, u) {
      if u == t {
        assert Starting(s', c, t);
      } else {
        assert Placeholder(s, u);
        var d :| Starting(s, d, u);
        assert Starting(s', d, u);
      }
    }
  }

  // Nothing that the entries stand for has changed.
  lemma SameStarts(s: System, s': System)
    requires EntriesOk(s) && s'.bus.consumers == s.bus.consumers
    requires forall d, u :: Starting(s', d, u) <==> Starting(s, d, u)
    requires s'.tasks.Keys >= s.tasks.Keys
    requires forall k :: k in s.tasks ==> s'.tasks[k].topic == s.tasks[k].topic
    ensures EntriesOk(s')
  {
    forall u | Placeholder(s', u) ensures exists d :: Starting(s', d, u) {
      assert Placeholder(s, u);
      var d :| Starting(s, d, u);
      assert Starting(s', d, u);
    }
  }

  lemma NobodyElseStarts(s: System, c: CallId, t: Topic)
    requires EntriesOk(s) && (Starting(s, c, t) || !Placeholder(s, t))
    ensures forall d :: d != c ==> !Starting(s, d, t)
  {
  }

  lemma ReserveKeepsProtocol(s: System, c: CallId)
    requires Protocol(s) && Enabled(s, Reserve(c))
    ensures Protocol(Apply(s, Reserve(c)))
  {
    var s' := Apply(s, Reserve(c));
    var t := s.calls[c].topic;
    if s.bus.MayStart(t, Finished(s)) {
      NobodyElseStarts(s, c, t);
      KeepsEntries(s, s', c);
    } else {
      SameStarts(s, s');
    }
    KeepsConsumers(s, s');
  }

  lemma QueueAcceptsKeepsProtocol(s: System, c: CallId, k: TaskId)
    requires Protocol(s) && Enabled(s, QueueAccepts(c, k))
    ensures Protocol(Apply(s, QueueAccepts(c, k)))
  {
    var s' := Apply(s, QueueAccepts(c, k));
    var t := s.calls[c].topic;
    assert Starting(s, c, t);
    NobodyElseStarts(s, c, t);
    KeepsEntries(s, s', c);
    assert s'.calls[c] == Call(t, Spawned(k));
    KeepsConsumers(s, s');
  }

  lemma QueueRefusesKeepsProtocol(s: System, c: CallId)
    requires Protocol(s) && Enabled(s, QueueRefuses(c))
    ensures Protocol(Apply(s, QueueRefuses(c)))
  {
    var s' := Apply(s, QueueRefuses(c));
    var t := s.calls[c].topic;
    assert Starting(s, c, t);
    NobodyElseStarts(s, c, t);
    KeepsEntries(s, s', c);
    KeepsConsumers(s, s');
  }

  lemma BindKeepsProtocol(s: System, c: CallId)
    requires Protocol(s) && Enabled(s, Bind(c))
    ensures Protocol(Apply(s, Bind(c)))
  {
    var s' := Apply(s, Bind(c));
    var t := s.calls[c].topic;
    assert Starting(s, c, t);
    NobodyElseStarts(s, c, t);
    KeepsEntries(s, s', c);
    KeepsConsumers(s, s');
  }

  // Registering a handler, traffic and the death of a task leave calls and entries alone.
  lemma OthersKeepProtocol(s: System, e: Event)
    requires Protocol(s) && Enabled(s, e)
    requires e.Subscribe? || e.Publish? || e.Receive? || e.Lose? || e.Die?
    ensures Protocol(Apply(s, e))
  {
    var s' := Apply(s, e);
    SameStarts(s, s');
    KeepsConsumers(s, s');
  }

  lemma StepKeepsProtocol(s: System, e: Event)
    requires Protocol(s) && Enabled(s, e)
    ensures Protocol(Apply(s, e))
  {
    match e
    case Reserve(c) => ReserveKeepsProtocol(s, c);
    case QueueAccepts(c, k) => QueueAcceptsKeepsProtocol(s, c, k);
    case QueueRefuses(c) => QueueRefusesKeepsProtocol(s, c);
    case Bind(c) => BindKeepsProtocol(s, c);
    case _ => OthersKeepProtocol(s, e);
  }

  lemma {:induction false} RunKeepsProtocol(s: System, events: seq<Event>, s': System)
    requires Protocol(s) && Reaches(s, events, s')
    ensures Protocol(s')
    decreases |events|
  {
    if events == [] {
    } else {
      StepKeepsProtocol(s, events[0]);
      RunKeepsProtocol(Apply(s, events[0]), events[1..], s');
    }
  }

  // ---------------------------------------------------------------- one consumer per topic

  ghost function Initialisers(s: System, t: Topic): set<CallId> {
    set c | c in s.calls && s.calls[c] == Call(t, Initialising)
  }

  ghost function Consumers(s: System, t: Topic): set<TaskId> {
    set k | k in s.tasks && Consuming(s, k, t)
  }

  lemma AtMostOne<T>(xs: set<T>)
    requires forall x, y :: x in xs && y in xs ==> x == y
    ensures |xs| <= 1
  {
    if xs != {} {
      var x :| x in xs;
      assert xs == {x};
    }
  }

  lemma ProtocolIsExclusive(s: System, t: Topic)
    requires Protocol(s)
    ensures |Initialisers(s, t)| + |Consumers(s, t)| <= 1
  {
    forall c, d | c in Initialisers(s, t) && d in Initialisers(s, t) ensures c == d {
      assert Starting(s, c, t) && Starting(s, d, t);
    }
    AtMostOne(Initialisers(s, t));
    forall k, l | k in Consumers(s, t) && l in Consumers(s, t) ensures k == l {
      ConsumersAgree(s, t, k, l);
    }
    AtMostOne(Consumers(s, t));
    if Initialisers(s, t) != {} {
      var c :| c in Initialisers(s, t);
      assert Starting(s, c, t);
      if k :| k in Consumers(s, t) {
        var d :| d in s.calls && s.calls[d] == Call(t, Spawned(k));
        assert Starting(s, d, t);
      }
    }
  }

  lemma ConsumersAgree(s: System, t: Topic, k: TaskId, l: TaskId)
    requires Protocol(s) && Consuming(s, k, t) && Consuming(s, l, t)
    ensures k == l
  {
    if !Placeholder(s, t) {
      forall c | c in s.calls && s.calls[c].topic == t ensures !s.calls[c].phase.Spawned? {
        assert s.calls[c].phase.Spawned? ==> Starting(s, c, t);
      }
    } else {
      var c :| c in s.calls && s.calls[c] == Call(t, Spawned(k));
      var d :| d in s.calls && s.calls[d] == Call(t, Spawned(l));
      assert Starting(s, c, t) && Starting(s, d, t);
    }
  }

  // In every interleaving, subscribers waiting for the queue and running consumers of a topic
  // together never number more than one.
  lemma OneConsumerPerTopic(events: seq<Event>, s: System, t: Topic)
    requires Reaches(INITIAL, events, s)
    ensures |Initialisers(s, t)| + |Consumers(s, t)| <= 1
  {
    RunKeepsProtocol(INITIAL, events, s);
    ProtocolIsExclusive(s, t);
  }

  // A subscribe call gets as far as `mq.subscribe` exactly when nobody else is starting a consumer
  // for its topic and no consumer runs.
  lemma SubscribeStartsExactlyWhenIdle(events: seq<Event>, s: System, c: CallId)
    requires Reaches(INITIAL, events, s) && Enabled(s, Reserve(c))
    ensures var t := s.calls[c].topic;
            Apply(s, Reserve(c)).calls[c].phase == Initialising
            <==> (forall d :: !Starting(s, d, t)) && Consumers(s, t) == {}
  {
    RunKeepsProtocol(INITIAL, events, s);
    var t := s.calls[c].topic;
    if t in s.bus.consumers && s.bus.consumers[t].Some? {
      var k := s.bus.consumers[t].value;
      assert Consuming(s, k, t) <==> k !in Finished(s);
      assert forall d :: !Starting(s, d, t);
      forall l | l in Consumers(s, t) ensures l == k {
        if s.bus.consumers[t] != Some(l) {
          var d :| d in s.calls && s.calls[d] == Call(t, Spawned(l));
          assert Starting(s, d, t);
        }
      }
      assert k in Consumers(s, t) <==> Consuming(s, k, t);
    } else if t !in s.bus.consumers {
      assert forall d :: !Starting(s, d, t);
      forall l ensures l !in Consumers(s, t) {
        if l in Consumers(s, t) {
          var d :| d in s.calls && s.calls[d] == Call(t, Spawned(l));
          assert Starting(s, d, t);
        }
      }
    } else {
      assert Placeholder(s, t);
      var d :| Starting(s, d, t);
    }
  }

  // The gap: a task that dies between being spawned and having its handle stored leaves no
  // subscriber waiting and no consumer running, yet the next subscribe returns at once.
  lemma DeadBeforeBound(t: Topic)
    ensures var events := [Subscribe(0, t), Reserve(0), QueueAccepts(0, 7), Die(7), Subscribe(1, t)];
            exists s :: Reaches(INITIAL, events, s)
                        && Initialisers(s, t) == {} && Consumers(s, t) == {}
                        && Enabled(s, Reserve(1)) && Apply(s, Reserve(1)).calls[1].phase == Returned
  {
    var s := GapReached(t);
    GapIsIdle(s, t);
    assert [Subscribe(0, t)] + [Reserve(0), QueueAccepts(0, 7), Die(7), Subscribe(1, t)]
           == [Subscribe(0, t), Reserve(0), QueueAccepts(0, 7), Die(7), Subscribe(1, t)];
  }

  ghost predicate InGap(s: System, t: Topic) {
    && s.calls == map[0 := Call(t, Spawned(7)), 1 := Call(t, Registered)]
    && s.tasks == map[7 := Task(t, false, [])]
    && Placeholder(s, t)
  }

  lemma GapReached(t: Topic) returns (s: System)
    ensures Reaches(INITIAL, [Subscribe(0, t)] + [Reserve(0), QueueAccepts(0, 7), Die(7), Subscribe(1, t)], s)
    ensures InGap(s, t)
  {
    var s1 := Apply(INITIAL, Subscribe(0, t));
    var s2 := Apply(s1, Reserve(0));
    assert s2.calls == map[0 := Call(t, Initialising)] && Placeholder(s2, t);
    var s3 := Apply(s2, QueueAccepts(0, 7));
    var s4 := Apply(s3, Die(7));
    assert s4.calls == map[0 := Call(t, Spawned(7))] && s4.tasks == map[7 := Task(t, false, [])];
    s := Apply(s4, Subscribe(1, t));
    FirstStep(s4, Subscribe(1, t), [], s);
    FirstStep(s3, Die(7), [Subscribe(1, t)], s);
    FirstStep(s2, QueueAccepts(0, 7), [Die(7), Subscribe(1, t)], s);
    FirstStep(s1, Reserve(0), [QueueAccepts(0, 7), Die(7), Subscribe(1, t)], s);
    FirstStep(INITIAL, Subscribe(0, t), [Reserve(0), QueueAccepts(0, 7), Die(7), Subscribe(1, t)], s);
  }

  lemma GapIsIdle(s: System, t: Topic)
    requires InGap(s, t)
    ensures Initialisers(s, t) == {} && Consumers(s, t) == {}
    ensures Enabled(s, Reserve(1)) && Apply(s, Reserve(1)).calls[1].phase == Returned
  {
  }

  lemma FirstStep(s: System, e: Event, rest: seq<Event>, s': System)
    requires Enabled(s, e) && Reaches(Apply(s, e), rest, s')
    ensures Reaches(s, [e] + rest, s')
  {
    assert ([e] + rest)[1..] == rest;
  }

  // Outside that gap nothing is ever stuck: with every spawned handle stored, an idle topic's
  // next subscribe starts a consumer; and storing a spawned handle is always possible.
  lemma NeverStuck(events: seq<Event>, s: System, c: CallId)
    requires Reaches(INITIAL, events, s) && Enabled(s, Reserve(c))
    requires forall d :: d in s.calls && s.calls[d].topic == s.calls[c].topic ==> !s.calls[d].phase.Spawned?
    requires Initialisers(s, s.calls[c].topic) == {} && Consumers(s, s.calls[c].topic) == {}
    ensures Apply(s, Reserve(c)).calls[c].phase == Initialising
  {
    SubscribeStartsExactlyWhenIdle(events, s, c);
    var t := s.calls[c].topic;
    forall d ensures !Starting(s, d, t) {
      assert d !in Initialisers(s, t);
    }
  }

  // ---------------------------------------------------------------- delivery

  ghost predicate Holds(s: System, k: TaskId, m: Msg) {
    k in s.tasks && s.tasks[k].alive && m in s.tasks[k].pending
  }

  ghost predicate NoRepeats<T>(xs: seq<T>) {
    forall i, j :: 0 <= i < j < |xs| ==> xs[i] != xs[j]
  }

  // A message waits in at most one running stream, at most once, and only before it is dispatched.
  ghost predicate Traffic(s: System) {
    && (forall k, m :: Holds(s, k, m) ==> m in s.published)
    && (forall k, l, m :: Holds(s, k, m) && Holds(s, l, m) ==> k == l)
    && (forall k :: Alive(s, k) ==> NoRepeats(s.tasks[k].pending))
    && (forall k, m, h :: Holds(s, k, m) ==> s.dispatched[(m, h)] == 0)
    && (forall m, h :: s.dispatched[(m, h)] > 0 ==> m in s.published)
  }

  // A subscribe call for the topic has been made.
  predicate Subscribed(s: System, h: CallId, t: Topic) {
    h in s.calls && s.calls[h].topic == t
  }

  // A topic's handlers are those of the calls made for it, once each.
  ghost predicate HandlersOk(s: System) {
    forall t :: NoRepeats(s.bus.HandlersOf(t)) && forall h :: h in s.bus.HandlersOf(t) <==> Subscribed(s, h, t)
  }

  lemma {:induction false} DeliveryCounts(m: Msg, list: seq<CallId>, x: (Msg, CallId))
    requires NoRepeats(list)
    ensures multiset(Deliveries(m, list))[x] == if x.0 == m && x.1 in list then 1 else 0
  {
    if list == [] {
    } else {
      var front, last := list[..|list| - 1], list[|list| - 1];
      assert list == front + [last];
      DeliveryCounts(m, front, x);
    }
  }

  lemma PublishKeepsTraffic(s: System, t: Topic, m: Msg)
    requires Protocol(s) && Traffic(s) && Enabled(s, Publish(t, m))
    ensures Traffic(Apply(s, Publish(t, m)))
  {
    var s' := Apply(s, Publish(t, m));
    forall k, x | Holds(s', k, x) ensures if x == m then Consuming(s, k, t) else Holds(s, k, x) {
      assert m in s.tasks[k].pending ==> Holds(s, k, m);
    }
    forall k, l, x | Holds(s', k, x) && Holds(s', l, x) ensures k == l {
      if x == m {
        ConsumersAgree(s, t, k, l);
      }
    }
    forall k | Alive(s', k) ensures NoRepeats(s'.tasks[k].pending) {
      assert m in s.tasks[k].pending ==> Holds(s, k, m);
    }
  }

  lemma ReceiveKeepsTraffic(s: System, k: TaskId)
    requires Traffic(s) && HandlersOk(s) && Enabled(s, Receive(k))
    ensures Traffic(Apply(s, Receive(k)))
    ensures forall l :: !Holds(Apply(s, Receive(k)), l, s.tasks[k].pending[0])
  {
    var s' := Apply(s, Receive(k));
    var pending := s.tasks[k].pending;
    var m := pending[0];
    var list := s.bus.HandlersOf(s.tasks[k].topic);
    assert pending == [m] + pending[1..];
    assert Holds(s, k, m);
    assert m !in pending[1..];
    forall l, x | Holds(s', l, x) ensures Holds(s, l, x) && x != m {
      assert l == k ==> x in pending[1..];
      assert l != k ==> Holds(s, l, x);
    }
    forall x, h ensures s'.dispatched[(x, h)] == s.dispatched[(x, h)] + if x == m && h in list then 1 else 0 {
      DeliveryCounts(m, list, (x, h));
    }
  }

  lemma OthersKeepTraffic(s: System, e: Event)
    requires Traffic(s) && Enabled(s, e) && !e.Publish? && !e.Receive?
    ensures Traffic(Apply(s, e))
  {
    var s' := Apply(s, e);
    forall k, m | Holds(s', k, m) ensures Holds(s, k, m) {
    }
  }

  lemma StepKeepsTraffic(s: System, e: Event)
    requires Protocol(s) && Traffic(s) && HandlersOk(s) && Enabled(s, e)
    ensures Traffic(Apply(s, e)) && HandlersOk(Apply(s, e))
  {
    HandlersStayOk(s, e);
    match e
    case Publish(t, m) => PublishKeepsTraffic(s, t, m);
    case Receive(k) => ReceiveKeepsTraffic(s, k);
    case _ => OthersKeepTraffic(s, e);
  }

  lemma {:induction false} RunKeepsTraffic(s: System, events: seq<Event>, s': System)
    requires Protocol(s) && Traffic(s) && HandlersOk(s) && Reaches(s, events, s')
    ensures Protocol(s') && Traffic(s') && HandlersOk(s')
    decreases |events|
  {
    if events == [] {
    } else {
      StepKeepsProtocol(s, events[0]);
      StepKeepsTraffic(s, events[0]);
      RunKeepsTraffic(Apply(s, events[0]), events[1..], s');
    }
  }

  // Once published and no longer waiting in any running stream, a message is never dispatched again.
  lemma {:induction false} SpentStaysSpent(s: System, events: seq<Event>, s': System, m: Msg, h: CallId)
    requires HandlersOk(s) && Reaches(s, events, s')
    requires m in s.published && forall k :: !Holds(s, k, m)
    ensures s'.dispatched[(m, h)] == s.dispatched[(m, h)]
    decreases |events|
  {
    if events == [] {
    } else {
      var e := events[0];
      var next := Apply(s, e);
      if e.Receive? {
        var pending := s.tasks[e.task].pending;
        assert Holds(s, e.task, pending[0]);
        DeliveryCounts(pending[0], s.bus.HandlersOf(s.tasks[e.task].topic), (m, h));
      }
      forall k ensures !Holds(next, k, m) {
        assert !Holds(s, k, m);
      }
      HandlersStayOk(s, e);
      SpentStaysSpent(next, events[1..], s', m, h);
    }
  }

  lemma SubscribeKeepsHandlers(s: System, c: CallId, u: Topic)
    requires HandlersOk(s) && Enabled(s, Subscribe(c, u))
    ensures HandlersOk(Apply(s, Subscribe(c, u)))
  {
    var s' := Apply(s, Subscribe(c, u));
    assert c !in s.bus.HandlersOf(u);
    forall t
      ensures NoRepeats(s'.bus.HandlersOf(t)) && forall h :: h in s'.bus.HandlersOf(t) <==> Subscribed(s', h, t)
    {
      assert s'.bus.HandlersOf(t) == s.bus.HandlersOf(t) + if t == u then [c] else [];
      forall h ensures Subscribed(s', h, t) <==> Subscribed(s, h, t) || (h == c && t == u) {
      }
    }
  }

  lemma HandlersStayOk(s: System, e: Event)
    requires HandlersOk(s) && Enabled(s, e)
    ensures HandlersOk(Apply(s, e))
  {
    if e.Subscribe? {
      SubscribeKeepsHandlers(s, e.call, e.topic);
    } else {
      var s' := Apply(s, e);
      forall t ensures s'.bus.HandlersOf(t) == s.bus.HandlersOf(t) {
      }
      forall h, t ensures Subscribed(s', h, t) <==> Subscribed(s, h, t) {
      }
    }
  }

  // What the events say and what the calls say is the same.
  lemma {:induction false} CallsAreSubscriptions(s: System, events: seq<Event>, s': System, h: CallId, t: Topic)
    requires Reaches(s, events, s')
    ensures Subscribed(s', h, t) <==> Subscribed(s, h, t) || Subscribe(h, t) in events
    decreases |events|
  {
    if events == [] {
    } else {
      var e, rest := events[0], events[1..];
      assert events == [e] + rest;
      StepSubscribes(s, e, h, t);
      CallsAreSubscriptions(Apply(s, e), rest, s', h, t);
    }
  }

  lemma StepSubscribes(s: System, e: Event, h: CallId, t: Topic)
    requires Enabled(s, e)
    ensures Subscribed(Apply(s, e), h, t) <==> Subscribed(s, h, t) || e == Subscribe(h, t)
  {
  }

  // In every state of every run the handlers of a topic are exactly those of the subscribe calls made for
  // it.
  lemma HandlersAreSubscribers(events: seq<Event>, s: System, h: CallId, t: Topic)
    requires Reaches(INITIAL, events, s)
    ensures h in s.bus.HandlersOf(t) <==> Subscribe(h, t) in events
  {
    RunKeepsTraffic(INITIAL, events, s);
    CallsAreSubscriptions(INITIAL, events, s, h, t);
  }

  // A message received by the consumer of a topic is dispatched exactly once to the handler of every
  // subscribe call made for the topic by then and to no other, however the run goes on.
  lemma ReceivedMeansDispatchedOnce(before: seq<Event>, s: System, k: TaskId, after: seq<Event>, end: System,
                                    h: CallId)
    requires Reaches(INITIAL, before, s) && Enabled(s, Receive(k))
    requires Reaches(Apply(s, Receive(k)), after, end)
    ensures var m := s.tasks[k].pending[0];
            end.dispatched[(m, h)] == if Subscribe(h, s.tasks[k].topic) in before then 1 else 0
  {
    RunKeepsTraffic(INITIAL, before, s);
    HandlersAreSubscribers(before, s, h, s.tasks[k].topic);
    ReceiveDispatches(s, k, after, end, h);
  }

  lemma ReceiveDispatches(s: System, k: TaskId, after: seq<Event>, end: System, h: CallId)
    requires Traffic(s) && HandlersOk(s) && Enabled(s, Receive(k))
    requires Reaches(Apply(s, Receive(k)), after, end)
    ensures end.dispatched[(s.tasks[k].pending[0], h)] == if h in s.bus.HandlersOf(s.tasks[k].topic) then 1 else 0
  {
    var m := s.tasks[k].pending[0];
    assert Holds(s, k, m);
    ReceiveKeepsTraffic(s, k);
    HandlersStayOk(s, Receive(k));
    DeliveryCounts(m, s.bus.HandlersOf(s.tasks[k].topic), (m, h));
    SpentStaysSpent(Apply(s, Receive(k)), after, end, m, h);
  }

  // A handler is registered for good once its subscribe call has begun.
  lemma RegisteredForGood(before: seq<Event>, s: System, after: seq<Event>, s': System, t: Topic, h: CallId)
    requires Reaches(INITIAL, before, s) && Reaches(s, after, s') && Subscribe(h, t) in before
    ensures h in s.bus.HandlersOf(t) && h in s'.bus.HandlersOf(t)
  {
    HandlersAreSubscribers(before, s, h, t);
    RunKeepsTraffic(INITIAL, before, s);
    RunKeepsTraffic(s, after, s');
    CallsAreSubscriptions(s, after, s', h, t);
  }
}
