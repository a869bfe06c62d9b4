/**
 Order confirmation of the admin's payment service.

 `OrderStore` runs one `confirmOrder` call alone.  `System` runs any number of them at once:
 every call is a database transaction that takes the order's row lock, then the app's, may
 fail at any point, and writes the gateway's Redis key only after it has committed.  Around
 them, portal users reset keys: a reset reads the app, deletes the old key, saves the hash of the
 new one and only then writes the new key.  Keys in Redis are found by their hash.
 */
module OrderConfirm {
  import opened Wrappers

  type OrderId = nat
  type AppId = nat
  type CallId = nat
  type Hash = nat

  datatype Status = Pending | Paid | Closed

  // `days` is the valid_days of the order's plan, 0 without a plan.
  datatype Order = Order(status: Status, app: AppId, days: int)

  // `hash` is that of the app's key; `expireAt` is a UTC timestamp in seconds, 0 when unset.
  datatype App = App(approved: bool, hash: Hash, expireAt: nat, validDays: int, reviewRemark: string)

  // The gateway's key: the expiry it carries, and when Redis drops it.
  datatype Key = Key(expireAt: nat, deadline: nat)

  const DAY := 86400

  function Max(a: int, b: int): int {
    if a >= b then a else b
  }

  function Extended(current: nat, now: nat, days: nat): nat {
    Max(current, now) + days * DAY
  }

  function Renew(app: App, now: nat, days: nat, remark: string): App {
    app.(validDays := days, expireAt := Extended(app.expireAt, now, days),
         reviewRemark := if remark != "" then remark else app.reviewRemark)
  }

  function KeyFor(expireAt: nat, now: nat): Key {
    Key(expireAt, now + Max(expireAt - now, 1))
  }

  // ---------------------------------------------------------------- one call alone

  datatype Outcome = Skipped(status: Status) | NotRenewed | Renewed

  class OrderStore {
    var orders: map<OrderId, Order>
    var apps: map<AppId, App>
    var redis: map<Hash, Key>

    // `orderApp` and the expiry are read once inside the transaction; `later` is the clock when
    // Redis is written, and `redisUp` whether that write succeeds.
    method ConfirmOrder(id: OrderId, remark: string, now: nat, later: nat, redisUp: bool)
      returns (outcome: Outcome)
      requires id in orders
      modifies this
      ensures orders == old(orders)[id := if old(orders)[id].status == Pending then old(orders)[id].(status := Paid)
                                          else old(orders)[id]]
      ensures outcome.Skipped? <==> old(orders)[id].status != Pending
      ensures outcome.Renewed? <==>
                var o := old(orders)[id];
                o.status == Pending && o.app in old(apps) && old(apps)[o.app].approved && o.days > 0
      ensures !outcome.Renewed? ==> apps == old(apps) && redis == old(redis)
      ensures outcome.Renewed? ==>
                var o := old(orders)[id];
                var was := old(apps)[o.app];
                var expireAt: nat := (if was.expireAt > now then was.expireAt else now) + o.days * 86400;
                && apps == old(apps)[o.app := App(was.approved, was.hash, expireAt, o.days,
                                                  if remark != "" then remark else was.reviewRemark)]
                && redis == if redisUp then
                              old(redis)[was.hash := Key(expireAt, if expireAt > later then expireAt else later + 1)]
                            else old(redis)
    {
      var redisWrite: Option<(Hash, nat)> := None;
      var order := orders[id];
      if order.status != Pending {
        return Skipped(order.status);
      }
      orders := orders[id := order.(status := Paid)];
      if order.app !in apps || !apps[order.app].approved {
        return NotRenewed;
      }
      var app := apps[order.app];
      if order.days <= 0 {
        return NotRenewed;
      }
      var expireTs := Max(app.expireAt, now) + order.days * DAY;
      app := app.(validDays := order.days, expireAt := expireTs);
      if remark != "" {
        app := app.(reviewRemark := remark);
      }
      apps := apps[order.app := app];
      redisWrite := Some((app.hash, expireTs));
      if redisUp {
        redis := redis[redisWrite.value.0 := KeyFor(redisWrite.value.1, later)];
      }
      return Renewed;
    }
  }

  // ---------------------------------------------------------------- many calls at once

  // Where a call stands.  From Claimed to Saved it holds the order's row lock, in Locked and
  // Saved the app's as well; nothing it did is visible before it commits.
  datatype Phase =
    | Called
    | Claimed
    | Locked(read: nat)
    | Saved(row: App, at: nat)
    | Done

  datatype Call = Call(order: OrderId, remark: string, phase: Phase)

  // A committed renewal: which order, when the clock was read, how many seconds were bought.
  datatype Renewal = Renewal(order: OrderId, at: nat, seconds: nat)

  // A write to Redis that is still to come, with the hash and the expiry read for it earlier.
  datatype Write = Write(app: AppId, hash: Hash, expiry: nat)

  datatype Stage = Fetched | Cleared | Finished

  // A key reset: what it read of the app at its start, and how far it has come.
  datatype Reset = Reset(app: AppId, oldHash: Hash, newHash: Hash, approved: bool, expiry: nat, stage: Stage)

  // `writes` are the pending ones, by the confirmation or reset that will do them; `owner` says which
  // app each hash ever used belongs to.
  datatype System = System(orders: map<OrderId, Order>, apps: map<AppId, App>, redis: map<Hash, Key>,
                           calls: map<CallId, Call>, writes: map<CallId, Write>, resets: map<CallId, Reset>,
                           owner: map<Hash, AppId>, clock: nat, renewals: map<AppId, seq<Renewal>>)

  datatype Event =
    | Confirm(call: CallId, order: OrderId, remark: string)
    | Claim(call: CallId)
    | LockApp(call: CallId)
    | Save(call: CallId)
    | Commit(call: CallId)
    | Abort(call: CallId)
    | WriteRedis(call: CallId)
    | LoseRedis(call: CallId)
    | StartReset(call: CallId, resetApp: AppId, newHash: Hash)
    | DeleteOld(call: CallId)
    | LoseDelete(call: CallId)
    | SaveHash(call: CallId)
    | Evict(hash: Hash)
    | Tick(now: nat)
    | PlaceOrder(id: OrderId, placed: Order)
    | CloseOrder(id: OrderId)
    | Review(app: AppId, approved: bool)

  predicate In(s: System, c: CallId, o: OrderId) {
    c in s.calls && s.calls[c].order == o
  }

  predicate HoldsOrder(s: System, c: CallId, o: OrderId) {
    In(s, c, o) && (s.calls[c].phase.Claimed? || s.calls[c].phase.Locked? || s.calls[c].phase.Saved?)
  }

  predicate HoldsApp(s: System, c: CallId, a: AppId) {
    && c in s.calls && (s.calls[c].phase.Locked? || s.calls[c].phase.Saved?)
    && s.calls[c].order in s.orders && s.orders[s.calls[c].order].app == a
  }

  ghost predicate OrderFree(s: System, o: OrderId) {
    forall c: CallId :: !HoldsOrder(s, c, o)
  }

  ghost predicate AppFree(s: System, a: AppId) {
    forall c: CallId :: !HoldsApp(s, c, a)
  }

  // No key is ever used by two apps.
  predicate MayUse(s: System, a: AppId, h: Hash) {
    h in s.owner ==> s.owner[h] == a
  }

  predicate At(s: System, c: CallId) {
    c in s.calls && s.calls[c].order in s.orders
  }

  ghost predicate Enabled(s: System, e: Event) {
    match e
    case Confirm(c, o, _) => c !in s.calls && c !in s.resets && o in s.orders
    case Claim(c) => At(s, c) && s.calls[c].phase.Called? && OrderFree(s, s.calls[c].order)
    case LockApp(c) =>
      && At(s, c) && s.calls[c].phase.Claimed?
      && s.orders[s.calls[c].order].app in s.apps
      && AppFree(s, s.orders[s.calls[c].order].app)
    case Save(c) =>
      && At(s, c) && s.calls[c].phase.Locked?
      && s.orders[s.calls[c].order].app in s.apps
      && s.apps[s.orders[s.calls[c].order].app].approved
      && s.orders[s.calls[c].order].days > 0
    case Commit(c) =>
      && At(s, c)
      && (var o := s.orders[s.calls[c].order];
          // with nothing saved, commit is reached only on one of the early returns
          match s.calls[c].phase
          case Claimed => o.app !in s.apps
          case Locked(_) => o.app in s.apps && (!s.apps[o.app].approved || o.days <= 0)
          case Saved(_, _) => true
          case _ => false)
    case Abort(c) => At(s, c) && HoldsOrder(s, c, s.calls[c].order)
    case WriteRedis(c) => c in s.writes
    case LoseRedis(c) => c in s.writes
    case StartReset(c, a, h) => c !in s.calls && c !in s.resets && a in s.apps && MayUse(s, a, h)
    case DeleteOld(c) => c in s.resets && s.resets[c].stage.Fetched?
    case LoseDelete(c) => c in s.resets && s.resets[c].stage.Fetched?
    // an update of the app's row waits for its lock
    case SaveHash(c) => c in s.resets && s.resets[c].stage.Cleared? && AppFree(s, s.resets[c].app)
    case Evict(h) => h in s.redis
    case Tick(now) => s.clock <= now
    case PlaceOrder(o, placed) => o !in s.orders && placed.status == Pending
    case CloseOrder(o) => o in s.orders && s.orders[o].status == Pending && OrderFree(s, o)
    case Review(a, _) => a in s.apps && AppFree(s, a)
  }

  function MoveTo(s: System, c: CallId, p: Phase): System
    requires c in s.calls
  {
    s.(calls := s.calls[c := s.calls[c].(phase := p)])
  }

  function RenewalsOf(s: System, a: AppId): seq<Renewal> {
    if a in s.renewals then s.renewals[a] else []
  }

  function Committed(s: System, c: CallId): System
    requires At(s, c)
  {
    var o := s.orders[s.calls[c].order];
    var paid := s.(orders := s.orders[s.calls[c].order := o.(status := Paid)]);
    match s.calls[c].phase
    case Saved(app, at) =>
      MoveTo(paid, c, Done).(
        apps := s.apps[o.app := app],
        writes := s.writes[c := Write(o.app, app.hash, app.expireAt)],
        renewals := s.renewals[o.app := RenewalsOf(s, o.app)
                                        + [Renewal(s.calls[c].order, at, if o.days > 0 then o.days * DAY else 0)]])
    case _ => MoveTo(paid, c, Done)
  }

  function ToStage(s: System, c: CallId, stage: Stage): System
    requires c in s.resets
  {
    s.(resets := s.resets[c := s.resets[c].(stage := stage)])
  }

  // The new key is written only for an app that was approved and not expired when it was read.
  function HashSaved(s: System, c: CallId): System
    requires c in s.resets
  {
    var r := s.resets[c];
    ToStage(s, c, Finished).(
      apps := if r.app in s.apps then s.apps[r.app := s.apps[r.app].(hash := r.newHash)] else s.apps,
      writes := if r.approved && r.expiry > s.clock then s.writes[c := Write(r.app, r.newHash, r.expiry)] else s.writes)
  }

  ghost function Apply(s: System, e: Event): System
    requires Enabled(s, e)
  {
    match e
    case Confirm(c, o, remark) => s.(calls := s.calls[c := Call(o, remark, Called)])
    case Claim(c) =>
      MoveTo(s, c, if s.orders[s.calls[c].order].status == Pending then Claimed else Done)
    case LockApp(c) => MoveTo(s, c, Locked(s.apps[s.orders[s.calls[c].order].app].expireAt))
    case Save(c) =>
      var o := s.orders[s.calls[c].order];
      var read := s.apps[o.app].(expireAt := s.calls[c].phase.read);
      MoveTo(s, c, Saved(Renew(read, s.clock, o.days, s.calls[c].remark), s.clock))
    case Commit(c) => Committed(s, c)
    case Abort(c) => MoveTo(s, c, Done)
    case WriteRedis(c) =>
      var w := s.writes[c];
      s.(redis := s.redis[w.hash := KeyFor(w.expiry, s.clock)], writes := s.writes - {c})
    case LoseRedis(c) => s.(writes := s.writes - {c})
    case StartReset(c, a, h) =>
      var app := s.apps[a];
      s.(resets := s.resets[c := Reset(a, app.hash, h, app.approved, app.expireAt, Fetched)], owner := s.owner[h := a])
    case DeleteOld(c) => ToStage(s, c, Cleared).(redis := s.redis - {s.resets[c].oldHash})
    case LoseDelete(c) => ToStage(s, c, Cleared)
    case SaveHash(c) => HashSaved(s, c)
    case Evict(h) => s.(redis := s.redis - {h})
    case Tick(now) => s.(clock := now)
    case PlaceOrder(o, placed) => s.(orders := s.orders[o := placed])
    case CloseOrder(o) => s.(orders := s.orders[o := s.orders[o].(status := Closed)])
    case Review(a, approved) => s.(apps := s.apps[a := s.apps[a].(approved := approved)])
  }

  ghost predicate Reaches(s: System, events: seq<Event>, s': System)
    decreases |events|
  {
    if events == [] then s == s'
    else Enabled(s, events[0]) && Reaches(Apply(s, events[0]), events[1..], s')
  }

  // Nothing in flight: any orders, any apps, and some keys, in use or revoked, that carry the stored
  // expiry of the app they belong to, as approval and key resets leave them.
  ghost predicate Start(s: System) {
    && s.calls == map[] && s.writes == map[] && s.resets == map[] && s.renewals == map[]
    && OwnersOk(s)
    && (forall h :: h in s.redis ==>
          && h in s.owner && s.owner[h] in s.apps && s.redis[h].expireAt == s.apps[s.owner[h]].expireAt
          && s.redis[h].deadline <= Max(s.redis[h].expireAt, s.clock + 1))
  }

  ghost predicate Owned(s: System, h: Hash, a: AppId) {
    h in s.owner && s.owner[h] == a
  }

  // Every hash in use or to be used belongs to its app.
  ghost predicate OwnersOk(s: System) {
    && (forall a :: a in s.apps ==> Owned(s, s.apps[a].hash, a))
    && (forall c :: c in s.writes ==> Owned(s, s.writes[c].hash, s.writes[c].app))
    && (forall c :: c in s.resets ==>
          && s.resets[c].app in s.apps
          && Owned(s, s.resets[c].oldHash, s.resets[c].app) && Owned(s, s.resets[c].newHash, s.resets[c].app))
  }

  // ---------------------------------------------------------------- renewal arithmetic

  function AfterRenewals(e0: nat, rs: seq<Renewal>): nat {
    if rs == [] then e0
    else
      var r := rs[|rs| - 1];
      Max(AfterRenewals(e0, rs[..|rs| - 1]), r.at) + r.seconds
  }

  function Bought(rs: seq<Renewal>): nat {
    if rs == [] then 0 else Bought(rs[..|rs| - 1]) + rs[|rs| - 1].seconds
  }

  // The best start: the old expiry plus everything bought, or a renewal's own time plus what was
  // bought from it on.
  function BestStart(e0: nat, rs: seq<Renewal>): nat {
    Max(e0 + Bought(rs), BestFrom(rs))
  }

  function BestFrom(rs: seq<Renewal>): nat
    decreases |rs|
  {
    if rs == [] then 0 else Max(rs[0].at + Bought(rs), BestFrom(rs[1..]))
  }

  lemma {:induction false} BoughtSnoc(rs: seq<Renewal>, r: Renewal)
    ensures Bought(rs + [r]) == Bought(rs) + r.seconds
  {
    assert (rs + [r])[..|rs|] == rs;
  }

  lemma {:induction false} BestFromSnoc(rs: seq<Renewal>, r: Renewal)
    ensures BestFrom(rs + [r]) == Max(if rs == [] then 0 else BestFrom(rs) + r.seconds, r.at + r.seconds)
    decreases |rs|
  {
    var all := rs + [r];
    BoughtSnoc(rs, r);
    if rs == [] {
      assert all[1..] == [] && all[..0] == [];
    } else {
      assert all[1..] == rs[1..] + [r];
      BestFromSnoc(rs[1..], r);
    }
  }

  // The closed form of any list of renewals, in order of their commits.
  lemma {:induction false} RenewalClosedForm(e0: nat, rs: seq<Renewal>)
    ensures AfterRenewals(e0, rs) == BestStart(e0, rs)
  {
    if rs == [] {
    } else {
      var front, r := rs[..|rs| - 1], rs[|rs| - 1];
      assert rs == front + [r];
      RenewalClosedForm(e0, front);
      BestFromSnoc(front, r);
      BoughtSnoc(front, r);
    }
  }

  // `e` was the stored expiry at some time: before the renewals or right after one of them.
  predicate Passed(e0: nat, rs: seq<Renewal>, e: nat) {
    e == AfterRenewals(e0, rs) || (rs != [] && Passed(e0, rs[..|rs| - 1], e))
  }

  lemma PassedSnoc(e0: nat, rs: seq<Renewal>, r: Renewal, e: nat)
    requires Passed(e0, rs, e)
    ensures Passed(e0, rs + [r], e)
  {
    assert (rs + [r])[..|rs|] == rs;
  }

  // No expiry of the past is later than the present one.
  lemma {:induction false} PassedIsNoLater(e0: nat, rs: seq<Renewal>, e: nat)
    requires Passed(e0, rs, e)
    ensures e <= AfterRenewals(e0, rs)
  {
    if e == AfterRenewals(e0, rs) {
    } else {
      PassedIsNoLater(e0, rs[..|rs| - 1], e);
    }
  }

  // ---------------------------------------------------------------- invariant

  ghost predicate LocksOk(s: System) {
    && (forall c, d: CallId, o: OrderId :: HoldsOrder(s, c, o) && HoldsOrder(s, d, o) ==> c == d)
    && (forall c, d: CallId, a: AppId :: HoldsApp(s, c, a) && HoldsApp(s, d, a) ==> c == d)
    && (forall c: CallId, o: OrderId :: HoldsOrder(s, c, o) ==> o in s.orders && s.orders[o].status == Pending)
  }

  // What a call holding the app's lock has read is still what the database holds.
  ghost predicate ReadsOk(s: System) {
    forall c: CallId, a: AppId :: HoldsApp(s, c, a) ==>
      && a in s.apps
      && (match s.calls[c].phase
          case Locked(e) => e == s.apps[a].expireAt
          case Saved(app, at) =>
            var o := s.orders[s.calls[c].order];
            o.days > 0 && app == Renew(s.apps[a], at, o.days, s.calls[c].remark)
          case _ => true)
  }

  // The stored expiry is what the committed renewals make of the original one, nobody's lost.
  ghost predicate ExpiryOk(s0: System, s: System) {
    && s.apps.Keys == s0.apps.Keys
    && (forall a :: a in s.apps ==> s.apps[a].expireAt == AfterRenewals(s0.apps[a].expireAt, RenewalsOf(s, a)))
  }

  ghost predicate WasCommitted(s0: System, s: System, a: AppId, expireAt: nat) {
    a in s0.apps && Passed(s0.apps[a].expireAt, RenewalsOf(s, a), expireAt)
  }

  // Every key in Redis, and every write still to come, carries an expiry that the database held.
  ghost predicate KeysOk(s0: System, s: System) {
    && (forall h :: h in s.redis ==> KeyOk(s0, s, h, s.redis[h]))
    && (forall c :: c in s.writes ==> WasCommitted(s0, s, s.writes[c].app, s.writes[c].expiry))
    && (forall c :: c in s.resets ==> WasCommitted(s0, s, s.resets[c].app, s.resets[c].expiry))
  }

  ghost predicate KeyOk(s0: System, s: System, h: Hash, k: Key) {
    && h in s.owner && WasCommitted(s0, s, s.owner[h], k.expireAt)
    && k.deadline <= Max(k.expireAt, s.clock + 1)
  }

  // An order renews at most once, and only when it has become paid.
  ghost predicate OnceOk(s: System) {
    && (forall a, i :: 0 <= i < |RenewalsOf(s, a)| ==>
          var o := RenewalsOf(s, a)[i].order; o in s.orders && s.orders[o].status == Paid && s.orders[o].app == a)
    && (forall a, i, j :: 0 <= i < j < |RenewalsOf(s, a)| ==>
          RenewalsOf(s, a)[i].order != RenewalsOf(s, a)[j].order)
  }

  ghost predicate Good(s0: System, s: System) {
    LocksOk(s) && ReadsOk(s) && ExpiryOk(s0, s) && KeysOk(s0, s) && OnceOk(s)
  }

  // A step that changes no app row and adds no lock holder keeps the lock discipline.
  lemma MoveKeepsLocks(s: System, s': System)
    requires LocksOk(s) && ReadsOk(s)
    requires s'.apps == s.apps && s.orders.Keys <= s'.orders.Keys
    requires forall o :: o in s.orders ==> s'.orders[o] == s.orders[o]
    requires forall c: CallId, o: OrderId :: HoldsOrder(s', c, o) ==> HoldsOrder(s, c, o) && s'.calls[c] == s.calls[c]
    ensures LocksOk(s') && ReadsOk(s')
  {
    forall c: CallId, a: AppId | HoldsApp(s', c, a) ensures HoldsApp(s, c, a) && s'.calls[c] == s.calls[c] {
      assert HoldsOrder(s', c, s'.calls[c].order);
      assert HoldsOrder(s, c, s'.calls[c].order);
    }
  }

  lemma ClaimKeepsGood(s0: System, s: System, c: CallId)
    requires Good(s0, s) && Enabled(s, Claim(c))
    ensures Good(s0, Apply(s, Claim(c)))
  {
    var s' := Apply(s, Claim(c));
    var o := s.calls[c].order;
    forall d: CallId, p: OrderId | HoldsOrder(s', d, p) ensures HoldsOrder(s, d, p) || (d == c && p == o) {
    }
    forall d: CallId, a: AppId | HoldsApp(s', d, a) ensures HoldsApp(s, d, a) && s'.calls[d] == s.calls[d] {
    }
    assert !HoldsOrder(s, c, o);
    SameRest(s0, s, s');
  }

  lemma SameOnce(s: System, s': System)
    requires OnceOk(s) && s'.renewals == s.renewals
    requires forall o :: o in s.orders && s.orders[o].status == Paid ==> o in s'.orders && s'.orders[o] == s.orders[o]
    ensures OnceOk(s')
  {
    forall a ensures RenewalsOf(s', a) == RenewalsOf(s, a) {
    }
  }

  // What a step may do to keys, pending writes and resets: leave them, drop them, or add what the
  // database held.
  ghost predicate KeysFollow(s0: System, s: System, s': System) {
    && s.clock <= s'.clock
    && (forall h :: h in s.owner ==> h in s'.owner && s'.owner[h] == s.owner[h])
    && (forall h :: h in s'.redis ==> (h in s.redis && s'.redis[h] == s.redis[h]) || KeyOk(s0, s, h, s'.redis[h]))
    && (forall c :: c in s'.writes ==>
          (c in s.writes && s'.writes[c] == s.writes[c]) || WasCommitted(s0, s, s'.writes[c].app, s'.writes[c].expiry))
    && (forall c :: c in s'.resets ==>
          || (c in s.resets && s'.resets[c].app == s.resets[c].app && s'.resets[c].expiry == s.resets[c].expiry)
          || WasCommitted(s0, s, s'.resets[c].app, s'.resets[c].expiry))
  }

  lemma SameKeys(s0: System, s: System, s': System)
    requires KeysOk(s0, s) && s'.renewals == s.renewals && KeysFollow(s0, s, s')
    ensures KeysOk(s0, s')
  {
    forall a, e ensures WasCommitted(s0, s', a, e) <==> WasCommitted(s0, s, a, e) {
      assert RenewalsOf(s', a) == RenewalsOf(s, a);
    }
    forall h | h in s'.redis ensures KeyOk(s0, s', h, s'.redis[h]) {
      assert KeyOk(s0, s, h, s'.redis[h]);
    }
  }

  lemma SameExpiries(s0: System, s: System, s': System)
    requires ExpiryOk(s0, s) && s'.renewals == s.renewals
    requires s'.apps.Keys == s.apps.Keys && forall a :: a in s.apps ==> s'.apps[a].expireAt == s.apps[a].expireAt
    ensures ExpiryOk(s0, s')
  {
    forall a ensures RenewalsOf(s', a) == RenewalsOf(s, a) {
    }
  }

  // Expiries, committed renewals and their orders are untouched, keys only as allowed.
  lemma SameGuarantees(s0: System, s: System, s': System)
    requires ExpiryOk(s0, s) && KeysOk(s0, s) && OnceOk(s)
    requires s'.renewals == s.renewals && KeysFollow(s0, s, s')
    requires s'.apps.Keys == s.apps.Keys && forall a :: a in s.apps ==> s'.apps[a].expireAt == s.apps[a].expireAt
    requires forall o :: o in s.orders && s.orders[o].status == Paid ==> o in s'.orders && s'.orders[o] == s.orders[o]
    ensures ExpiryOk(s0, s') && KeysOk(s0, s') && OnceOk(s')
  {
    SameExpiries(s0, s, s');
    SameKeys(s0, s, s');
    SameOnce(s, s');
  }

  // The same for a step that leaves Redis and the pending writes alone.
  lemma SameRest(s0: System, s: System, s': System)
    requires ExpiryOk(s0, s) && KeysOk(s0, s) && OnceOk(s)
    requires s'.renewals == s.renewals && s'.clock == s.clock && s'.redis == s.redis && s'.writes == s.writes
    requires s'.resets == s.resets && s'.owner == s.owner
    requires s'.apps.Keys == s.apps.Keys && forall a :: a in s.apps ==> s'.apps[a].expireAt == s.apps[a].expireAt
    requires forall o :: o in s.orders && s.orders[o].status == Paid ==> o in s'.orders && s'.orders[o] == s.orders[o]
    ensures ExpiryOk(s0, s') && KeysOk(s0, s') && OnceOk(s')
  {
    SameGuarantees(s0, s, s');
  }

  lemma LockKeepsGood(s0: System, s: System, c: CallId)
    requires Good(s0, s) && Enabled(s, LockApp(c))
    ensures Good(s0, Apply(s, LockApp(c)))
  {
    var s' := Apply(s, LockApp(c));
    var a := s.orders[s.calls[c].order].app;
    forall d: CallId, p: OrderId ensures HoldsOrder(s', d, p) <==> HoldsOrder(s, d, p) {
    }
    forall d: CallId, b: AppId | HoldsApp(s', d, b)
      ensures (d == c && b == a) || (HoldsApp(s, d, b) && s'.calls[d] == s.calls[d])
    {
    }
    assert forall d: CallId :: !HoldsApp(s, d, a);
    SameRest(s0, s, s');
  }

  lemma SaveKeepsGood(s0: System, s: System, c: CallId)
    requires Good(s0, s) && Enabled(s, Save(c))
    ensures Good(s0, Apply(s, Save(c)))
  {
    var s' := Apply(s, Save(c));
    var a := s.orders[s.calls[c].order].app;
    assert HoldsApp(s, c, a);
    assert s.apps[a].(expireAt := s.calls[c].phase.read) == s.apps[a];
    forall d: CallId, p: OrderId ensures HoldsOrder(s', d, p) <==> HoldsOrder(s, d, p) {
    }
    forall d: CallId, b: AppId ensures HoldsApp(s', d, b) <==> HoldsApp(s, d, b) {
    }
    SameRest(s0, s, s');
  }

  lemma CloseKeepsGood(s0: System, s: System, o: OrderId)
    requires Good(s0, s) && Enabled(s, CloseOrder(o))
    ensures Good(s0, Apply(s, CloseOrder(o)))
  {
    var s' := Apply(s, CloseOrder(o));
    forall d: CallId, p: OrderId | HoldsOrder(s', d, p) ensures HoldsOrder(s, d, p) && p != o {
      assert !HoldsOrder(s, d, o);
    }
    forall d: CallId, a: AppId | HoldsApp(s', d, a) ensures HoldsApp(s, d, a) && s.calls[d].order != o {
      assert HoldsOrder(s', d, s.calls[d].order);
    }
    SameRest(s0, s, s');
  }

  lemma ReviewKeepsLocks(s: System, a: AppId, approved: bool)
    requires LocksOk(s) && ReadsOk(s) && Enabled(s, Review(a, approved))
    ensures LocksOk(Apply(s, Review(a, approved))) && ReadsOk(Apply(s, Review(a, approved)))
  {
    var s' := Apply(s, Review(a, approved));
    forall d: CallId, p: OrderId ensures HoldsOrder(s', d, p) <==> HoldsOrder(s, d, p) {
    }
    forall d: CallId, b: AppId | HoldsApp(s', d, b) ensures HoldsApp(s, d, b) && b != a {
      assert !HoldsApp(s, d, a);
    }
  }

  lemma ReviewKeepsGood(s0: System, s: System, a: AppId, approved: bool)
    requires Good(s0, s) && Enabled(s, Review(a, approved))
    ensures Good(s0, Apply(s, Review(a, approved)))
  {
    ReviewKeepsLocks(s, a, approved);
    SameRest(s0, s, Apply(s, Review(a, approved)));
  }

  lemma PlainCommitKeepsLocks(s: System, c: CallId)
    requires LocksOk(s) && ReadsOk(s) && Enabled(s, Commit(c)) && !s.calls[c].phase.Saved?
    ensures LocksOk(Apply(s, Commit(c))) && ReadsOk(Apply(s, Commit(c)))
  {
    var s' := Apply(s, Commit(c));
    var o := s.calls[c].order;
    assert HoldsOrder(s, c, o);
    LocksAfterCommit(s, s', c);
    forall d: CallId, a: AppId | HoldsApp(s', d, a) ensures HoldsApp(s, d, a) && s.calls[d].order != o {
      assert HoldsOrder(s', d, s.calls[d].order);
    }
  }

  // A commit without a saved app only makes the order paid.
  lemma PlainCommitKeepsGood(s0: System, s: System, c: CallId)
    requires Good(s0, s) && Enabled(s, Commit(c)) && !s.calls[c].phase.Saved?
    ensures Good(s0, Apply(s, Commit(c)))
  {
    PlainCommitKeepsLocks(s, c);
    assert HoldsOrder(s, c, s.calls[c].order);
    SameRest(s0, s, Apply(s, Commit(c)));
  }

  lemma LocksAfterCommit(s: System, s': System, c: CallId)
    requires LocksOk(s) && c in s.calls && HoldsOrder(s, c, s.calls[c].order)
    requires s'.calls.Keys == s.calls.Keys && forall d :: d in s.calls && d != c ==> s'.calls[d] == s.calls[d]
    requires s'.calls[c].order == s.calls[c].order && !HoldsOrder(s', c, s.calls[c].order)
    requires s'.orders == s.orders[s.calls[c].order := s.orders[s.calls[c].order].(status := Paid)]
    ensures LocksOk(s')
    ensures forall d: CallId, p: OrderId :: HoldsOrder(s', d, p) ==>
                                              HoldsOrder(s, d, p) && d != c && p != s.calls[c].order
    ensures forall d: CallId, a: AppId :: HoldsApp(s', d, a) ==> HoldsApp(s, d, a) && d != c
  {
    var o := s.calls[c].order;
    forall d: CallId, p: OrderId | HoldsOrder(s', d, p) ensures HoldsOrder(s, d, p) && d != c && p != o {
      assert d != c && HoldsOrder(s, d, p);
    }
    forall d: CallId, a: AppId | HoldsApp(s', d, a) ensures HoldsApp(s, d, a) && d != c {
      assert HoldsOrder(s', d, s'.calls[d].order);
    }
  }

  lemma RenewingCommitKeepsLocks(s0: System, s: System, c: CallId)
    requires Good(s0, s) && Enabled(s, Commit(c)) && s.calls[c].phase.Saved?
    ensures LocksOk(Apply(s, Commit(c))) && ReadsOk(Apply(s, Commit(c)))
  {
    var s' := Apply(s, Commit(c));
    var id := s.calls[c].order;
    var a := s.orders[id].app;
    assert HoldsOrder(s, c, id) && HoldsApp(s, c, a);
    LocksAfterCommit(s, s', c);
    forall d: CallId, b: AppId | HoldsApp(s', d, b) ensures HoldsApp(s, d, b) && b != a && s.calls[d].order != id {
      assert HoldsOrder(s', d, s.calls[d].order);
    }
  }

  // What a commit adds to the renewals.
  lemma RenewingCommitRenews(s: System, c: CallId) returns (a: AppId, r: Renewal)
    requires Enabled(s, Commit(c)) && s.calls[c].phase.Saved?
    requires s.calls[c].order in s.orders && s.orders[s.calls[c].order].days > 0
    ensures r == Renewal(s.calls[c].order, s.calls[c].phase.at, s.orders[s.calls[c].order].days * DAY)
    ensures a == s.orders[s.calls[c].order].app
    ensures RenewalsOf(Apply(s, Commit(c)), a) == RenewalsOf(s, a) + [r]
    ensures forall b :: b != a ==> RenewalsOf(Apply(s, Commit(c)), b) == RenewalsOf(s, b)
  {
    var id := s.calls[c].order;
    a := s.orders[id].app;
    r := Renewal(id, s.calls[c].phase.at, s.orders[id].days * DAY);
  }

  // A renewing commit writes the app row it locked and appends exactly one renewal of it.
  lemma RenewingCommitKeepsGood(s0: System, s: System, c: CallId)
    requires Good(s0, s) && Enabled(s, Commit(c)) && s.calls[c].phase.Saved?
    ensures Good(s0, Apply(s, Commit(c)))
  {
    RenewingCommitKeepsLocks(s0, s, c);
    var id := s.calls[c].order;
    var a := s.orders[id].app;
    SavedIsRenewed(s, c, a);
    assert HoldsOrder(s, c, id);
    var b, r := RenewingCommitRenews(s, c);
    AfterCommit(s0, s, Apply(s, Commit(c)), c, a, s.calls[c].phase.row, r);
  }

  lemma AfterCommit(s0: System, s: System, s': System, c: CallId, a: AppId, row: App, r: Renewal)
    requires ExpiryOk(s0, s) && KeysOk(s0, s) && OnceOk(s)
    requires a in s.apps && s'.apps == s.apps[a := row] && row.expireAt == Max(s.apps[a].expireAt, r.at) + r.seconds
    requires r.order in s.orders && s.orders[r.order].status != Paid && s.orders[r.order].app == a
    requires s'.orders == s.orders[r.order := s.orders[r.order].(status := Paid)]
    requires s'.redis == s.redis && s'.clock == s.clock && s'.resets == s.resets && s'.owner == s.owner
    requires s'.writes == s.writes[c := Write(a, row.hash, row.expireAt)]
    requires RenewalsOf(s', a) == RenewalsOf(s, a) + [r]
    requires forall b :: b != a ==> RenewalsOf(s', b) == RenewalsOf(s, b)
    ensures ExpiryOk(s0, s') && KeysOk(s0, s') && OnceOk(s')
  {
    ExpiryAfterCommit(s0, s, s', a, row, r);
    OnceAfterCommit(s, s', a, r);
    KeysAfterCommit(s0, s, s', c, a, r);
  }

  lemma SavedIsRenewed(s: System, c: CallId, a: AppId)
    requires ReadsOk(s) && At(s, c) && s.calls[c].phase.Saved? && a == s.orders[s.calls[c].order].app
    ensures a in s.apps && s.orders[s.calls[c].order].days > 0
    ensures s.calls[c].phase.row.expireAt
            == Extended(s.apps[a].expireAt, s.calls[c].phase.at, s.orders[s.calls[c].order].days)
  {
    assert HoldsApp(s, c, a);
  }

  lemma ExpiryAfterCommit(s0: System, s: System, s': System, a: AppId, app: App, r: Renewal)
    requires ExpiryOk(s0, s) && a in s.apps && s'.apps == s.apps[a := app]
    requires app.expireAt == Max(s.apps[a].expireAt, r.at) + r.seconds
    requires RenewalsOf(s', a) == RenewalsOf(s, a) + [r]
    requires forall b :: b != a ==> RenewalsOf(s', b) == RenewalsOf(s, b)
    ensures ExpiryOk(s0, s')
  {
    assert (RenewalsOf(s, a) + [r])[..|RenewalsOf(s, a)|] == RenewalsOf(s, a);
  }

  lemma OnceAfterCommit(s: System, s': System, a: AppId, r: Renewal)
    requires OnceOk(s)
    requires forall b :: RenewalsOf(s', b) == RenewalsOf(s, b) + if b == a then [r] else []
    requires r.order in s.orders && s.orders[r.order].status != Paid && s.orders[r.order].app == a
    requires s'.orders == s.orders[r.order := s.orders[r.order].(status := Paid)]
    ensures OnceOk(s')
  {
    forall b, i | 0 <= i < |RenewalsOf(s', b)|
      ensures var o := RenewalsOf(s', b)[i].order;
              o in s'.orders && s'.orders[o].status == Paid && s'.orders[o].app == b
    {
      if i < |RenewalsOf(s, b)| {
        assert RenewalsOf(s', b)[i] == RenewalsOf(s, b)[i];
      }
    }
    forall b, i, j | 0 <= i < j < |RenewalsOf(s', b)|
      ensures RenewalsOf(s', b)[i].order != RenewalsOf(s', b)[j].order
    {
      assert RenewalsOf(s', b)[i] == RenewalsOf(s, b)[i];
    }
  }

  lemma CommittedStays(s0: System, s: System, s': System, a: AppId, r: Renewal, b: AppId, e: nat)
    requires forall x :: x != a ==> RenewalsOf(s', x) == RenewalsOf(s, x)
    requires RenewalsOf(s', a) == RenewalsOf(s, a) + [r]
    requires WasCommitted(s0, s, b, e)
    ensures WasCommitted(s0, s', b, e)
  {
    if b == a {
      PassedSnoc(s0.apps[b].expireAt, RenewalsOf(s, b), r, e);
    }
  }

  lemma KeysAfterCommit(s0: System, s: System, s': System, c: CallId, a: AppId, r: Renewal)
    requires KeysOk(s0, s) && ExpiryOk(s0, s')
    requires forall b :: b != a ==> RenewalsOf(s', b) == RenewalsOf(s, b)
    requires RenewalsOf(s', a) == RenewalsOf(s, a) + [r]
    requires s'.redis == s.redis && s'.clock == s.clock && s'.resets == s.resets && s'.owner == s.owner
    requires a in s'.apps && s'.writes == s.writes[c := Write(a, s'.apps[a].hash, s'.apps[a].expireAt)]
    ensures KeysOk(s0, s')
  {
    forall h | h in s'.redis ensures KeyOk(s0, s', h, s'.redis[h]) {
      CommittedStays(s0, s, s', a, r, s.owner[h], s.redis[h].expireAt);
    }
    forall d | d in s'.resets ensures WasCommitted(s0, s', s'.resets[d].app, s'.resets[d].expiry) {
      CommittedStays(s0, s, s', a, r, s.resets[d].app, s.resets[d].expiry);
    }
    forall d | d in s'.writes ensures WasCommitted(s0, s', s'.writes[d].app, s'.writes[d].expiry) {
      if d != c {
        CommittedStays(s0, s, s', a, r, s.writes[d].app, s.writes[d].expiry);
      }
    }
  }

  lemma WriteKeepsGood(s0: System, s: System, c: CallId)
    requires Good(s0, s) && OwnersOk(s) && Enabled(s, WriteRedis(c))
    ensures Good(s0, Apply(s, WriteRedis(c)))
  {
    var s' := Apply(s, WriteRedis(c));
    MoveKeepsLocks(s, s');
    assert KeyOk(s0, s, s.writes[c].hash, s'.redis[s.writes[c].hash]);
    SameGuarantees(s0, s, s');
  }

  // The start or abort of a call.
  lemma CallKeepsGood(s0: System, s: System, e: Event)
    requires Good(s0, s) && Enabled(s, e) && (e.Confirm? || e.Abort?)
    ensures Good(s0, Apply(s, e))
  {
    var s' := Apply(s, e);
    MoveKeepsLocks(s, s');
    SameRest(s0, s, s');
  }

  // Steps that touch no row: a lost write, the start of a reset, its delete, an eviction.
  lemma LoseKeepsGood(s0: System, s: System, c: CallId)
    requires Good(s0, s) && Enabled(s, LoseRedis(c))
    ensures Good(s0, Apply(s, LoseRedis(c)))
  {
    var s' := Apply(s, LoseRedis(c));
    MoveKeepsLocks(s, s');
    SameGuarantees(s0, s, s');
  }

  lemma DeleteKeepsGood(s0: System, s: System, c: CallId)
    requires Good(s0, s) && Enabled(s, DeleteOld(c))
    ensures Good(s0, Apply(s, DeleteOld(c)))
  {
    var s' := Apply(s, DeleteOld(c));
    MoveKeepsLocks(s, s');
    SameGuarantees(s0, s, s');
  }

  lemma LoseDeleteKeepsGood(s0: System, s: System, c: CallId)
    requires Good(s0, s) && Enabled(s, LoseDelete(c))
    ensures Good(s0, Apply(s, LoseDelete(c)))
  {
    var s' := Apply(s, LoseDelete(c));
    MoveKeepsLocks(s, s');
    SameGuarantees(s0, s, s');
  }

  lemma EvictKeepsGood(s0: System, s: System, h: Hash)
    requires Good(s0, s) && Enabled(s, Evict(h))
    ensures Good(s0, Apply(s, Evict(h)))
  {
    var s' := Apply(s, Evict(h));
    MoveKeepsLocks(s, s');
    SameGuarantees(s0, s, s');
  }

  lemma StartResetKeepsGood(s0: System, s: System, c: CallId, a: AppId, h: Hash)
    requires Good(s0, s) && Enabled(s, StartReset(c, a, h))
    ensures Good(s0, Apply(s, StartReset(c, a, h)))
  {
    var s' := Apply(s, StartReset(c, a, h));
    MoveKeepsLocks(s, s');
    assert WasCommitted(s0, s, a, s.apps[a].expireAt);
    SameGuarantees(s0, s, s');
  }

  lemma SaveHashKeepsLocks(s: System, c: CallId)
    requires LocksOk(s) && ReadsOk(s) && Enabled(s, SaveHash(c))
    ensures LocksOk(Apply(s, SaveHash(c))) && ReadsOk(Apply(s, SaveHash(c)))
  {
    var s' := Apply(s, SaveHash(c));
    forall d: CallId, p: OrderId ensures HoldsOrder(s', d, p) <==> HoldsOrder(s, d, p) {
    }
    forall d: CallId, b: AppId | HoldsApp(s', d, b) ensures HoldsApp(s, d, b) && b != s.resets[c].app {
      assert !HoldsApp(s, d, s.resets[c].app);
    }
  }

  lemma SaveHashFollows(s0: System, s: System, c: CallId)
    requires KeysOk(s0, s) && Enabled(s, SaveHash(c))
    ensures KeysFollow(s0, s, Apply(s, SaveHash(c)))
  {
    assert WasCommitted(s0, s, s.resets[c].app, s.resets[c].expiry);
  }

  lemma SaveHashKeepsGood(s0: System, s: System, c: CallId)
    requires Good(s0, s) && OwnersOk(s) && Enabled(s, SaveHash(c))
    ensures Good(s0, Apply(s, SaveHash(c)))
  {
    SaveHashKeepsLocks(s, c);
    SaveHashFollows(s0, s, c);
    SameGuarantees(s0, s, Apply(s, SaveHash(c)));
  }

  // What goes on around the calls.
  lemma TickKeepsGood(s0: System, s: System, now: nat)
    requires Good(s0, s) && Enabled(s, Tick(now))
    ensures Good(s0, Apply(s, Tick(now)))
  {
    var s' := Apply(s, Tick(now));
    MoveKeepsLocks(s, s');
    SameGuarantees(s0, s, s');
  }

  lemma PlaceKeepsGood(s0: System, s: System, o: OrderId, placed: Order)
    requires Good(s0, s) && Enabled(s, PlaceOrder(o, placed))
    ensures Good(s0, Apply(s, PlaceOrder(o, placed)))
  {
    var s' := Apply(s, PlaceOrder(o, placed));
    MoveKeepsLocks(s, s');
    SameGuarantees(s0, s, s');
  }

  // The steps of a confirmation inside its transaction.
  predicate OfTransaction(e: Event) {
    e.Confirm? || e.Claim? || e.LockApp? || e.Save? || e.Commit? || e.Abort?
  }

  lemma TransactionKeepsGood(s0: System, s: System, e: Event)
    requires Good(s0, s) && Enabled(s, e) && OfTransaction(e)
    ensures Good(s0, Apply(s, e))
  {
    match e
    case Confirm(_, _, _) => CallKeepsGood(s0, s, e);
    case Claim(c) => ClaimKeepsGood(s0, s, c);
    case LockApp(c) => LockKeepsGood(s0, s, c);
    case Save(c) => SaveKeepsGood(s0, s, c);
    case Commit(c) =>
      if s.calls[c].phase.Saved? {
        RenewingCommitKeepsGood(s0, s, c);
      } else {
        PlainCommitKeepsGood(s0, s, c);
      }
    case Abort(_) => CallKeepsGood(s0, s, e);
  }

  // The steps of a key reset.
  predicate OfReset(e: Event) {
    e.StartReset? || e.DeleteOld? || e.LoseDelete? || e.SaveHash?
  }

  lemma ResetKeepsGood(s0: System, s: System, e: Event)
    requires Good(s0, s) && OwnersOk(s) && Enabled(s, e) && OfReset(e)
    ensures Good(s0, Apply(s, e))
  {
    match e
    case StartReset(c, a, h) => StartResetKeepsGood(s0, s, c, a, h);
    case DeleteOld(c) => DeleteKeepsGood(s0, s, c);
    case LoseDelete(c) => LoseDeleteKeepsGood(s0, s, c);
    case SaveHash(c) => SaveHashKeepsGood(s0, s, c);
  }

  lemma OutsideKeepsGood(s0: System, s: System, e: Event)
    requires Good(s0, s) && OwnersOk(s) && Enabled(s, e) && !OfTransaction(e) && !OfReset(e)
    ensures Good(s0, Apply(s, e))
  {
    match e
    case WriteRedis(c) => WriteKeepsGood(s0, s, c);
    case LoseRedis(c) => LoseKeepsGood(s0, s, c);
    case Evict(h) => EvictKeepsGood(s0, s, h);
    case Tick(now) => TickKeepsGood(s0, s, now);
    case PlaceOrder(o, placed) => PlaceKeepsGood(s0, s, o, placed);
    case CloseOrder(o) => CloseKeepsGood(s0, s, o);
    case Review(a, approved) => ReviewKeepsGood(s0, s, a, approved);
  }

  lemma StepKeepsGood(s0: System, s: System, e: Event)
    requires Good(s0, s) && OwnersOk(s) && Enabled(s, e)
    ensures Good(s0, Apply(s, e))
  {
    if OfTransaction(e) {
      TransactionKeepsGood(s0, s, e);
    } else if OfReset(e) {
      ResetKeepsGood(s0, s, e);
    } else {
      OutsideKeepsGood(s0, s, e);
    }
  }

  // A commit writes back the row with the hash it locked.
  lemma CommitKeepsOwners(s: System, c: CallId)
    requires OwnersOk(s) && ReadsOk(s) && Enabled(s, Commit(c)) && s.calls[c].phase.Saved?
    ensures OwnersOk(Apply(s, Commit(c)))
  {
    assert HoldsApp(s, c, s.orders[s.calls[c].order].app);
  }

  // No hash is taken into use or given up, and no owner changes.
  lemma SameOwners(s: System, s': System)
    requires OwnersOk(s) && s'.apps.Keys == s.apps.Keys
    requires forall h :: h in s.owner ==> h in s'.owner && s'.owner[h] == s.owner[h]
    requires forall a :: a in s.apps ==> s'.apps[a].hash == s.apps[a].hash
    requires forall c :: c in s'.writes ==> c in s.writes && s'.writes[c] == s.writes[c]
    requires forall c :: c in s'.resets ==>
               c in s.resets && exists stage :: s'.resets[c] == s.resets[c].(stage := stage)
    ensures OwnersOk(s')
  {
  }

  lemma StartResetKeepsOwners(s: System, c: CallId, a: AppId, h: Hash)
    requires OwnersOk(s) && Enabled(s, StartReset(c, a, h))
    ensures OwnersOk(Apply(s, StartReset(c, a, h)))
  {
  }

  lemma SaveHashKeepsOwners(s: System, c: CallId)
    requires OwnersOk(s) && Enabled(s, SaveHash(c))
    ensures OwnersOk(Apply(s, SaveHash(c)))
  {
  }

  lemma DeleteKeepsOwners(s: System, c: CallId)
    requires OwnersOk(s) && Enabled(s, DeleteOld(c))
    ensures OwnersOk(Apply(s, DeleteOld(c))) && OwnersOk(Apply(s, LoseDelete(c)))
  {
    var r := s.resets[c];
    assert r == r.(stage := Fetched);
    assert forall d :: d in s.resets ==> s.resets[d] == s.resets[d].(stage := s.resets[d].stage);
    SameOwners(s, Apply(s, DeleteOld(c)));
    SameOwners(s, Apply(s, LoseDelete(c)));
  }

  lemma OtherStepKeepsOwners(s: System, e: Event)
    requires OwnersOk(s) && Enabled(s, e) && !OfReset(e) && (e.Commit? ==> !s.calls[e.call].phase.Saved?)
    ensures OwnersOk(Apply(s, e))
  {
    assert forall d :: d in s.resets ==> s.resets[d] == s.resets[d].(stage := s.resets[d].stage);
    SameOwners(s, Apply(s, e));
  }

  lemma StepKeepsOwners(s: System, e: Event)
    requires OwnersOk(s) && ReadsOk(s) && Enabled(s, e)
    ensures OwnersOk(Apply(s, e))
  {
    match e
    case StartReset(c, a, h) => StartResetKeepsOwners(s, c, a, h);
    case DeleteOld(c) => DeleteKeepsOwners(s, c);
    case LoseDelete(c) => DeleteKeepsOwners(s, c);
    case SaveHash(c) => SaveHashKeepsOwners(s, c);
    case Commit(c) =>
      if s.calls[c].phase.Saved? {
        CommitKeepsOwners(s, c);
      } else {
        OtherStepKeepsOwners(s, e);
      }
    case _ => OtherStepKeepsOwners(s, e);
  }

  // What every state of every run satisfies.
  ghost predicate Sound(s0: System, s: System) {
    Good(s0, s) && OwnersOk(s)
  }

  lemma StepKeepsSound(s0: System, s: System, e: Event)
    requires Sound(s0, s) && Enabled(s, e)
    ensures Sound(s0, Apply(s, e))
  {
    StepKeepsGood(s0, s, e);
    StepKeepsOwners(s, e);
  }

  lemma {:induction false} RunKeepsSound(s0: System, s: System, events: seq<Event>, s': System)
    requires Sound(s0, s) && Reaches(s, events, s')
    ensures Sound(s0, s')
    decreases |events|
  {
    if events == [] {
    } else {
      StepKeepsSound(s0, s, events[0]);
      RunKeepsSound(s0, Apply(s, events[0]), events[1..], s');
    }
  }

  lemma StartIsSound(s0: System)
    requires Start(s0)
    ensures Sound(s0, s0)
  {
    forall h | h in s0.redis ensures KeyOk(s0, s0, h, s0.redis[h]) {
    }
  }

  // ---------------------------------------------------------------- main results

  // No two calls hold one order or one app at once, in any interleaving.
  lemma LocksAreExclusive(s0: System, events: seq<Event>, s: System, c: CallId, d: CallId)
    requires Start(s0) && Reaches(s0, events, s)
    ensures (exists o: OrderId :: HoldsOrder(s, c, o) && HoldsOrder(s, d, o)) ==> c == d
    ensures (exists a: AppId :: HoldsApp(s, c, a) && HoldsApp(s, d, a)) ==> c == d
  {
    StartIsSound(s0);
    RunKeepsSound(s0, s0, events, s);
  }

  // The stored expiry is the closed form over all renewals committed for the app: nothing lost,
  // nothing counted twice, each order at most once and only when paid.
  lemma ExpiryIsClosedForm(s0: System, events: seq<Event>, s: System, a: AppId)
    requires Start(s0) && Reaches(s0, events, s) && a in s0.apps
    ensures a in s.apps && s.apps[a].expireAt == BestStart(s0.apps[a].expireAt, RenewalsOf(s, a))
    ensures s.apps[a].expireAt >= s0.apps[a].expireAt + Bought(RenewalsOf(s, a))
    ensures forall i :: 0 <= i < |RenewalsOf(s, a)| ==>
              var o := RenewalsOf(s, a)[i].order; o in s.orders && s.orders[o].status == Paid
    ensures forall i, j :: 0 <= i < j < |RenewalsOf(s, a)| ==>
              RenewalsOf(s, a)[i].order != RenewalsOf(s, a)[j].order
  {
    StartIsSound(s0);
    RunKeepsSound(s0, s0, events, s);
    RenewalClosedForm(s0.apps[a].expireAt, RenewalsOf(s, a));
  }

  // An order renews only its own app, so at most once over all apps.
  lemma OrderRenewsOnce(s0: System, events: seq<Event>, s: System, a: AppId, i: nat, b: AppId, j: nat)
    requires Start(s0) && Reaches(s0, events, s)
    requires i < |RenewalsOf(s, a)| && j < |RenewalsOf(s, b)|
    requires RenewalsOf(s, a)[i].order == RenewalsOf(s, b)[j].order
    ensures a == b && i == j
  {
    StartIsSound(s0);
    RunKeepsSound(s0, s0, events, s);
  }

  // However late or out of order the writes land, and whichever fail, every key in Redis, in use or
  // revoked, carries an expiry that the database of its app held and that is not beyond the present
  // one, and Redis drops it by then (or within a second of the write).
  lemma RedisNeverAhead(s0: System, events: seq<Event>, s: System, h: Hash)
    requires Start(s0) && Reaches(s0, events, s) && h in s.redis
    ensures h in s.owner && s.owner[h] in s.apps
    ensures WasCommitted(s0, s, s.owner[h], s.redis[h].expireAt)
    ensures s.redis[h].expireAt <= s.apps[s.owner[h]].expireAt
    ensures s.redis[h].deadline <= Max(s.apps[s.owner[h]].expireAt, s.clock + 1)
  {
    StartIsSound(s0);
    RunKeepsSound(s0, s0, events, s);
    assert KeyOk(s0, s, h, s.redis[h]);
    PassedIsNoLater(s0.apps[s.owner[h]].expireAt, RenewalsOf(s, s.owner[h]), s.redis[h].expireAt);
  }

  lemma StepKeepsExpiries(s: System, e: Event, a: AppId)
    requires ReadsOk(s) && Enabled(s, e) && a in s.apps
    ensures a in Apply(s, e).apps && s.apps[a].expireAt <= Apply(s, e).apps[a].expireAt
  {
    if e.Commit? && s.calls[e.call].phase.Saved? {
      SavedIsRenewed(s, e.call, s.orders[s.calls[e.call].order].app);
    } else {
      OtherStepKeepsExpiries(s, e, a);
    }
  }

  lemma OtherStepKeepsExpiries(s: System, e: Event, a: AppId)
    requires Enabled(s, e) && a in s.apps && (e.Commit? ==> !s.calls[e.call].phase.Saved?)
    ensures a in Apply(s, e).apps && s.apps[a].expireAt == Apply(s, e).apps[a].expireAt
  {
  }

  lemma {:induction false} RunKeepsExpiries(s0: System, s: System, events: seq<Event>, s': System, a: AppId)
    requires Sound(s0, s) && Reaches(s, events, s') && a in s.apps
    ensures a in s'.apps && s.apps[a].expireAt <= s'.apps[a].expireAt
    decreases |events|
  {
    if events == [] {
    } else {
      StepKeepsExpiries(s, events[0], a);
      StepKeepsSound(s0, s, events[0]);
      RunKeepsExpiries(s0, Apply(s, events[0]), events[1..], s', a);
    }
  }

  // The stored expiry never decreases from one state of a run to a later one.
  lemma ExpiryNeverDecreases(s0: System, before: seq<Event>, s: System, after: seq<Event>, s': System, a: AppId)
    requires Start(s0) && Reaches(s0, before, s) && Reaches(s, after, s') && a in s0.apps
    ensures a in s.apps && a in s'.apps && s0.apps[a].expireAt <= s.apps[a].expireAt <= s'.apps[a].expireAt
  {
    StartIsSound(s0);
    RunKeepsSound(s0, s0, before, s);
    RunKeepsExpiries(s0, s0, before, s, a);
    RunKeepsExpiries(s0, s, after, s', a);
  }

  // ---------------------------------------------------------------- one call among others at rest

  lemma FirstStep(s: System, e: Event, rest: seq<Event>, s': System)
    requires Enabled(s, e) && Reaches(Apply(s, e), rest, s')
    ensures Reaches(s, [e] + rest, s')
  {
    assert ([e] + rest)[1..] == rest;
  }

  lemma {:induction false} ReachesTogether(s: System, a: seq<Event>, m: System, b: seq<Event>, s': System)
    requires Reaches(s, a, m) && Reaches(m, b, s')
    ensures Reaches(s, a + b, s')
    decreases |a|
  {
    if a == [] {
      assert a + b == b;
    } else {
      var rest := a[1..];
      ReachesTogether(Apply(s, a[0]), rest, m, b, s');
      FirstStep(s, a[0], rest + b, s');
      assert a + b == [a[0]] + (rest + b);
    }
  }

  ghost predicate AtRest(s: System) {
    forall c :: c in s.calls ==> s.calls[c].phase.Done?
  }

  ghost predicate Renewable(s: System, o: OrderId) {
    && o in s.orders && s.orders[o].status == Pending && s.orders[o].days > 0
    && s.orders[o].app in s.apps && s.apps[s.orders[o].app].approved
  }

  // A call running alone takes both locks.
  lemma AloneLocks(s: System, c: CallId, o: OrderId, remark: string) returns (s': System)
    requires AtRest(s) && c !in s.calls && c !in s.resets && Renewable(s, o)
    ensures Reaches(s, [Confirm(c, o, remark)] + [Claim(c)] + [LockApp(c)], s')
    ensures s' == s.(calls := s.calls[c := Call(o, remark, Locked(s.apps[s.orders[o].app].expireAt))])
  {
    var a := s.orders[o].app;
    var s1 := Apply(s, Confirm(c, o, remark));
    assert OrderFree(s1, o) && s1.calls[c] == Call(o, remark, Called);
    var s2 := Apply(s1, Claim(c));
    assert AppFree(s2, a) && s2.calls[c] == Call(o, remark, Claimed);
    s' := Apply(s2, LockApp(c));
    FirstStep(s2, LockApp(c), [], s');
    FirstStep(s1, Claim(c), [LockApp(c)], s');
    FirstStep(s, Confirm(c, o, remark), [Claim(c)] + [LockApp(c)], s');
    assert [Confirm(c, o, remark)] + [Claim(c)] + [LockApp(c)]
           == [Confirm(c, o, remark)] + ([Claim(c)] + [LockApp(c)]);
  }

  // From there it saves and commits, changing the tables as `ConfirmOrder` does.
  lemma LockedCommits(s: System, c: CallId) returns (s': System)
    requires At(s, c) && s.calls[c].phase.Locked? && Renewable(s, s.calls[c].order)
    requires s.calls[c].phase.read == s.apps[s.orders[s.calls[c].order].app].expireAt
    ensures Reaches(s, [Save(c)] + [Commit(c)], s')
    ensures var call := s.calls[c];
            var a := s.orders[call.order].app;
            && s'.orders == s.orders[call.order := s.orders[call.order].(status := Paid)]
            && s'.apps == s.apps[a := Renew(s.apps[a], s.clock, s.orders[call.order].days, call.remark)]
            && s'.calls == s.calls[c := call.(phase := Done)]
            && s'.writes == s.writes[c := Write(a, s.apps[a].hash, s'.apps[a].expireAt)]
    ensures s'.resets == s.resets && s'.owner == s.owner && s'.redis == s.redis && s'.clock == s.clock
  {
    var a := s.orders[s.calls[c].order].app;
    var s4 := Apply(s, Save(c));
    assert s.apps[a].(expireAt := s.apps[a].expireAt) == s.apps[a];
    s' := Apply(s4, Commit(c));
    FirstStep(s4, Commit(c), [], s');
    FirstStep(s, Save(c), [Commit(c)], s');
  }

  // A confirmation from its call to its commit.
  function FromCallToCommit(c: CallId, o: OrderId, remark: string): seq<Event> {
    [Confirm(c, o, remark)] + [Claim(c)] + [LockApp(c)] + ([Save(c)] + [Commit(c)])
  }

  lemma AloneCommits(s: System, c: CallId, o: OrderId, remark: string) returns (s': System)
    requires AtRest(s) && c !in s.calls && c !in s.resets && Renewable(s, o)
    ensures Reaches(s, FromCallToCommit(c, o, remark), s')
    ensures s'.orders == s.orders[o := s.orders[o].(status := Paid)]
    ensures var a := s.orders[o].app;
            && s'.apps == s.apps[a := Renew(s.apps[a], s.clock, s.orders[o].days, remark)]
            && s'.calls == s.calls[c := Call(o, remark, Done)]
            && s'.writes == s.writes[c := Write(a, s.apps[a].hash, s'.apps[a].expireAt)]
    ensures s'.resets == s.resets && s'.owner == s.owner && s'.redis == s.redis && s'.clock == s.clock && AtRest(s')
  {
    var locked := AloneLocks(s, c, o, remark);
    s' := LockedCommits(locked, c);
    ReachesTogether(s, [Confirm(c, o, remark)] + [Claim(c)] + [LockApp(c)], locked, [Save(c)] + [Commit(c)], s');
  }

  // Redis may be left behind: two renewals of one app whose writes both land, in the wrong order,
  // leave a key that expires earlier than the database says, with nothing left in flight to mend it.
  lemma StaleKeyIsPossible(s: System, o1: OrderId, o2: OrderId, c1: CallId, c2: CallId)
    returns (events: seq<Event>, s': System)
    requires AtRest(s) && c1 != c2 && {c1, c2} !! s.calls.Keys + s.resets.Keys
    requires Renewable(s, o1) && Renewable(s, o2) && o1 != o2 && s.orders[o1].app == s.orders[o2].app
    ensures Reaches(s, events, s')
    ensures AtRest(s') && s'.writes == s.writes - {c1, c2}
    ensures var a := s.orders[o1].app;
            && a in s'.apps && s'.apps[a].hash in s'.redis
            && s'.redis[s'.apps[a].hash].expireAt < s'.apps[a].expireAt
  {
    var m := AloneCommits(s, c1, o1, "");
    var n := AloneCommits(m, c2, o2, "");
    var first, second := FromCallToCommit(c1, o1, ""), FromCallToCommit(c2, o2, "");
    var writes := [WriteRedis(c2)] + [WriteRedis(c1)];
    s' := WritesSwapped(n, c1, c2);
    ReachesThrough(s, first, m, second, n, writes, s');
    events := first + second + writes;
  }

  lemma ReachesThrough(s: System, a: seq<Event>, m: System, b: seq<Event>, n: System, c: seq<Event>, s': System)
    requires Reaches(s, a, m) && Reaches(m, b, n) && Reaches(n, c, s')
    ensures Reaches(s, a + b + c, s')
  {
    ReachesTogether(s, a, m, b, n);
    ReachesTogether(s, a + b, n, c, s');
  }

  lemma WritesSwapped(n: System, c1: CallId, c2: CallId) returns (s': System)
    requires c1 != c2 && c1 in n.writes && c2 in n.writes
    ensures Reaches(n, [WriteRedis(c2)] + [WriteRedis(c1)], s')
    ensures s'.apps == n.apps && s'.calls == n.calls && s'.writes == n.writes - {c1, c2}
    ensures n.writes[c1].hash in s'.redis && s'.redis[n.writes[c1].hash].expireAt == n.writes[c1].expiry
  {
    var p := Apply(n, WriteRedis(c2));
    s' := Apply(p, WriteRedis(c1));
    FirstStep(p, WriteRedis(c1), [], s');
    FirstStep(n, WriteRedis(c2), [WriteRedis(c1)], s');
  }
}
