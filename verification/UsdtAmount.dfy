/**
 Amount allocation for USDT payments: every pending order of a chain gets an amount of its own, so
 that an incoming transfer can be told apart by its amount.  Order amounts are in cents, on-chain
 transfers in millionths.
 */
module UsdtAmount {
  import opened Wrappers
  import opened Collections

  type OrderNo = string
  type Chain = string

  const OFFSETS := 99

  // ---------------------------------------------------------------- one allocation

  // The first of base + 1, ..., base + 99 cents not in use, counting from `c`; else the base itself.
  function FirstFree(base: nat, used: set<nat>, c: nat): nat
    decreases OFFSETS + 1 - c
  {
    if c > OFFSETS then base
    else if base + c !in used then base + c
    else FirstFree(base, used, c + 1)
  }

  method UniqueAmount(base: nat, usedAmounts: seq<nat>) returns (amount: nat)
    ensures amount == FirstFree(base, set u | u in usedAmounts, 1)
  {
    ghost var used := set u | u in usedAmounts;
    var cents := 1;
    while cents <= OFFSETS
      invariant 1 <= cents <= OFFSETS + 1
      invariant FirstFree(base, used, 1) == FirstFree(base, used, cents)
    {
      var candidate := base + cents;
      var conflict := false;
      var i := 0;
      while i < |usedAmounts|
        invariant 0 <= i <= |usedAmounts| && !conflict
        invariant candidate !in usedAmounts[..i]
      {
        if candidate == usedAmounts[i] {
          conflict := true;
          break;
        }
        i := i + 1;
      }
      if !conflict {
        assert usedAmounts[..i] == usedAmounts;
        return candidate;
      }
      cents := cents + 1;
    }
    return base;
  }

  // The 99 amounts that come into question.
  predicate Candidate(base: nat, x: nat) {
    base < x <= base + OFFSETS
  }

  ghost predicate SomeFree(base: nat, used: set<nat>) {
    exists x: nat :: Candidate(base, x) && x !in used
  }

  lemma {:induction false} FirstFreeFrom(base: nat, used: set<nat>, c: nat)
    requires 1 <= c <= OFFSETS + 1
    ensures var a := FirstFree(base, used, c);
            if a == base then forall x: nat :: base + c <= x && Candidate(base, x) ==> x in used
            else
              && base + c <= a && Candidate(base, a) && a !in used
              && forall x: nat :: base + c <= x < a && Candidate(base, x) ==> x in used
    decreases OFFSETS + 1 - c
  {
    if c > OFFSETS || base + c !in used {
    } else {
      FirstFreeFrom(base, used, c + 1);
    }
  }

  // The amount is unused exactly when one of the 99 candidates is free or, all taken, the base is;
  // and a free candidate means the least free candidate.
  lemma UniqueExactlyWhenFree(base: nat, used: set<nat>)
    ensures FirstFree(base, used, 1) !in used <==> SomeFree(base, used) || base !in used
    ensures SomeFree(base, used) ==>
              var a := FirstFree(base, used, 1);
              Candidate(base, a) && a !in used && forall x: nat :: Candidate(base, x) && x < a ==> x in used
  {
    FirstFreeFrom(base, used, 1);
    var a := FirstFree(base, used, 1);
    if a != base {
      assert Candidate(base, a);
    }
  }

  // Fewer than 99 amounts in use leave a candidate free.
  lemma FewUsedLeaveOneFree(base: nat, used: set<nat>)
    requires |used| < OFFSETS
    ensures SomeFree(base, used)
  {
    if !SomeFree(base, used) {
      CandidatesAre(base, OFFSETS);
      forall x | x in Candidates(base, OFFSETS) ensures x in used {
        assert Candidate(base, x);
      }
      SubsetIsSmaller(Candidates(base, OFFSETS), used);
    }
  }

  function Candidates(base: nat, n: nat): set<nat> {
    if n == 0 then {} else Candidates(base, n - 1) + {base + n}
  }

  lemma {:induction false} CandidatesAre(base: nat, n: nat)
    ensures |Candidates(base, n)| == n
    ensures forall x :: x in Candidates(base, n) <==> base < x <= base + n
  {
    if n == 0 {
    } else {
      CandidatesAre(base, n - 1);
    }
  }

  // ---------------------------------------------------------------- pending orders

  // The amount is missing until payment is first initiated.
  datatype Pending = Pending(chain: Chain, amount: Option<nat>)

  type Orders = map<OrderNo, Pending>

  ghost function Others(s: Orders, chain: Chain, o: OrderNo): set<OrderNo> {
    set p | p in s && p != o && s[p].chain == chain
  }

  // A missing amount counts as zero among the used ones.
  function Cents(p: Pending): nat {
    if p.amount.Some? then p.amount.value else 0
  }

  ghost function UsedAmounts(s: Orders, chain: Chain, o: OrderNo): set<nat> {
    set p | p in Others(s, chain, o) :: Cents(s[p])
  }

  // The amount `initiate` returns for a pending order of this chain; `base` is price times rate now.
  ghost function Initiated(s: Orders, o: OrderNo, base: nat): nat
    requires o in s
  {
    if s[o].amount.Some? && s[o].amount.value > 0 then s[o].amount.value
    else FirstFree(base, UsedAmounts(s, s[o].chain, o), 1)
  }

  // A pending initiation: it has read the table and computed an amount, and will store it.
  datatype Offer = Offer(order: OrderNo, amount: nat)

  type CallId = nat

  // `seen` are all order numbers ever given out.
  datatype System = System(orders: Orders, offers: map<CallId, Offer>, seen: set<OrderNo>)

  const INITIAL := System(map[], map[], {})

  datatype Event =
    | Place(order: OrderNo, chain: Chain)
    | Read(call: CallId, order: OrderNo, base: nat)
    | Store(call: CallId)
    | Settle(order: OrderNo)

  ghost predicate Enabled(s: System, e: Event) {
    match e
    case Place(o, _) => o !in s.seen
    case Read(c, o, _) => c !in s.offers && o in s.orders
    case Store(c) => c in s.offers
    case Settle(o) => o in s.orders
  }

  // Storing an amount for an order that has been settled meanwhile changes no pending order.
  ghost function Apply(s: System, e: Event): System
    requires Enabled(s, e)
  {
    match e
    case Place(o, chain) => s.(orders := s.orders[o := Pending(chain, None)], seen := s.seen + {o})
    case Read(c, o, base) => s.(offers := s.offers[c := Offer(o, Initiated(s.orders, o, base))])
    case Store(c) =>
      var f := s.offers[c];
      s.(offers := s.offers - {c},
         orders := if f.order in s.orders then s.orders[f.order := s.orders[f.order].(amount := Some(f.amount))]
                   else s.orders)
    case Settle(o) => s.(orders := s.orders - {o})
  }

  ghost predicate Reaches(s: System, events: seq<Event>, s': System)
    decreases |events|
  {
    if events == [] then s == s'
    else Enabled(s, events[0]) && Reaches(Apply(s, events[0]), events[1..], s')
  }

  ghost predicate Shown(s: Orders, o: OrderNo) {
    o in s && s[o].amount.Some? && s[o].amount.value > 0
  }

  // A pending initiation for an order of this chain.
  ghost predicate Busy(s: System, chain: Chain) {
    exists c :: c in s.offers && s.offers[c].order in s.orders && s.orders[s.offers[c].order].chain == chain
  }

  // Every initiation of a chain starts after the one before it has stored its amount; and a new amount
  // is asked for only while fewer than 99 other orders wait on the chain.
  ghost predicate Orderly(s: System, events: seq<Event>)
    decreases |events|
  {
    events == []
    || (Enabled(s, events[0]) && OrderlyStep(s, events[0]) && Orderly(Apply(s, events[0]), events[1..]))
  }

  ghost predicate OrderlyStep(s: System, e: Event) {
    e.Read? && e.order in s.orders ==>
      var chain := s.orders[e.order].chain;
      !Busy(s, chain) && (!Shown(s.orders, e.order) ==> |Others(s.orders, chain, e.order)| < OFFSETS)
  }

  // Shown amounts are positive, and of two orders on one chain they differ by a cent or more.
  ghost predicate Apart(s: Orders) {
    && (forall o :: o in s && s[o].amount.Some? ==> s[o].amount.value > 0)
    && (forall o, p ::
          (o in s && p in s && o != p && s[o].chain == s[p].chain && s[o].amount.Some? && s[p].amount.Some?) ==>
            s[o].amount.value != s[p].amount.value)
  }

  lemma {:induction false} ImageCount(s: Orders, os: set<OrderNo>)
    requires os <= s.Keys
    ensures |set p | p in os :: Cents(s[p])| <= |os|
    decreases os
  {
    var image := set p | p in os :: Cents(s[p]);
    if os == {} {
      assert image == {};
    } else {
      var o :| o in os;
      ImageCount(s, os - {o});
      var rest := set p | p in os - {o} :: Cents(s[p]);
      assert image == rest + {Cents(s[o])};
    }
  }

  // ---------------------------------------------------------------- orderly runs

  // What is offered to an order is positive, is its own amount if it has one, and is nobody else's.
  ghost predicate OfferOk(s: Orders, f: Offer) {
    f.order in s ==>
      && f.amount > 0
      && (s[f.order].amount.Some? ==> s[f.order].amount.value == f.amount)
      && (forall p :: p in s && p != f.order && s[p].chain == s[f.order].chain && s[p].amount.Some? ==>
            s[p].amount.value != f.amount)
  }

  ghost predicate Tidy(s: System) {
    && Apart(s.orders) && s.orders.Keys <= s.seen
    && (forall c :: c in s.offers ==> s.offers[c].order in s.seen && OfferOk(s.orders, s.offers[c]))
    && (forall c, d ::
          (c in s.offers && d in s.offers && c != d
           && s.offers[c].order in s.orders && s.offers[d].order in s.orders) ==>
            s.orders[s.offers[c].order].chain != s.orders[s.offers[d].order].chain)
  }

  lemma NewAmountIsFree(s: Orders, o: OrderNo, base: nat)
    requires Apart(s) && o in s && (!Shown(s, o) ==> |Others(s, s[o].chain, o)| < OFFSETS)
    ensures OfferOk(s, Offer(o, Initiated(s, o, base)))
  {
    var used := UsedAmounts(s, s[o].chain, o);
    var a := Initiated(s, o, base);
    if !Shown(s, o) {
      ImageCount(s, Others(s, s[o].chain, o));
      FewUsedLeaveOneFree(base, used);
      UniqueExactlyWhenFree(base, used);
      forall p | p in s && p != o && s[p].chain == s[o].chain && s[p].amount.Some? ensures s[p].amount.value != a {
        assert p in Others(s, s[o].chain, o);
        assert Cents(s[p]) in used;
      }
    }
  }

  lemma ReadKeepsTidy(s: System, c: CallId, o: OrderNo, base: nat)
    requires Tidy(s) && Enabled(s, Read(c, o, base)) && OrderlyStep(s, Read(c, o, base))
    ensures Tidy(Apply(s, Read(c, o, base)))
  {
    NewAmountIsFree(s.orders, o, base);
    var s' := Apply(s, Read(c, o, base));
    forall d | d in s.offers && s.offers[d].order in s.orders
      ensures s.orders[s.offers[d].order].chain != s.orders[o].chain
    {
      assert !Busy(s, s.orders[o].chain);
    }
  }

  lemma StoreKeepsTidy(s: System, c: CallId)
    requires Tidy(s) && Enabled(s, Store(c))
    ensures Tidy(Apply(s, Store(c)))
  {
    var f := s.offers[c];
    assert OfferOk(s.orders, f);
    forall d | d in s.offers && d != c ensures OfferOk(Apply(s, Store(c)).orders, s.offers[d]) {
      assert OfferOk(s.orders, s.offers[d]);
    }
  }

  lemma PlaceKeepsTidy(s: System, o: OrderNo, chain: Chain)
    requires Tidy(s) && Enabled(s, Place(o, chain))
    ensures Tidy(Apply(s, Place(o, chain)))
  {
    forall d | d in s.offers ensures OfferOk(Apply(s, Place(o, chain)).orders, s.offers[d]) {
      assert OfferOk(s.orders, s.offers[d]);
    }
  }

  lemma SettleKeepsTidy(s: System, o: OrderNo)
    requires Tidy(s) && Enabled(s, Settle(o))
    ensures Tidy(Apply(s, Settle(o)))
  {
    forall d | d in s.offers ensures OfferOk(Apply(s, Settle(o)).orders, s.offers[d]) {
      assert OfferOk(s.orders, s.offers[d]);
    }
  }

  lemma StepKeepsTidy(s: System, e: Event)
    requires Tidy(s) && Enabled(s, e) && OrderlyStep(s, e)
    ensures Tidy(Apply(s, e))
  {
    match e
    case Place(o, chain) => PlaceKeepsTidy(s, o, chain);
    case Read(c, o, base) => ReadKeepsTidy(s, c, o, base);
    case Store(c) => StoreKeepsTidy(s, c);
    case Settle(o) => SettleKeepsTidy(s, o);
  }

  lemma {:induction false} RunKeepsTidy(s: System, events: seq<Event>, s': System)
    requires Tidy(s) && Reaches(s, events, s') && Orderly(s, events)
    ensures Tidy(s')
    decreases |events|
  {
    if events == [] {
    } else {
      StepKeepsTidy(s, events[0]);
      RunKeepsTidy(Apply(s, events[0]), events[1..], s');
    }
  }

  // Over every orderly run the pending amounts of a chain stay at least a cent apart.
  lemma AmountsStayApart(events: seq<Event>, s: System, o: OrderNo, p: OrderNo)
    requires Reaches(INITIAL, events, s) && Orderly(INITIAL, events)
    requires o in s.orders && p in s.orders && o != p && s.orders[o].chain == s.orders[p].chain
    requires s.orders[o].amount.Some? && s.orders[p].amount.Some?
    ensures s.orders[o].amount.value >= s.orders[p].amount.value + 1
            || s.orders[p].amount.value >= s.orders[o].amount.value + 1
  {
    RunKeepsTidy(INITIAL, events, s);
  }

  lemma StepKeepsAmount(s: System, e: Event, o: OrderNo)
    requires Tidy(s) && Enabled(s, e) && e != Settle(o)
    requires o in s.orders && s.orders[o].amount.Some?
    ensures o in Apply(s, e).orders && Apply(s, e).orders[o] == s.orders[o]
  {
    if e.Store? {
      assert OfferOk(s.orders, s.offers[e.call]);
    }
  }

  // Over every orderly run an order that stays pending keeps its amount, and is asked it again at every
  // later initiation, whatever the rate and however many others wait.
  lemma {:induction false} AmountIsKept(s: System, events: seq<Event>, s': System, o: OrderNo, base: nat)
    requires Tidy(s) && Reaches(s, events, s') && Orderly(s, events)
    requires o in s.orders && s.orders[o].amount.Some? && Settle(o) !in events
    ensures o in s'.orders && s'.orders[o] == s.orders[o] && Initiated(s'.orders, o, base) == s.orders[o].amount.value
    decreases |events|
  {
    if events == [] {
    } else {
      StepKeepsTidy(s, events[0]);
      StepKeepsAmount(s, events[0], o);
      AmountIsKept(Apply(s, events[0]), events[1..], s', o, base);
    }
  }

  // A first initiation with fewer than 99 others waiting gets the least amount of 1 to 99 cents above the
  // base that none of them was given.
  lemma NewAmountIsLeastFree(s: Orders, o: OrderNo, base: nat)
    requires o in s && (s[o].amount == None || s[o].amount == Some(0))
    requires |set p | p in s && p != o && s[p].chain == s[o].chain| < 99
    ensures base < Initiated(s, o, base) <= base + 99
    ensures forall x: nat :: base < x <= Initiated(s, o, base) ==>
              (x < Initiated(s, o, base)
               <==> exists p :: p in s && p != o && s[p].chain == s[o].chain && s[p].amount == Some(x))
  {
    var others := Others(s, s[o].chain, o);
    var used := UsedAmounts(s, s[o].chain, o);
    assert others == set p | p in s && p != o && s[p].chain == s[o].chain;
    ImageCount(s, others);
    FewUsedLeaveOneFree(base, used);
    UniqueExactlyWhenFree(base, used);
    forall x: nat | base < x <= Initiated(s, o, base)
      ensures x < Initiated(s, o, base)
              <==> exists p :: p in s && p != o && s[p].chain == s[o].chain && s[p].amount == Some(x)
    {
      assert Candidate(base, x);
      assert x in used <==> exists p :: p in others && Cents(s[p]) == x;
    }
  }

  // ---------------------------------------------------------------- transfers

  datatype Transfer = Transfer(to: string, succeeded: bool, micros: nat, memo: string, id: string)

  // Within 0.001 USDT of the amount.
  predicate Matches(micros: nat, cents: nat) {
    -1000 <= micros - cents * 10_000 <= 1000
  }

  predicate Accepts(address: string, memo: string, cents: nat, tx: Transfer) {
    && tx.to == address && tx.succeeded && Matches(tx.micros, cents)
    && (tx.memo == "" || tx.memo == memo) && tx.id != ""
  }

  // The first listed transfer that pays the amount, if any.
  method VerifyTrc20(address: string, memo: string, cents: nat, txs: seq<Transfer>) returns (r: Option<string>)
    ensures r.None? <==> forall i :: 0 <= i < |txs| ==> !Accepts(address, memo, cents, txs[i])
    ensures r.Some? ==>
              exists i :: 0 <= i < |txs| && Accepts(address, memo, cents, txs[i]) && r == Some(txs[i].id)
                          && forall j :: 0 <= j < i ==> !Accepts(address, memo, cents, txs[j])
  {
    var i := 0;
    while i < |txs|
      invariant 0 <= i <= |txs|
      invariant forall j :: 0 <= j < i ==> !Accepts(address, memo, cents, txs[j])
    {
      var tx := txs[i];
      if tx.to == address {
        if tx.succeeded {
          if !(tx.micros - cents * 10_000 > 1000 || cents * 10_000 - tx.micros > 1000) {
            if !(tx.memo != "" && tx.memo != memo) {
              if tx.id != "" {
                return Some(tx.id);
              }
            }
          }
        }
      }
      i := i + 1;
    }
    return None;
  }

  // Over every orderly run no transfer is within the tolerance of two pending orders of a chain.
  lemma NoTransferPaysTwo(events: seq<Event>, s: System, o: OrderNo, p: OrderNo, micros: nat)
    requires Reaches(INITIAL, events, s) && Orderly(INITIAL, events)
    requires o in s.orders && p in s.orders && s.orders[o].chain == s.orders[p].chain
    requires s.orders[o].amount.Some? && s.orders[p].amount.Some?
    requires Matches(micros, s.orders[o].amount.value) && Matches(micros, s.orders[p].amount.value)
    ensures o == p
  {
    RunKeepsTidy(INITIAL, events, s);
  }

  // ---------------------------------------------------------------- runs that are not orderly

  // With all 99 offsets and the base taken the allocation repeats an amount in use: orders at
  // base, base + 1, ..., base + 99 make it ask the base again.
  lemma FullRangeRepeats(base: nat, used: set<nat>)
    requires base in used && forall x :: Candidate(base, x) ==> x in used
    ensures FirstFree(base, used, 1) == base
  {
    FirstFreeFrom(base, used, 1);
  }

  // Of two bases against one table, the amounts are the same exactly when the higher base lies below the
  // lower one's amount, or is that amount and has nothing free above it.
  lemma SameAmountExactly(b: nat, c: nat, used: set<nat>)
    requires b <= c
    ensures FirstFree(b, used, 1) == FirstFree(c, used, 1)
            <==> c < FirstFree(b, used, 1) || (c == FirstFree(b, used, 1) && !SomeFree(c, used))
  {
    UniqueExactlyWhenFree(b, used);
    UniqueExactlyWhenFree(c, used);
    FirstFreeFrom(b, used, 1);
    FirstFreeFrom(c, used, 1);
    var x, y := FirstFree(b, used, 1), FirstFree(c, used, 1);
    if c < x {
      assert Candidate(b, x) && Candidate(c, x);
    }
    if SomeFree(c, used) {
      assert Candidate(c, y);
    }
  }

  // Two orders of a chain without amounts see the same amounts in use.
  lemma SameUsedAmounts(s: Orders, o: OrderNo, p: OrderNo)
    requires o in s && p in s && o != p && s[o] == s[p] && s[o].amount.None?
    ensures UsedAmounts(s, s[o].chain, o) == UsedAmounts(s, s[p].chain, p)
  {
    var chain := s[o].chain;
    var a, b := UsedAmounts(s, chain, o), UsedAmounts(s, chain, p);
    assert p in Others(s, chain, o) && o in Others(s, chain, p);
    forall x ensures x in a <==> x in b {
      if q :| q in Others(s, chain, o) && x == Cents(s[q]) {
        var q' := if q == p then o else q;
        assert q' in Others(s, chain, p) && Cents(s[q']) == x;
      }
      if q :| q in Others(s, chain, p) && x == Cents(s[q]) {
        var q' := if q == o then p else q;
        assert q' in Others(s, chain, o) && Cents(s[q']) == x;
      }
    }
  }

  function Overlap(c: CallId, o: OrderNo, b: nat, d: CallId, p: OrderNo, b': nat): seq<Event> {
    [Read(c, o, b)] + ([Read(d, p, b')] + ([Store(c)] + [Store(d)]))
  }

  lemma FirstStep(s: System, e: Event, rest: seq<Event>, s': System)
    requires Enabled(s, e) && Reaches(Apply(s, e), rest, s')
    ensures Reaches(s, [e] + rest, s')
  {
    assert ([e] + rest)[1..] == rest;
  }

  lemma OverlapEnds(s: System, c: CallId, o: OrderNo, b: nat, d: CallId, p: OrderNo, b': nat) returns (s': System)
    requires c != d && c !in s.offers && d !in s.offers && o in s.orders && p in s.orders
    ensures Reaches(s, Overlap(c, o, b, d, p, b'), s')
    ensures s'.orders == s.orders[o := s.orders[o].(amount := Some(Initiated(s.orders, o, b)))]
                           [p := s.orders[p].(amount := Some(Initiated(s.orders, p, b')))]
  {
    var s1 := Apply(s, Read(c, o, b));
    var s2 := Apply(s1, Read(d, p, b'));
    var s3 := Apply(s2, Store(c));
    s' := Apply(s3, Store(d));
    FirstStep(s3, Store(d), [], s');
    FirstStep(s2, Store(c), [Store(d)], s');
    FirstStep(s1, Read(d, p, b'), [Store(c)] + [Store(d)], s');
    FirstStep(s, Read(c, o, b), [Read(d, p, b')] + ([Store(c)] + [Store(d)]), s');
  }

  // Two initiations that read the table before either amount is stored leave two orders of a chain with
  // one amount, and any transfer of it matches both, exactly when the higher base lies below the lower
  // one's amount (or is that amount and has nothing free above it).
  lemma OverlapCollidesExactly(s: System, c: CallId, o: OrderNo, b: nat, d: CallId, p: OrderNo, b': nat)
    returns (s': System)
    requires c != d && c !in s.offers && d !in s.offers && b <= b'
    requires o in s.orders && p in s.orders && o != p && s.orders[o] == s.orders[p] && s.orders[o].amount.None?
    ensures Reaches(s, Overlap(c, o, b, d, p, b'), s')
    ensures o in s'.orders && s'.orders[o].amount.Some? && p in s'.orders && s'.orders[p].amount.Some?
    ensures var used := UsedAmounts(s.orders, s.orders[o].chain, o);
            var amount := FirstFree(b, used, 1);
            s'.orders[o].amount == s'.orders[p].amount
            <==> b' < amount || (b' == amount && !SomeFree(b', used))
    ensures s'.orders[o].amount == s'.orders[p].amount
            <==> exists micros: nat :: Matches(micros, s'.orders[o].amount.value)
                                       && Matches(micros, s'.orders[p].amount.value)
  {
    s' := OverlapEnds(s, c, o, b, d, p, b');
    SameUsedAmounts(s.orders, o, p);
    SameAmountExactly(b, b', UsedAmounts(s.orders, s.orders[o].chain, o));
    assert Matches(s'.orders[o].amount.value * 10_000, s'.orders[o].amount.value);
  }

  // Even one order can lose the amount it was shown: a second initiation that read before the first had
  // stored replaces it, if the rate has moved to or past the amount.
  lemma OverlapReplacesExactly(s: System, c: CallId, d: CallId, o: OrderNo, b: nat, b': nat) returns (s': System)
    requires c != d && c !in s.offers && d !in s.offers && b <= b'
    requires o in s.orders && s.orders[o].amount.None?
    ensures Reaches(s, Overlap(c, o, b, d, o, b'), s')
    ensures var used := UsedAmounts(s.orders, s.orders[o].chain, o);
            var amount := FirstFree(b, used, 1);
            && o in s'.orders
            && (s'.orders[o].amount != Some(amount)
                <==> b' > amount || (b' == amount && SomeFree(b', used)))
  {
    s' := OverlapEnds(s, c, o, b, d, o, b');
    SameAmountExactly(b, b', UsedAmounts(s.orders, s.orders[o].chain, o));
  }
}
