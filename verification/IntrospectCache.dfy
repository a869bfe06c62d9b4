/**
 The token introspection cache of `ecat-auth`: a map bounded by a first-in first-out queue of
 its keys, with a time to live.  Keys are the hashed tokens.  Reads and writes happen in
 separate lock sections, so a run is any sequence of writes, and a read may come at any point.
 */
module IntrospectCache {
  import opened Wrappers
  import opened Clock
  import opened Collections

  type Key = string

  // A JSON value; the cache never looks inside one.
  datatype Json = Json(text: string)

  datatype Claims = Claims(sub: string, exp: Option<nat>, iat: Option<nat>, role: Option<string>,
                           extra: map<string, Json>)

  // capacity comes through a builder that raises it to at least one
  datatype Config = Config(ttl: nat, capacity: nat, whitelist: seq<string>) {
    ghost predicate Valid() { capacity >= 1 }
  }

  // ---------------------------------------------------------------- claims

  function FilterClaims(c: Claims, whitelist: seq<string>): Claims {
    if "*" in whitelist then c
    else c.(extra := map k | k in c.extra && k in whitelist :: c.extra[k])
  }

  // ---------------------------------------------------------------- abstract value

  datatype Entry = Entry(claims: Claims, cachedAt: nat)

  function Unexpired(e: Entry, ttl: nat, now: nat): bool {
    Elapsed(e.cachedAt, now) < ttl
  }

  function Retained(order: seq<Key>, keys: set<Key>): seq<Key> {
    if order == [] then []
    else
      Retained(order[..|order| - 1], keys)
      + if order[|order| - 1] in keys then [order[|order| - 1]] else []
  }

  datatype Cache = Cache(entries: map<Key, Entry>, order: seq<Key>) {
    function Purge(ttl: nat, now: nat): Cache {
      var es := map k | k in entries && Unexpired(entries[k], ttl, now) :: entries[k];
      Cache(es, Retained(order, es.Keys))
    }

    // The purge that precedes a write: only when the cache is nearly full.
    function Purged(c: Config, now: nat): Cache {
      if |entries| >= PurgeThreshold(c) then Purge(c.ttl, now) else this
    }

    // Makes room for, and queues, a key that is not cached.
    function Enqueue(c: Config, k: Key): Cache {
      if k in entries then this
      else if |entries| >= c.capacity && order != [] then
        Cache(entries - {order[0]}, order[1..] + [k])
      else Cache(entries, order + [k])
    }

    function Store(c: Config, k: Key, claims: Claims, now: nat): Cache {
      if c.ttl == 0 then this
      else
        var q := Purged(c, now).Enqueue(c, k);
        q.(entries := q.entries[k := Entry(FilterClaims(claims, c.whitelist), now)])
    }

    function Lookup(c: Config, k: Key, now: nat): Option<Claims> {
      if c.ttl > 0 && k in entries && Unexpired(entries[k], c.ttl, now) then Some(entries[k].claims)
      else None
    }
  }

  function PurgeThreshold(c: Config): nat {
    if c.capacity * 9 / 10 >= 1 then c.capacity * 9 / 10 else 1
  }

  // ---------------------------------------------------------------- the object

  class IntrospectCache {
    var entries: map<Key, Entry>
    var order: seq<Key>

    ghost function Value(): Cache
      reads this
    {
      Cache(entries, order)
    }

    constructor ()
      ensures Value() == Cache(map[], [])
    {
      entries, order := map[], [];
    }

    method PurgeExpired(ttl: nat, now: nat)
      modifies this
      ensures Value() == old(Value()).Purge(ttl, now)
    {
      entries := map k | k in entries && Unexpired(entries[k], ttl, now) :: entries[k];
      var kept: seq<Key> := [];
      var i := 0;
      while i < |order|
        modifies {}
        invariant 0 <= i <= |order| && kept == Retained(order[..i], entries.Keys)
      {
        assert order[..i + 1][..i] == order[..i];
        if order[i] in entries {
          kept := kept + [order[i]];
        }
        i := i + 1;
      }
      assert order[..i] == order;
      order := kept;
    }

    // The read path of `introspect_token`.
    method Lookup(c: Config, k: Key, now: nat) returns (r: Option<Claims>)
      ensures r == Value().Lookup(c, k, now)
    {
      if c.ttl > 0 && k in entries && Unexpired(entries[k], c.ttl, now) {
        return Some(entries[k].claims);
      }
      return None;
    }

    // The write path of `introspect_token`.
    method Store(c: Config, k: Key, claims: Claims, now: nat)
      modifies this
      ensures Value() == old(Value()).Store(c, k, claims, now)
    {
      if c.ttl > 0 {
        if |entries| >= PurgeThreshold(c) {
          PurgeExpired(c.ttl, now);
        }
        if k !in entries {
          if |entries| >= c.capacity && order != [] {
            var oldest := order[0];
            order := order[1..];
            entries := entries - {oldest};
          }
          order := order + [k];
        }
        entries := entries[k := Entry(FilterClaims(claims, c.whitelist), now)];
      }
    }
  }

  // ---------------------------------------------------------------- runs

  datatype Write = Write(key: Key, claims: Claims, at: nat)

  function After(c: Config, ws: seq<Write>): Cache {
    if ws == [] then Cache(map[], [])
    else
      var w := ws[|ws| - 1];
      After(c, ws[..|ws| - 1]).Store(c, w.key, w.claims, w.at)
  }

  // The ideal cache: the last write of a key, never evicted, never filtered.
  function LastWrite(ws: seq<Write>, k: Key): Option<Write> {
    if ws == [] then None
    else if ws[|ws| - 1].key == k then Some(ws[|ws| - 1])
    else LastWrite(ws[..|ws| - 1], k)
  }

  // The write `w`, arriving after `ws`, finds its key uncached and puts it into the queue.
  ghost predicate Inserts(c: Config, ws: seq<Write>, w: Write) {
    c.ttl > 0 && w.key !in After(c, ws).Purged(c, w.at).entries
  }

  // The other keys newly inserted since `k` last entered the queue.
  ghost function NewSince(c: Config, ws: seq<Write>, k: Key): set<Key> {
    if ws == [] then {}
    else
      var front, w := ws[..|ws| - 1], ws[|ws| - 1];
      if !Inserts(c, front, w) then NewSince(c, front, k)
      else if w.key == k then {}
      else NewSince(c, front, k) + {w.key}
  }

  ghost predicate Distinct(s: seq<Key>) {
    forall i, j :: 0 <= i < j < |s| ==> s[i] != s[j]
  }

  ghost predicate Agrees(s: seq<Key>, keys: set<Key>) {
    Distinct(s) && forall k :: k in s <==> k in keys
  }

  function Behind(s: seq<Key>, k: Key): set<Key> {
    if s == [] then {}
    else if s[0] == k then set x | x in s[1..]
    else Behind(s[1..], k)
  }

  ghost predicate Timely(ws: seq<Write>, now: nat) {
    forall i :: 0 <= i < |ws| ==> ws[i].at <= now
  }

  // ---------------------------------------------------------------- queue facts

  lemma {:induction false} RetainedIs(s: seq<Key>, keys: set<Key>)
    requires Distinct(s)
    ensures Distinct(Retained(s, keys))
    ensures forall k :: k in Retained(s, keys) <==> k in s && k in keys
  {
    if s == [] {
    } else {
      var front, x := s[..|s| - 1], s[|s| - 1];
      assert s == front + [x];
      assert x !in front;
      RetainedIs(front, keys);
    }
  }

  lemma {:induction false} DistinctCount(s: seq<Key>)
    requires Distinct(s)
    ensures |set x | x in s| == |s|
  {
    if s == [] {
    } else {
      var front, x := s[..|s| - 1], s[|s| - 1];
      assert s == front + [x];
      assert x !in front;
      DistinctCount(front);
      assert (set y | y in s) == (set y | y in front) + {x};
    }
  }

  lemma AgreesCount(s: seq<Key>, keys: set<Key>)
    requires Agrees(s, keys)
    ensures |s| == |keys|
  {
    DistinctCount(s);
    assert (set x | x in s) == keys;
  }

  lemma {:induction false} BehindAppend(s: seq<Key>, x: Key, k: Key)
    requires k in s
    ensures Behind(s + [x], k) == Behind(s, k) + {x}
  {
    if s[0] == k {
      assert (s + [x])[1..] == s[1..] + [x];
    } else {
      assert (s + [x])[1..] == s[1..] + [x];
      BehindAppend(s[1..], x, k);
    }
  }

  lemma {:induction false} BehindRetained(s: seq<Key>, keys: set<Key>, k: Key)
    requires Distinct(s) && k in s && k in keys
    ensures Behind(Retained(s, keys), k) <= Behind(s, k)
  {
    var front, x := s[..|s| - 1], s[|s| - 1];
    assert s == front + [x];
    RetainedIs(s, keys);
    RetainedIs(front, keys);
    if k in front {
      BehindRetained(front, keys, k);
      BehindAppend(front, x, k);
      if x in keys {
        BehindAppend(Retained(front, keys), x, k);
      } else {
        assert Retained(s, keys) == Retained(front, keys);
      }
    } else {
      BehindLast(Retained(front, keys), k);
    }
  }

  lemma {:induction false} BehindLast(s: seq<Key>, k: Key)
    requires k !in s
    ensures Behind(s + [k], k) == {}
  {
    if s == [] {
    } else {
      assert (s + [k])[1..] == s[1..] + [k];
      BehindLast(s[1..], k);
    }
  }

  // ---------------------------------------------------------------- invariant of every run

  ghost predicate Sound(c: Config, s: Cache) {
    Agrees(s.order, s.entries.Keys) && |s.order| <= c.capacity
  }

  lemma PurgedIs(c: Config, s: Cache, now: nat)
    requires Sound(c, s)
    ensures var p := s.Purged(c, now);
            && Sound(c, p)
            && p.entries.Keys <= s.entries.Keys
            && (forall k :: k in p.entries ==> p.entries[k] == s.entries[k])
            && (forall k :: k in s.entries && Unexpired(s.entries[k], c.ttl, now) ==> k in p.entries)
            && (forall k :: k in p.entries ==> Behind(p.order, k) <= Behind(s.order, k))
  {
    var p := s.Purged(c, now);
    RetainedIs(s.order, p.entries.Keys);
    AgreesCount(s.order, s.entries.Keys);
    AgreesCount(p.order, p.entries.Keys);
    SubsetIsSmaller(p.entries.Keys, s.entries.Keys);
    if p != s {
      forall k | k in p.entries ensures Behind(p.order, k) <= Behind(s.order, k) {
        BehindRetained(s.order, p.entries.Keys, k);
      }
    }
  }

  lemma EnqueueIs(c: Config, s: Cache, k: Key)
    requires c.Valid() && Sound(c, s)
    ensures var q := s.Enqueue(c, k);
            && Agrees(q.order, q.entries.Keys + {k})
            && |q.order| <= c.capacity
            && q.entries.Keys <= s.entries.Keys
            && (forall x :: x in q.entries ==> q.entries[x] == s.entries[x])
  {
    AgreesCount(s.order, s.entries.Keys);
    if k !in s.entries && |s.entries| >= c.capacity {
      TailAgrees(s.order, s.entries.Keys);
      AppendAgrees(s.order[1..], s.entries.Keys - {s.order[0]}, k);
    } else if k !in s.entries {
      AppendAgrees(s.order, s.entries.Keys, k);
    }
  }

  lemma TailAgrees(order: seq<Key>, keys: set<Key>)
    requires Agrees(order, keys) && order != []
    ensures Agrees(order[1..], keys - {order[0]})
  {
    assert order == [order[0]] + order[1..];
  }

  lemma AppendAgrees(order: seq<Key>, keys: set<Key>, k: Key)
    requires Agrees(order, keys) && k !in keys
    ensures Agrees(order + [k], keys + {k})
  {
  }

  lemma StoreKeepsSound(c: Config, s: Cache, k: Key, claims: Claims, now: nat)
    requires c.Valid() && Sound(c, s)
    ensures Sound(c, s.Store(c, k, claims, now))
  {
    PurgedIs(c, s, now);
    EnqueueIs(c, s.Purged(c, now), k);
  }

  // In every reachable state the queue lists exactly the cached keys, once each, within capacity.
  lemma {:induction false} QueueMatchesMap(c: Config, ws: seq<Write>)
    requires c.Valid()
    ensures Distinct(After(c, ws).order)
    ensures forall k :: k in After(c, ws).order <==> k in After(c, ws).entries
    ensures |After(c, ws).entries| == |After(c, ws).order| <= c.capacity
  {
    if ws == [] {
    } else {
      var w := ws[|ws| - 1];
      QueueMatchesMap(c, ws[..|ws| - 1]);
      StoreKeepsSound(c, After(c, ws[..|ws| - 1]), w.key, w.claims, w.at);
    }
    AgreesCount(After(c, ws).order, After(c, ws).entries.Keys);
  }

  // Every cached value is the filtered last write of its key.
  lemma {:induction false} EntriesAreLastWrites(c: Config, ws: seq<Write>, k: Key)
    requires c.Valid() && k in After(c, ws).entries
    ensures LastWrite(ws, k).Some?
    ensures var w := LastWrite(ws, k).value;
            After(c, ws).entries[k] == Entry(FilterClaims(w.claims, c.whitelist), w.at)
  {
    if c.ttl == 0 {
      NothingCachedWithoutTtl(c, ws);
    } else if ws[|ws| - 1].key != k {
      var front, w := ws[..|ws| - 1], ws[|ws| - 1];
      var s := After(c, front);
      QueueMatchesMap(c, front);
      PurgedIs(c, s, w.at);
      EnqueueIs(c, s.Purged(c, w.at), w.key);
      EntriesAreLastWrites(c, front, k);
    }
  }

  lemma {:induction false} NothingCachedWithoutTtl(c: Config, ws: seq<Write>)
    requires c.ttl == 0
    ensures After(c, ws) == Cache(map[], [])
  {
    if ws == [] {
    } else {
      NothingCachedWithoutTtl(c, ws[..|ws| - 1]);
    }
  }

  // A hit is exactly the filtered claims of the most recent write of that key, younger than the
  // time to live; and a key still queued whose last write is that young is a hit.
  lemma HitsAreSound(c: Config, ws: seq<Write>, k: Key, now: nat)
    requires c.Valid()
    ensures var hit := After(c, ws).Lookup(c, k, now);
            hit.Some? <==>
              && k in After(c, ws).order
              && LastWrite(ws, k).Some? && Elapsed(LastWrite(ws, k).value.at, now) < c.ttl
    ensures var hit := After(c, ws).Lookup(c, k, now);
            hit.Some? ==> hit.value == FilterClaims(LastWrite(ws, k).value.claims, c.whitelist)
  {
    QueueMatchesMap(c, ws);
    if k in After(c, ws).entries {
      EntriesAreLastWrites(c, ws, k);
    }
  }

  // No cached value, and so no hit, ever holds a field outside the whitelist; the structured
  // claims are untouched.
  lemma CachedFieldsAreWhitelisted(c: Config, ws: seq<Write>, k: Key)
    requires c.Valid() && k in After(c, ws).entries && "*" !in c.whitelist
    ensures var cached, written := After(c, ws).entries[k].claims, LastWrite(ws, k);
            && written.Some?
            && (forall f :: f in cached.extra <==> f in c.whitelist && f in written.value.claims.extra)
            && (forall f :: f in cached.extra ==> cached.extra[f] == written.value.claims.extra[f])
            && cached.(extra := map[]) == written.value.claims.(extra := map[])
  {
    EntriesAreLastWrites(c, ws, k);
  }

  // With "*" the cached claims are the written ones, every extra field included.
  lemma StarKeepsEveryField(c: Config, ws: seq<Write>, k: Key)
    requires c.Valid() && k in After(c, ws).entries && "*" in c.whitelist
    ensures LastWrite(ws, k).Some? && After(c, ws).entries[k].claims == LastWrite(ws, k).value.claims
  {
    EntriesAreLastWrites(c, ws, k);
  }

  /**
   A write at nine tenths of the capacity or more leaves only entries younger than the time to live;
   below that it removes nothing.
   */
  lemma PurgesExactlyWhenNearlyFull(c: Config, s: Cache, k: Key, claims: Claims, now: nat)
    requires c.Valid() && c.ttl > 0
    ensures var es := s.Store(c, k, claims, now).entries;
            if |s.entries| >= 1 && 9 * c.capacity < 10 * (|s.entries| + 1) then
              forall x :: x in es ==> es[x].cachedAt >= now || now - es[x].cachedAt < c.ttl
            else
              && es.Keys == s.entries.Keys + {k}
              && forall x :: x in s.entries && x != k ==> es[x] == s.entries[x]
  {
  }

  // ---------------------------------------------------------------- retention

  lemma {:induction false} QueuedBehindAreNew(c: Config, ws: seq<Write>, k: Key)
    requires c.Valid() && k in After(c, ws).entries
    ensures Behind(After(c, ws).order, k) <= NewSince(c, ws, k)
  {
    var front, w := ws[..|ws| - 1], ws[|ws| - 1];
    var s := After(c, front);
    var p := s.Purged(c, w.at);
    QueueMatchesMap(c, front);
    PurgedIs(c, s, w.at);
    if c.ttl == 0 {
      QueuedBehindAreNew(c, front, k);
    } else if w.key in p.entries {
      if k in s.entries {
        QueuedBehindAreNew(c, front, k);
      }
    } else {
      InsertBehind(c, p, w.key, k);
      if w.key != k {
        EnqueueIs(c, p, w.key);
        QueuedBehindAreNew(c, front, k);
      }
    }
  }

  // A newly queued key goes behind every other; evicting the front changes nothing behind the rest.
  lemma InsertBehind(c: Config, p: Cache, added: Key, k: Key)
    requires c.Valid() && Sound(c, p) && added !in p.entries
    requires k == added || k in p.Enqueue(c, added).entries
    ensures Behind(p.Enqueue(c, added).order, k) <= if k == added then {} else Behind(p.order, k) + {added}
  {
    AgreesCount(p.order, p.entries.Keys);
    var rest := if |p.entries| >= c.capacity then p.order[1..] else p.order;
    assert added !in rest;
    if k == added {
      BehindLast(rest, k);
    } else {
      assert p.order != [] && (rest != p.order ==> p.order[0] != k);
      BehindAppend(rest, added, k);
    }
  }

  // The victim of an eviction is the front of a full queue.
  lemma VictimIsFront(c: Config, p: Cache, added: Key, k: Key)
    requires c.Valid() && Sound(c, p)
    requires k in p.entries && k !in p.Enqueue(c, added).entries
    ensures added !in p.entries && added !in Behind(p.order, k)
    ensures |Behind(p.order, k)| + 1 == |p.order| == c.capacity
  {
    AgreesCount(p.order, p.entries.Keys);
    var rest := p.order[1..];
    assert p.order == [k] + rest;
    assert Behind(p.order, k) == set x | x in rest;
    DistinctCount(rest);
    assert forall x :: x in rest ==> x in p.order;
  }

  lemma EvictionCost(c: Config, ws: seq<Write>, w: Write, k: Key)
    requires c.Valid() && c.ttl > 0 && w.key != k
    requires k in After(c, ws).entries && Unexpired(After(c, ws).entries[k], c.ttl, w.at)
    requires k !in After(c, ws + [w]).entries
    ensures |NewSince(c, ws + [w], k)| >= c.capacity
  {
    assert (ws + [w])[..|ws|] == ws;
    var s := After(c, ws);
    var p := s.Purged(c, w.at);
    QueueMatchesMap(c, ws);
    PurgedIs(c, s, w.at);
    VictimIsFront(c, p, w.key, k);
    QueuedBehindAreNew(c, ws, k);
    Enough(Behind(p.order, k), w.key, NewSince(c, ws + [w], k));
  }

  lemma Enough(a: set<Key>, x: Key, b: set<Key>)
    requires x !in a && a <= b && x in b
    ensures |b| >= |a| + 1
  {
    SubsetIsSmaller(a + {x}, b);
  }

  // A token written less than the time to live ago is missing only if `capacity` other keys
  // were newly inserted since it entered the queue.
  lemma {:induction false} RetentionGuarantee(c: Config, ws: seq<Write>, k: Key, now: nat)
    requires c.Valid() && Timely(ws, now)
    requires LastWrite(ws, k).Some? && Elapsed(LastWrite(ws, k).value.at, now) < c.ttl
    ensures After(c, ws).Lookup(c, k, now).Some? || |NewSince(c, ws, k)| >= c.capacity
    ensures k !in NewSince(c, ws, k)
  {
    NewSinceExcludes(c, ws, k);
    HitsAreSound(c, ws, k, now);
    QueueMatchesMap(c, ws);
    if k !in After(c, ws).entries {
      var front, w := ws[..|ws| - 1], ws[|ws| - 1];
      assert ws == front + [w];
      RetentionGuarantee(c, front, k, now);
      SubsetIsSmaller(NewSince(c, front, k), NewSince(c, ws, k));
      if k in After(c, front).entries {
        EntriesAreLastWrites(c, front, k);
        EvictionCost(c, front, w, k);
      } else {
        QueueMatchesMap(c, front);
      }
    }
  }

  lemma {:induction false} NewSinceExcludes(c: Config, ws: seq<Write>, k: Key)
    ensures k !in NewSince(c, ws, k)
  {
    if ws == [] {
    } else {
      NewSinceExcludes(c, ws[..|ws| - 1], k);
    }
  }

  // A purge drops an entry exactly when it has expired, and alters none.
  lemma PurgeIsExact(c: Config, ws: seq<Write>, k: Key, now: nat)
    requires c.Valid()
    ensures var s := After(c, ws);
            var p := s.Purge(c.ttl, now);
            && (k in p.entries <==> k in s.entries && Unexpired(s.entries[k], c.ttl, now))
            && (k in p.entries ==> p.entries[k] == s.entries[k])
            && (k in p.order <==> k in p.entries)
            && p.Lookup(c, k, now) == s.Lookup(c, k, now)
  {
    QueueMatchesMap(c, ws);
    var s := After(c, ws);
    RetainedIs(s.order, s.Purge(c.ttl, now).entries.Keys);
  }
}
