/**
 Request canonicalisation of the S3 client (`ecat-data-s3`): percent-encoding as in section 2.1 of
 RFC 3986, the canonical query and the canonical request of AWS Signature Version 4, and the URL
 that is sent.  Strings to encode are their UTF-8 bytes; encoded text is ASCII.
 */
module CanonicalQuery {
  import opened Wrappers
  import opened Collections
  import opened Sorting

  type Byte = b: int | 0 <= b < 256

  type Bytes = seq<Byte>

  // ---------------------------------------------------------------- percent-encoding

  // The unreserved characters of section 2.3 of RFC 3986.
  predicate Unreserved(b: Byte) {
    var c := b as char;
    'A' <= c <= 'Z' || 'a' <= c <= 'z' || '0' <= c <= '9' || c == '-' || c == '_' || c == '.' || c == '~'
  }

  function HexDigit(d: nat): char
    requires d < 16
  {
    "0123456789ABCDEF"[d]
  }

  function HexValue(c: char): Option<nat> {
    if '0' <= c <= '9' then Some((c - '0') as nat)
    else if 'A' <= c <= 'F' then Some((c - 'A') as nat + 10)
    else None
  }

  function EncodedByte(b: Byte, keepSlash: bool): string {
    if Unreserved(b) then [b as char]
    else if b as char == '/' && keepSlash then ['/']
    else ['%', HexDigit(b / 16), HexDigit(b % 16)]
  }

  function Encoded(s: Bytes, keepSlash: bool): string {
    if s == [] then [] else EncodedByte(s[0], keepSlash) + Encoded(s[1..], keepSlash)
  }

  method EncodeUriComponent(s: Bytes, keepSlash: bool) returns (out: string)
    ensures out == Encoded(s, keepSlash)
  {
    out := [];
    for i := 0 to |s|
      invariant out + Encoded(s[i..], keepSlash) == Encoded(s, keepSlash)
    {
      var b := s[i];
      assert s[i..][1..] == s[i + 1..];
      Regroup(out, EncodedByte(b, keepSlash), Encoded(s[i + 1..], keepSlash));
      if Unreserved(b) {
        out := out + [b as char];
      } else if b as char == '/' && keepSlash {
        out := out + ['/'];
      } else {
        out := out + ['%', HexDigit(b / 16), HexDigit(b % 16)];
      }
    }
  }

  // Percent-decoding: any triplet "%XY" is one byte, any other character stands for itself.
  function Decoded(t: string): Option<Bytes>
    decreases |t|
  {
    if t == [] then Some([])
    else if t[0] == '%' then
      if |t| < 3 || HexValue(t[1]).None? || HexValue(t[2]).None? then None
      else
        match Decoded(t[3..])
        case None => None
        case Some(s) => Some([HexValue(t[1]).value * 16 + HexValue(t[2]).value] + s)
    else if t[0] as int >= 256 then None
    else
      match Decoded(t[1..])
      case None => None
      case Some(s) => Some([t[0] as int] + s)
  }

  lemma HexRoundTrip(d: nat)
    requires d < 16
    ensures HexValue(HexDigit(d)) == Some(d) && HexDigit(d) != '%'
  {
  }

  lemma DecodeOne(b: Byte, keepSlash: bool, rest: string)
    requires Decoded(rest).Some?
    ensures Decoded(EncodedByte(b, keepSlash) + rest) == Some([b] + Decoded(rest).value)
  {
    var e := EncodedByte(b, keepSlash);
    if |e| == 1 {
      assert (e + rest)[1..] == rest;
    } else {
      HexRoundTrip(b / 16);
      HexRoundTrip(b % 16);
      assert (e + rest)[3..] == rest;
    }
  }

  // Decoding undoes encoding, whether slashes are kept or not.
  lemma {:induction false} DecodeEncoded(s: Bytes, keepSlash: bool)
    ensures Decoded(Encoded(s, keepSlash)) == Some(s)
  {
    if s == [] {
    } else {
      DecodeEncoded(s[1..], keepSlash);
      DecodeOne(s[0], keepSlash, Encoded(s[1..], keepSlash));
      assert s == [s[0]] + s[1..];
    }
  }

  lemma EncodedIsInjective(s: Bytes, t: Bytes, keepSlash: bool)
    requires Encoded(s, keepSlash) == Encoded(t, keepSlash)
    ensures s == t
  {
    DecodeEncoded(s, keepSlash);
    DecodeEncoded(t, keepSlash);
  }

  // No separator of a query, a URL or a canonical request occurs in encoded text.
  predicate Plain(c: char) {
    c != '=' && c != '&' && c != '?' && c != '\n'
  }

  lemma {:induction false} EncodedIsPlain(s: Bytes, keepSlash: bool)
    ensures forall c :: c in Encoded(s, keepSlash) ==> Plain(c)
  {
    if s == [] {
    } else {
      EncodedIsPlain(s[1..], keepSlash);
    }
  }

  // ---------------------------------------------------------------- canonical query

  type Query = seq<(Bytes, Bytes)>

  predicate PairLeq(p: (string, string), q: (string, string)) {
    if p.0 != q.0 then StringLeq(p.0, q.0) else StringLeq(p.1, q.1)
  }

  lemma PairLeqIsTotalOrder()
    ensures TotalOrder(PairLeq)
  {
    StringLeqIsTotalOrder();
  }

  function EncodedPair(p: (Bytes, Bytes)): (string, string) {
    (Encoded(p.0, false), Encoded(p.1, false))
  }

  function EncodedPairs(query: Query): seq<(string, string)> {
    if query == [] then [] else [EncodedPair(query[0])] + EncodedPairs(query[1..])
  }

  function Join(ps: seq<(string, string)>): string {
    if ps == [] then []
    else ps[0].0 + "=" + ps[0].1 + if |ps| == 1 then [] else "&" + Join(ps[1..])
  }

  function CanonicalQuery(query: Query): string {
    Join(Sort(PairLeq, EncodedPairs(query)))
  }

  // Cuts at the first occurrence of a separator.
  function Before(t: string, c: char): string {
    if t == [] || t[0] == c then [] else [t[0]] + Before(t[1..], c)
  }

  lemma {:induction false} BeforeIs(a: string, c: char, rest: string)
    requires c !in a
    ensures Before(a + [c] + rest, c) == a
    ensures Before(a, c) == a
  {
    if a == [] {
    } else {
      assert (a + [c] + rest)[1..] == a[1..] + [c] + rest;
      assert a == [a[0]] + a[1..];
      BeforeIs(a[1..], c, rest);
    }
  }

  // Two texts cut at the first separator have the same pieces when they are the same.
  lemma SameCut(a: string, b: string, c: char, x: string, y: string)
    requires c !in a && c !in b
    requires a + [c] + x == b + [c] + y
    ensures a == b && x == y
  {
    BeforeIs(a, c, x);
    BeforeIs(b, c, y);
    assert x == (a + [c] + x)[|a| + 1..];
    assert y == (b + [c] + y)[|b| + 1..];
  }

  lemma CutShows(a: string, b: string, c: char, y: string)
    requires a == b + [c] + y
    ensures c in a
  {
    assert a[|b|] == c;
  }

  predicate PlainPairs(ps: seq<(string, string)>) {
    forall p :: p in ps ==> (forall c :: c in p.0 ==> Plain(c)) && (forall c :: c in p.1 ==> Plain(c))
  }

  lemma JoinStep(ps: seq<(string, string)>)
    requires ps != []
    ensures |ps| == 1 ==> Join(ps) == ps[0].0 + ['='] + ps[0].1
    ensures |ps| > 1 ==> Join(ps) == ps[0].0 + ['='] + (ps[0].1 + ['&'] + Join(ps[1..]))
    ensures Join(ps) != []
  {
  }

  lemma {:induction false} JoinIsInjective(ps: seq<(string, string)>, qs: seq<(string, string)>)
    requires PlainPairs(ps) && PlainPairs(qs)
    requires Join(ps) == Join(qs)
    ensures ps == qs
    decreases |ps|
  {
    if ps == [] || qs == [] {
      if ps != [] { JoinStep(ps); }
      if qs != [] { JoinStep(qs); }
    } else {
      JoinStep(ps);
      JoinStep(qs);
      assert ps == [ps[0]] + ps[1..] && qs == [qs[0]] + qs[1..];
      var x := if |ps| == 1 then ps[0].1 else ps[0].1 + ['&'] + Join(ps[1..]);
      var y := if |qs| == 1 then qs[0].1 else qs[0].1 + ['&'] + Join(qs[1..]);
      SameCut(ps[0].0, qs[0].0, '=', x, y);
      if |ps| == 1 && |qs| > 1 {
        CutShows(ps[0].1, qs[0].1, '&', Join(qs[1..]));
      } else if |ps| > 1 && |qs| == 1 {
        CutShows(qs[0].1, ps[0].1, '&', Join(ps[1..]));
      } else if |ps| > 1 {
        SameCut(ps[0].1, qs[0].1, '&', Join(ps[1..]), Join(qs[1..]));
        JoinIsInjective(ps[1..], qs[1..]);
      }
    }
  }

  // Each pair is encoded as often as it occurs.
  lemma {:induction false} EncodedPairCounts(query: Query, p: (Bytes, Bytes))
    ensures multiset(EncodedPairs(query))[EncodedPair(p)] == multiset(query)[p]
  {
    if query == [] {
    } else {
      assert query == [query[0]] + query[1..];
      EncodedPairCounts(query[1..], p);
      if EncodedPair(query[0]) == EncodedPair(p) {
        EncodedIsInjective(query[0].0, p.0, false);
        EncodedIsInjective(query[0].1, p.1, false);
      }
    }
  }

  lemma {:induction false} EncodedPairsCome(query: Query, e: (string, string))
    requires e in EncodedPairs(query)
    ensures exists p :: p in query && e == EncodedPair(p)
  {
    assert query == [query[0]] + query[1..];
    if e != EncodedPair(query[0]) {
      EncodedPairsCome(query[1..], e);
    }
  }

  lemma EncodedPairsSameMultiset(a: Query, b: Query)
    ensures multiset(EncodedPairs(a)) == multiset(EncodedPairs(b)) <==> multiset(a) == multiset(b)
  {
    if multiset(EncodedPairs(a)) == multiset(EncodedPairs(b)) {
      forall p ensures multiset(a)[p] == multiset(b)[p] {
        EncodedPairCounts(a, p);
        EncodedPairCounts(b, p);
      }
    }
    if multiset(a) == multiset(b) {
      forall e ensures multiset(EncodedPairs(a))[e] == multiset(EncodedPairs(b))[e] {
        if e in EncodedPairs(a) {
          EncodedPairsCome(a, e);
        } else if e in EncodedPairs(b) {
          EncodedPairsCome(b, e);
        }
        forall p | e == EncodedPair(p) ensures multiset(EncodedPairs(a))[e] == multiset(EncodedPairs(b))[e] {
          EncodedPairCounts(a, p);
          EncodedPairCounts(b, p);
        }
      }
    }
  }

  lemma SortedPairsArePlain(query: Query)
    ensures PlainPairs(Sort(PairLeq, EncodedPairs(query)))
    ensures |Sort(PairLeq, EncodedPairs(query))| == |query|
  {
    PairLeqIsTotalOrder();
    SortIs(PairLeq, EncodedPairs(query));
    EncodedPairsLength(query);
    var sorted := Sort(PairLeq, EncodedPairs(query));
    assert |multiset(sorted)| == |query|;
    forall e | e in sorted
      ensures (forall c :: c in e.0 ==> Plain(c)) && (forall c :: c in e.1 ==> Plain(c))
    {
      assert e in multiset(EncodedPairs(query));
      EncodedPairsCome(query, e);
      var p :| p in query && e == EncodedPair(p);
      EncodedIsPlain(p.0, false);
      EncodedIsPlain(p.1, false);
    }
  }

  lemma {:induction false} EncodedPairsLength(query: Query)
    ensures |EncodedPairs(query)| == |query|
  {
    if query == [] {
    } else {
      EncodedPairsLength(query[1..]);
    }
  }

  // Two queries have the same canonical form exactly when they hold the same pairs equally often.
  lemma CanonicalQueryIsNormalForm(a: Query, b: Query)
    ensures CanonicalQuery(a) == CanonicalQuery(b) <==> multiset(a) == multiset(b)
  {
    PairLeqIsTotalOrder();
    SortIsNormalForm(PairLeq, EncodedPairs(a), EncodedPairs(b));
    EncodedPairsSameMultiset(a, b);
    SortedPairsArePlain(a);
    SortedPairsArePlain(b);
    if CanonicalQuery(a) == CanonicalQuery(b) {
      JoinIsInjective(Sort(PairLeq, EncodedPairs(a)), Sort(PairLeq, EncodedPairs(b)));
    }
  }

  lemma {:induction false} JoinKeeps(ps: seq<(string, string)>)
    requires PlainPairs(ps)
    ensures '\n' !in Join(ps) && '?' !in Join(ps)
    decreases |ps|
  {
    if ps == [] {
    } else {
      JoinStep(ps);
      assert ps == [ps[0]] + ps[1..];
      if |ps| > 1 {
        JoinKeeps(ps[1..]);
      }
    }
  }

  lemma CanonicalQueryText(query: Query)
    ensures '\n' !in CanonicalQuery(query) && '?' !in CanonicalQuery(query)
    ensures CanonicalQuery(query) == [] <==> query == []
  {
    SortedPairsArePlain(query);
    var sorted := Sort(PairLeq, EncodedPairs(query));
    JoinKeeps(sorted);
    if sorted != [] {
      JoinStep(sorted);
    }
  }

  // ---------------------------------------------------------------- canonical request

  datatype Request = Request(verb: string, host: string, path: Bytes, query: Query,
                             payloadHash: string, amzDate: string)

  predicate NameLeq(a: (string, string), b: (string, string)) {
    StringLeq(a.0, b.0)
  }

  function Headers(r: Request): seq<(string, string)> {
    Sort(NameLeq, [("host", r.host), ("x-amz-content-sha256", r.payloadHash), ("x-amz-date", r.amzDate)])
  }

  function HeaderLines(hs: seq<(string, string)>): string {
    if hs == [] then [] else hs[0].0 + ":" + hs[0].1 + "\n" + HeaderLines(hs[1..])
  }

  function Names(hs: seq<(string, string)>): string {
    if hs == [] then []
    else hs[0].0 + if |hs| == 1 then [] else ";" + Names(hs[1..])
  }

  function CanonicalRequest(r: Request): string {
    r.verb + "\n" + Encoded(r.path, true) + "\n" + CanonicalQuery(r.query) + "\n"
    + HeaderLines(Headers(r)) + "\n" + Names(Headers(r)) + "\n" + r.payloadHash
  }

  lemma SortPrepend<T(!new)>(leq: (T, T) -> bool, x: T, s: seq<T>)
    requires Sort(leq, s) == s && (s == [] || leq(x, s[0]))
    ensures Sort(leq, [x] + s) == [x] + s
  {
    assert ([x] + s)[1..] == s;
  }

  lemma NamesInOrder()
    ensures StringLeq("host", "x-amz-content-sha256") && StringLeq("x-amz-content-sha256", "x-amz-date")
  {
    StringLeqPrefix("x-amz-", "content-sha256", "date");
    assert "x-amz-" + "content-sha256" == "x-amz-content-sha256" && "x-amz-" + "date" == "x-amz-date";
  }

  // The fixed header list is already in order.
  lemma HeadersAreSorted(r: Request)
    ensures Headers(r) == [("host", r.host), ("x-amz-content-sha256", r.payloadHash), ("x-amz-date", r.amzDate)]
  {
    var a, b, c := ("host", r.host), ("x-amz-content-sha256", r.payloadHash), ("x-amz-date", r.amzDate);
    NamesInOrder();
    SortPrepend(NameLeq, c, []);
    assert [c] + [] == [c];
    SortPrepend(NameLeq, b, [c]);
    SortPrepend(NameLeq, a, [b] + [c]);
    assert [a] + ([b] + [c]) == [a, b, c];
  }

  lemma {:induction false} StringLeqPrefix(p: string, a: string, b: string)
    ensures StringLeq(p + a, p + b) == StringLeq(a, b)
  {
    if p == [] {
      assert p + a == a && p + b == b;
    } else {
      assert (p + a)[1..] == p[1..] + a && (p + b)[1..] == p[1..] + b;
      StringLeqPrefix(p[1..], a, b);
    }
  }

  // The lines of a canonical request after the query.
  function HeadTail(r: Request): string {
    ThreeHeaders(("host", r.host), ("x-amz-content-sha256", r.payloadHash), ("x-amz-date", r.amzDate), r.payloadHash)
  }

  function ThreeHeaders(a: (string, string), b: (string, string), c: (string, string), hash: string): string {
    a.0 + ":" + (a.1 + ['\n'] + (b.0 + ":" + (b.1 + ['\n'] + (c.0 + ":"
    + (c.1 + ['\n'] + ("\n" + (a.0 + (";" + (b.0 + (";" + c.0)))) + "\n" + hash))))))
  }

  lemma ThreeHeaderText(a: (string, string), b: (string, string), c: (string, string), hash: string)
    ensures HeaderLines([a, b, c]) + "\n" + Names([a, b, c]) + "\n" + hash == ThreeHeaders(a, b, c, hash)
  {
    assert [a, b, c][1..] == [b, c] && [b, c][1..] == [c] && [c][1..] == [];
    var names := a.0 + (";" + (b.0 + (";" + c.0)));
    assert Names([c]) == c.0;
    assert Names([b, c]) == b.0 + (";" + Names([c]));
    assert Names([a, b, c]) == names;
    assert HeaderLines([c]) == c.0 + ":" + c.1 + "\n";
    assert HeaderLines([b, c]) == b.0 + ":" + b.1 + "\n" + HeaderLines([c]);
    assert HeaderLines([a, b, c]) == a.0 + ":" + a.1 + "\n" + HeaderLines([b, c]);
    RegroupHeaders(a.0, a.1, b.0, b.1, c.0, c.1, "\n" + names + "\n" + hash);
    assert HeaderLines([a, b, c]) + "\n" + names + "\n" + hash
           == HeaderLines([a, b, c]) + ("\n" + names + "\n" + hash);
  }

  lemma RegroupHeaders(a: string, x: string, b: string, y: string, c: string, z: string, rest: string)
    ensures a + ":" + x + "\n" + (b + ":" + y + "\n" + (c + ":" + z + "\n")) + rest
            == a + ":" + (x + ['\n'] + (b + ":" + (y + ['\n'] + (c + ":" + (z + ['\n'] + rest)))))
  {
    var r3 := c + ":" + z + "\n" + rest;
    assert r3 == c + ":" + (z + ['\n'] + rest);
    var r2 := b + ":" + y + "\n" + r3;
    assert r2 == b + ":" + (y + ['\n'] + r3);
    assert a + ":" + x + "\n" + r2 == a + ":" + (x + ['\n'] + r2);
    assert b + ":" + y + "\n" + (c + ":" + z + "\n") + rest == r2;
  }

  lemma RequestLines(r: Request)
    ensures CanonicalRequest(r)
            == r.verb + ['\n'] + (Encoded(r.path, true) + ['\n'] + (CanonicalQuery(r.query) + ['\n'] + HeadTail(r)))
  {
    HeadersAreSorted(r);
    ThreeHeaderText(("host", r.host), ("x-amz-content-sha256", r.payloadHash), ("x-amz-date", r.amzDate),
                    r.payloadHash);
    RegroupLines(r.verb, Encoded(r.path, true), CanonicalQuery(r.query), HeaderLines(Headers(r)), Names(Headers(r)),
                 r.payloadHash);
  }

  lemma RegroupLines(a: string, b: string, c: string, lines: string, names: string, hash: string)
    ensures a + "\n" + b + "\n" + c + "\n" + lines + "\n" + names + "\n" + hash
            == a + ['\n'] + (b + ['\n'] + (c + ['\n'] + (lines + "\n" + names + "\n" + hash)))
  {
    var rest := lines + "\n" + names + "\n" + hash;
    var front := a + "\n" + b + "\n" + c + "\n";
    assert front + lines + "\n" + names + "\n" + hash == front + rest;
    assert front + rest == a + ['\n'] + (b + ['\n'] + (c + ['\n'] + rest));
  }

  // Header values of one line each: a method, host, date and hash never contain a line end.
  predicate OneLine(r: Request) {
    '\n' !in r.verb && '\n' !in r.host && '\n' !in r.payloadHash && '\n' !in r.amzDate
  }

  // What is signed determines the request up to the order of its query pairs, and nothing more.
  lemma CanonicalRequestIsFaithful(r: Request, q: Request)
    requires OneLine(r) && OneLine(q)
    ensures CanonicalRequest(r) == CanonicalRequest(q) <==>
              r.(query := []) == q.(query := []) && multiset(r.query) == multiset(q.query)
  {
    RequestLines(r);
    RequestLines(q);
    CanonicalQueryIsNormalForm(r.query, q.query);
    if CanonicalRequest(r) == CanonicalRequest(q) {
      SameRequest(r, q);
    }
  }

  lemma DropPrefix(p: string, a: string, b: string)
    requires p + a == p + b
    ensures a == b
  {
    assert a == (p + a)[|p|..] && b == (p + b)[|p|..];
  }

  lemma SameRequest(r: Request, q: Request)
    requires OneLine(r) && OneLine(q)
    requires r.verb + ['\n'] + (Encoded(r.path, true) + ['\n'] + (CanonicalQuery(r.query) + ['\n'] + HeadTail(r)))
             == q.verb + ['\n'] + (Encoded(q.path, true) + ['\n'] + (CanonicalQuery(q.query) + ['\n'] + HeadTail(q)))
    ensures r.verb == q.verb && r.path == q.path && CanonicalQuery(r.query) == CanonicalQuery(q.query)
    ensures r.host == q.host && r.payloadHash == q.payloadHash && r.amzDate == q.amzDate
  {
    var r1, q1 := CanonicalQuery(r.query) + ['\n'] + HeadTail(r), CanonicalQuery(q.query) + ['\n'] + HeadTail(q);
    SameCut(r.verb, q.verb, '\n', Encoded(r.path, true) + ['\n'] + r1, Encoded(q.path, true) + ['\n'] + q1);
    EncodedIsPlain(r.path, true);
    EncodedIsPlain(q.path, true);
    SameCut(Encoded(r.path, true), Encoded(q.path, true), '\n', r1, q1);
    EncodedIsInjective(r.path, q.path, true);
    CanonicalQueryText(r.query);
    CanonicalQueryText(q.query);
    SameCut(CanonicalQuery(r.query), CanonicalQuery(q.query), '\n', HeadTail(r), HeadTail(q));
    SameHeaders(r, q);
  }

  lemma SameHeaders(r: Request, q: Request)
    requires OneLine(r) && OneLine(q) && HeadTail(r) == HeadTail(q)
    ensures r.host == q.host && r.payloadHash == q.payloadHash && r.amzDate == q.amzDate
  {
    SameThree("host", "x-amz-content-sha256", "x-amz-date", r.host, r.payloadHash, r.amzDate,
              q.host, q.payloadHash, q.amzDate);
  }

  lemma SameThree(a: string, b: string, c: string, x: string, y: string, z: string, u: string, v: string, w: string)
    requires '\n' !in x && '\n' !in y && '\n' !in z && '\n' !in u && '\n' !in v && '\n' !in w
    requires ThreeHeaders((a, x), (b, y), (c, z), y) == ThreeHeaders((a, u), (b, v), (c, w), v)
    ensures x == u && y == v && z == w
  {
    var names := "\n" + (a + (";" + (b + (";" + c)))) + "\n";
    var r3, q3 := z + ['\n'] + (names + y), w + ['\n'] + (names + v);
    var r2, q2 := y + ['\n'] + (c + ":" + r3), v + ['\n'] + (c + ":" + q3);
    var r1, q1 := x + ['\n'] + (b + ":" + r2), u + ['\n'] + (b + ":" + q2);
    DropPrefix(a + ":", r1, q1);
    SameCut(x, u, '\n', b + ":" + r2, b + ":" + q2);
    DropPrefix(b + ":", r2, q2);
    SameCut(y, v, '\n', c + ":" + r3, c + ":" + q3);
    DropPrefix(c + ":", r3, q3);
    SameCut(z, w, '\n', names + y, names + v);
  }

  // ---------------------------------------------------------------- the URL that is sent

  function SignedUrl(endpoint: string, r: Request): string {
    var q := CanonicalQuery(r.query);
    if q == [] then endpoint + Encoded(r.path, true)
    else endpoint + Encoded(r.path, true) + "?" + q
  }

  // Path and query of a URL after its endpoint.
  function SplitUrl(endpoint: string, url: string): (string, string)
    requires endpoint <= url
  {
    var tail := url[|endpoint|..];
    var path := Before(tail, '?');
    (path, if |path| < |tail| && path <= tail then tail[|path| + 1..] else [])
  }

  lemma SplitJoined(endpoint: string, p: string, q: string)
    requires '?' !in p
    ensures SplitUrl(endpoint, endpoint + p) == (p, [])
    ensures SplitUrl(endpoint, endpoint + p + "?" + q) == (p, q)
  {
    BeforeIs(p, '?', q);
    assert (endpoint + p)[|endpoint|..] == p;
    var tail := p + ['?'] + q;
    assert endpoint + p + "?" + q == endpoint + tail;
    assert (endpoint + tail)[|endpoint|..] == tail;
    assert tail[|p| + 1..] == q;
  }

  // The URL carries the very query that was signed, and a path that decodes once to the original.
  lemma UrlCarriesSignedQuery(endpoint: string, r: Request)
    ensures endpoint <= SignedUrl(endpoint, r)
    ensures var (path, query) := SplitUrl(endpoint, SignedUrl(endpoint, r));
            path == Encoded(r.path, true) && Decoded(path) == Some(r.path) && query == CanonicalQuery(r.query)
  {
    EncodedIsPlain(r.path, true);
    DecodeEncoded(r.path, true);
    SplitJoined(endpoint, Encoded(r.path, true), CanonicalQuery(r.query));
  }

  // Two sent URLs to one endpoint agree exactly when path and query pairs do.
  lemma UrlIsFaithful(endpoint: string, r: Request, q: Request)
    ensures SignedUrl(endpoint, r) == SignedUrl(endpoint, q) <==>
              r.path == q.path && multiset(r.query) == multiset(q.query)
  {
    UrlCarriesSignedQuery(endpoint, r);
    UrlCarriesSignedQuery(endpoint, q);
    CanonicalQueryIsNormalForm(r.query, q.query);
  }
}
