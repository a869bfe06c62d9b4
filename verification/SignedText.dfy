/**
 The signed text, character by character: which bytes stand for themselves and how the others are
 written (sections 2.1 and 2.3 of RFC 3986), and in which order the pairs of a query stand.
 */
module SignedText {
  import opened Collections
  import opened Sorting
  import opened Signing = CanonicalQuery

  // ---------------------------------------------------------------- bytes

  // Letters, digits, '-', '_', '.' and '~', and '/' where slashes are to be kept.
  predicate StandsForItself(b: int, keepSlash: bool) {
    || 65 <= b <= 90 || 97 <= b <= 122 || 48 <= b <= 57
    || b == 45 || b == 95 || b == 46 || b == 126
    || (b == 47 && keepSlash)
  }

  // '0' to '9' and 'A' to 'F' are the digits of 0 to 15.
  predicate UpperHex(c: char, d: int) {
    ('0' <= c <= '9' && d == c as int - 48) || ('A' <= c <= 'F' && d == c as int - 55)
  }

  // How a byte is to be written.
  predicate Spells(w: string, b: int, keepSlash: bool) {
    if StandsForItself(b, keepSlash) then |w| == 1 && w[0] as int == b
    else |w| == 3 && w[0] == '%' && UpperHex(w[1], b / 16) && UpperHex(w[2], b % 16)
  }

  lemma ByteSpelled(b: Byte, keepSlash: bool)
    ensures Spells(EncodedByte(b, keepSlash), b, keepSlash)
  {
    HexSpelled(b / 16);
    HexSpelled(b % 16);
  }

  lemma HexSpelled(d: nat)
    requires d < 16
    ensures UpperHex(HexDigit(d), d)
  {
  }

  /** The encoded text is one piece for each byte, in order, and each piece spells its byte. */
  lemma {:induction false} EncodedCharacters(s: Bytes, keepSlash: bool) returns (pieces: seq<string>)
    ensures |pieces| == |s| && Concat(pieces) == Encoded(s, keepSlash)
    ensures forall i :: 0 <= i < |s| ==> Spells(pieces[i], s[i], keepSlash)
  {
    if s == [] {
      pieces := [];
    } else {
      var rest := EncodedCharacters(s[1..], keepSlash);
      ByteSpelled(s[0], keepSlash);
      ConcatStep(EncodedByte(s[0], keepSlash), rest);
      pieces := [EncodedByte(s[0], keepSlash)] + rest;
      forall i | 1 <= i < |s| ensures Spells(pieces[i], s[i], keepSlash) {
        assert s[i] == s[1..][i - 1] && pieces[i] == rest[i - 1];
      }
    }
  }

  // A path of characters that stand for themselves is sent and signed as it is.
  lemma {:induction false} KeptPathIsUnchanged(s: Bytes)
    requires forall i :: 0 <= i < |s| ==> StandsForItself(s[i], true)
    ensures |Encoded(s, true)| == |s|
    ensures forall i :: 0 <= i < |s| ==> Encoded(s, true)[i] as int == s[i]
  {
    if s == [] {
    } else {
      ByteSpelled(s[0], true);
      KeptPathIsUnchanged(s[1..]);
    }
  }

  // ---------------------------------------------------------------- the order of the pairs

  // A pair of a query; all but the last are followed by a separator.
  function PairText(p: (string, string), last: bool): string {
    p.0 + "=" + p.1 + if last then "" else "&"
  }

  lemma {:induction false} JoinedPieces(ps: seq<(string, string)>) returns (pieces: seq<string>)
    ensures |pieces| == |ps| && Concat(pieces) == Join(ps)
    ensures forall i :: 0 <= i < |ps| ==> pieces[i] == PairText(ps[i], i + 1 == |ps|)
  {
    if ps == [] {
      pieces := [];
    } else {
      var rest := JoinedPieces(ps[1..]);
      var w := PairText(ps[0], 1 == |ps|);
      ConcatStep(w, rest);
      assert Join(ps) == w + Join(ps[1..]);
      pieces := [w] + rest;
      forall i | 1 <= i < |ps| ensures pieces[i] == PairText(ps[i], i + 1 == |ps|) {
        assert ps[i] == ps[1..][i - 1] && pieces[i] == rest[i - 1];
      }
    }
  }

  /**
   The canonical query is the encoded pairs as "name=value" with "&" between them, each as often as
   it is asked for, ascending by name and then by value.
   */
  lemma CanonicalQueryPieces(query: Query) returns (ps: seq<(string, string)>, pieces: seq<string>)
    ensures |ps| == |query| == |pieces| && multiset(ps) == multiset(EncodedPairs(query))
    ensures Concat(pieces) == CanonicalQuery(query)
    ensures forall i :: 0 <= i < |ps| ==> pieces[i] == PairText(ps[i], i + 1 == |ps|)
    ensures forall i :: 0 <= i < |ps| - 1 ==>
              if ps[i].0 == ps[i + 1].0 then Ascends(ps[i].1, ps[i + 1].1) else Ascends(ps[i].0, ps[i + 1].0)
  {
    ps := Sort(PairLeq, EncodedPairs(query));
    SortedPairsArePlain(query);
    PairLeqIsTotalOrder();
    SortIs(PairLeq, EncodedPairs(query));
    pieces := JoinedPieces(ps);
    forall i: nat | i + 1 < |ps|
      ensures if ps[i].0 == ps[i + 1].0 then Ascends(ps[i].1, ps[i + 1].1) else Ascends(ps[i].0, ps[i + 1].0)
    {
      SortedPairs(PairLeq, ps, i);
      StringLeqIs(ps[i].0, ps[i + 1].0);
      StringLeqIs(ps[i].1, ps[i + 1].1);
    }
  }

  // ---------------------------------------------------------------- the canonical request

  // Three headers in the order of their names, and these names.
  lemma HeaderText(r: Request)
    ensures HeaderLines(Headers(r))
            == "host:" + r.host + "\n"
             + ("x-amz-content-sha256:" + r.payloadHash + "\n" + ("x-amz-date:" + r.amzDate + "\n"))
  {
    HeadersAreSorted(r);
    var h1, h2, h3 := "host:", "x-amz-content-sha256:", "x-amz-date:";
    assert h1 == "host" + ":" && h2 == "x-amz-content-sha256" + ":" && h3 == "x-amz-date" + ":";
    ThreeLines("host", r.host, "x-amz-content-sha256", r.payloadHash, "x-amz-date", r.amzDate, h1, h2, h3);
  }

  lemma NamesText(r: Request)
    ensures Names(Headers(r)) == "host" + (";" + ("x-amz-content-sha256" + (";" + "x-amz-date")))
  {
    HeadersAreSorted(r);
    ThreeNames(("host", r.host), ("x-amz-content-sha256", r.payloadHash), ("x-amz-date", r.amzDate));
  }

  // Verb, path, query, headers, an empty line, header names, hash.
  lemma CanonicalRequestText(r: Request)
    ensures CanonicalRequest(r)
            == r.verb + "\n" + Encoded(r.path, true) + "\n" + CanonicalQuery(r.query) + "\n"
             + ("host:" + r.host + "\n"
                + ("x-amz-content-sha256:" + r.payloadHash + "\n" + ("x-amz-date:" + r.amzDate + "\n")))
             + "\n" + ("host" + (";" + ("x-amz-content-sha256" + (";" + "x-amz-date")))) + "\n" + r.payloadHash
  {
    HeaderText(r);
    NamesText(r);
  }

  lemma ThreeLines(a: string, x: string, b: string, y: string, c: string, z: string, p: string, q: string, s: string)
    requires p == a + ":" && q == b + ":" && s == c + ":"
    ensures HeaderLines([(a, x), (b, y), (c, z)]) == p + x + "\n" + (q + y + "\n" + (s + z + "\n"))
  {
    var h1, h2, h3 := (a, x), (b, y), (c, z);
    assert [h1, h2, h3][1..] == [h2, h3] && [h2, h3][1..] == [h3] && [h3][1..] == [];
    assert HeaderLines([h3]) == s + z + "\n";
    assert HeaderLines([h2, h3]) == q + y + "\n" + HeaderLines([h3]);
  }

  lemma ThreeNames(a: (string, string), b: (string, string), c: (string, string))
    ensures Names([a, b, c]) == a.0 + (";" + (b.0 + (";" + c.0)))
  {
    assert [a, b, c][1..] == [b, c] && [b, c][1..] == [c];
    assert Names([c]) == c.0;
    assert Names([b, c]) == b.0 + (";" + Names([c]));
  }
}
