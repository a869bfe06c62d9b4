/** The option datatype shared by every component model. */
module Wrappers {

  datatype Option<+T> = None | Some(value: T)
}

/** Reading of a monotone clock, as `Instant::elapsed` does it: never negative. */
module Clock {

  function Elapsed(since: nat, now: nat): nat {
    if since <= now then now - since else 0
  }
}

/** Facts about finite sets and about texts that several components count or print with. */
module Collections {

  lemma SubsetIsSmaller<T>(a: set<T>, b: set<T>)
    requires a <= b
    ensures |a| <= |b|
  {
    assert b == a + (b - a);
  }

  lemma Regroup(a: string, b: string, c: string)
    ensures a + b + c == a + (b + c)
  {
  }

  // The pieces of a text, one after the other.
  function Concat(pieces: seq<string>): string {
    if pieces == [] then [] else pieces[0] + Concat(pieces[1..])
  }

  lemma ConcatStep(w: string, rest: seq<string>)
    ensures Concat([w] + rest) == w + Concat(rest)
  {
    assert ([w] + rest)[1..] == rest;
  }
}
