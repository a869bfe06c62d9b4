/**
 What an upgrade does to a requirement as people write them: a quoted version after the key, or a
 version among other settings in an inline table.
 */
module TomlRequirement {
  import opened Wrappers
  import opened TomlText
  import opened TomlUpgrade
  import opened TomlUpgradeTwice

  // A version, its closing quote and the rest of the line.
  function Quoted(version: string, tail: string): string {
    version + (['"'] + tail)
  }

  // A line that gives `key` a value; `opening` is what stands between the equals sign and the version.
  function ValueLine(key: string, opening: string, version: string, tail: string): string {
    key + ['='] + (opening + Quoted(version, tail))
  }

  // A key an upgrade cares for, as it may stand in front of the equals sign.
  predicate EcatKeyText(key: string) {
    IsEcatKey(Trim(key)) && '=' !in key && '"' !in key
  }

  // Only spaces, then a quote.
  predicate OpensPlain(opening: string) {
    EndsWith(opening, '"') && forall i :: 0 <= i < |opening| - 1 ==> IsSpace(opening[i])
  }

  // A brace, then any settings up to the first version.
  predicate OpensInline(opening: string) {
    && FirstChar(opening) == Some('{') && |opening| >= |MARKER|
    && FindFrom(opening, MARKER, 0) == Some((|opening| - |MARKER|) as nat)
  }

  lemma Halves(a: string, b: string)
    ensures (a + b)[..|a|] == a && (a + b)[|a|..] == b
  {
  }

  lemma VersionAt(a: string, version: string, b: string)
    ensures (a + (version + b))[|a|..|a| + |version|] == version
  {
  }

  lemma VersionReplaced(a: string, version: string, b: string, v: string)
    ensures Splice(a + (version + b), |a|, |a| + |version|, v) == a + (v + b)
  {
  }

  lemma RegroupLine(key: string, opening: string, quoted: string)
    ensures key + ['='] + (opening + quoted) == (key + ['='] + opening) + quoted
  {
  }

  // The version in a line, and the line with another version in its place.
  lemma ValueParts(key: string, opening: string, version: string, tail: string, v: string)
    ensures var line := ValueLine(key, opening, version, tail);
            var from := |key| + 1 + |opening|;
            && from + |version| <= |line| && line[from..from + |version|] == version
            && Splice(line, from, from + |version|, v) == ValueLine(key, opening, v, tail)
  {
    var a := key + ['='] + opening;
    RegroupLine(key, opening, Quoted(version, tail));
    RegroupLine(key, opening, Quoted(v, tail));
    VersionAt(a, version, ['"'] + tail);
    VersionReplaced(a, version, ['"'] + tail, v);
  }

  // The equals sign, and what stands on its two sides.
  lemma KeySplits(key: string, rest: string)
    requires '=' !in key
    ensures var line := key + ['='] + rest;
            Find(line, '=') == Some(|key|) && line[..|key|] == key && line[|key| + 1..] == rest
  {
    FindAt(key + ['='] + rest, '=', |key|);
  }

  // ---------------------------------------------------------------- a plain requirement

  lemma {:induction false} FirstCharAfterSpaces(s: string, n: nat)
    requires n < |s| && !IsSpace(s[n]) && forall i :: 0 <= i < n ==> IsSpace(s[i])
    ensures FirstChar(s) == Some(s[n])
  {
    if n == 0 {
    } else {
      FirstCharAfterSpaces(s[1..], n - 1);
    }
  }

  lemma PlainQuotes(key: string, opening: string, version: string, tail: string)
    requires '"' !in key && OpensPlain(opening) && '"' !in tail
    ensures var line := ValueLine(key, opening, version, tail);
            var from := |key| + 1 + |opening|;
            Find(line, '"') == Some((from - 1) as nat) && RFind(line, '"') == Some(from + |version|)
  {
    var line := ValueLine(key, opening, version, tail);
    var from := |key| + 1 + |opening|;
    FindAt(line, '"', from - 1);
    RFindAt(line, '"', from + |version|);
  }

  lemma PlainCase(line: string, key: string, from: nat, to: nat, v: string)
    requires Find(line, '=') == Some(|key|) && line[..|key|] == key && IsEcatKey(Trim(key))
    requires StartsWith(Trim(line[|key| + 1..]), '"')
    requires 0 < from <= to < |line| && Find(line, '"') == Some((from - 1) as nat) && RFind(line, '"') == Some(to)
    ensures RewriteEcatLine(line, v) == if line[from..to] == v then None else Some(Splice(line, from, to, v))
  {
  }

  lemma QuoteFreeTailKept(key: string, opening: string, oldText: string, tail: string, v: string)
    requires EcatKeyText(key) && OpensPlain(opening) && '"' !in tail
    ensures RewriteEcatLine(ValueLine(key, opening, oldText, tail), v)
            == if oldText == v then None else Some(ValueLine(key, opening, v, tail))
  {
    var line := ValueLine(key, opening, oldText, tail);
    var rest := opening + Quoted(oldText, tail);
    KeySplits(key, rest);
    FirstCharAfterSpaces(rest, |opening| - 1);
    TrimFirst(rest, '"');
    PlainQuotes(key, opening, oldText, tail);
    ValueParts(key, opening, oldText, tail, v);
    var from := |key| + 1 + |opening|;
    PlainCase(line, key, from, from + |oldText|, v);
  }

  // What follows the last quote of a text.
  function AfterQuotes(tail: string): string {
    match RFind(tail, '"')
    case None => tail
    case Some(i) => tail[i + 1..]
  }

  // A quote after the version makes everything up to the last one part of the value.
  lemma TailIsValue(key: string, opening: string, version: string, tail: string) returns (value: string)
    requires RFind(tail, '"').Some?
    ensures ValueLine(key, opening, version, tail) == ValueLine(key, opening, value, AfterQuotes(tail))
    ensures '"' in value && '"' !in AfterQuotes(tail) && |AfterQuotes(tail)| < |tail|
  {
    var i := RFind(tail, '"').value;
    RFindIsLast(tail, '"');
    value := version + (['"'] + tail[..i]);
    assert value[|version|] == '"';
    assert tail == tail[..i] + (['"'] + tail[i + 1..]);
    RegroupQuoted(version, tail[..i], tail[i + 1..]);
  }

  lemma RegroupQuoted(version: string, x: string, y: string)
    ensures version + (['"'] + (x + (['"'] + y))) == version + (['"'] + x) + (['"'] + y)
  {
  }

  lemma DifferentTails(key: string, opening: string, version: string, tail: string, other: string)
    requires |tail| != |other|
    ensures ValueLine(key, opening, version, tail) != ValueLine(key, opening, version, other)
  {
    assert |ValueLine(key, opening, version, tail)| == |key| + 1 + |opening| + |version| + 1 + |tail|;
    assert |ValueLine(key, opening, version, other)| == |key| + 1 + |opening| + |version| + 1 + |other|;
  }

  // What one expects: `key = "old" tail` becomes `key = "new" tail`, unless old is new.
  function Expected(key: string, opening: string, oldText: string, tail: string, v: string): Option<string> {
    if oldText == v then None else Some(ValueLine(key, opening, v, tail))
  }

  // That is what happens exactly when no quote follows the version.  Otherwise the line is always
  // rewritten, even if the version was right, and loses everything up to the last quote, such as most
  // of a comment.
  lemma PlainRequirementUpgraded(key: string, opening: string, oldText: string, tail: string, v: string)
    requires EcatKeyText(key) && OpensPlain(opening)
    ensures var result := RewriteEcatLine(ValueLine(key, opening, oldText, tail), v);
            && ('"' !in tail ==> result == Expected(key, opening, oldText, tail, v))
            && ('"' !in v ==>
                  && (result == Expected(key, opening, oldText, tail, v) <==> '"' !in tail)
                  && ('"' in tail ==> result == Some(ValueLine(key, opening, v, AfterQuotes(tail)))))
  {
    RFindIsLast(tail, '"');
    if RFind(tail, '"').None? {
      QuoteFreeTailKept(key, opening, oldText, tail, v);
    } else {
      var value := TailIsValue(key, opening, oldText, tail);
      QuoteFreeTailKept(key, opening, value, AfterQuotes(tail), v);
      DifferentTails(key, opening, v, tail, AfterQuotes(tail));
    }
  }

  // ---------------------------------------------------------------- an inline table

  lemma QuoteEnds(version: string, tail: string)
    requires '"' !in version
    ensures Find(Quoted(version, tail), '"') == Some(|version|)
  {
    FindAt(Quoted(version, tail), '"', |version|);
  }

  lemma FoundInPrefix(p: string, s: string, marker: string, rel: nat)
    requires p <= s && |p| == rel + |marker| && FindFrom(p, marker, 0) == Some(rel)
    ensures FindFrom(s, marker, 0) == Some(rel)
  {
    assert p[..|p|] == p == s[..|p|];
    SamePatternPlace(p, s, marker, rel);
  }

  lemma FoundAfter(s: string, rel: nat, marker: string, len: nat)
    requires rel + |marker| <= |s| && FindFrom(s, marker, 0) == Some(rel)
    requires Find(s[rel + |marker|..], '"') == Some(len)
    ensures QuotedAfter(s, marker) == Some(Span(rel + |marker|, len))
  {
  }

  lemma BraceFirst(opening: string, quoted: string)
    requires FirstChar(opening) == Some('{')
    ensures StartsWith(Trim(opening + quoted), '{')
  {
    FirstCharIsThere(opening);
    Halves(opening, quoted);
    assert opening[..|opening|] == opening;
    FirstCharOfPrefix(opening, opening + quoted, |opening|);
    TrimFirst(opening + quoted, '{');
  }

  lemma InlineValue(line: string, eq: nat, marker: string, at: nat, len: nat, v: string)
    requires eq < |line| && QuotedAfter(line[eq + 1..], marker) == Some(Span(at, len))
    ensures var from := eq + 1 + at;
            RewriteInline(line, eq, marker, v)
            == if line[from..from + len] == v then None else Some(Splice(line, from, from + len, v))
  {
  }

  lemma InlineCase(line: string, key: string, at: nat, len: nat, v: string)
    requires Find(line, '=') == Some(|key|) && line[..|key|] == key && IsEcatKey(Trim(key))
    requires StartsWith(Trim(line[|key| + 1..]), '{')
    requires QuotedAfter(line[|key| + 1..], MARKER) == Some(Span(at, len))
    ensures var from := |key| + 1 + at;
            RewriteEcatLine(line, v)
            == if line[from..from + len] == v then None else Some(Splice(line, from, from + len, v))
  {
    InlineValue(line, |key|, MARKER, at, len, v);
  }

  lemma OpeningShows(opening: string, marker: string, version: string, tail: string)
    requires FirstChar(opening) == Some('{') && '"' !in version && |marker| <= |opening|
    requires FindFrom(opening, marker, 0) == Some((|opening| - |marker|) as nat)
    ensures var rest := opening + Quoted(version, tail);
            StartsWith(Trim(rest), '{') && QuotedAfter(rest, marker) == Some(Span(|opening|, |version|))
  {
    var quoted := Quoted(version, tail);
    BraceFirst(opening, quoted);
    QuoteEnds(version, tail);
    Halves(opening, quoted);
    FoundInPrefix(opening, opening + quoted, marker, |opening| - |marker|);
    FoundAfter(opening + quoted, |opening| - |marker|, marker, |version|);
  }

  lemma InlineReplaced(line: string, key: string, rest: string, at: nat, oldText: string, v: string, newText: string)
    requires Find(line, '=') == Some(|key|) && line[..|key|] == key && IsEcatKey(Trim(key))
    requires line[|key| + 1..] == rest && StartsWith(Trim(rest), '{')
    requires QuotedAfter(rest, MARKER) == Some(Span(at, |oldText|))
    requires var from := |key| + 1 + at;
             line[from..from + |oldText|] == oldText && Splice(line, from, from + |oldText|, v) == newText
    ensures RewriteEcatLine(line, v) == if oldText == v then None else Some(newText)
  {
    InlineCase(line, key, at, |oldText|, v);
  }

  // `key = { settings, version = "old" tail` becomes the same with the new version, unless old is new.
  lemma InlineRequirementUpgraded(key: string, opening: string, oldText: string, tail: string, v: string)
    requires EcatKeyText(key) && OpensInline(opening) && '"' !in oldText
    ensures RewriteEcatLine(ValueLine(key, opening, oldText, tail), v)
            == if oldText == v then None else Some(ValueLine(key, opening, v, tail))
  {
    var rest := opening + Quoted(oldText, tail);
    var line, newText := ValueLine(key, opening, oldText, tail), ValueLine(key, opening, v, tail);
    var from := |key| + 1 + |opening|;
    assert Find(line, '=') == Some(|key|) && line[..|key|] == key && line[|key| + 1..] == rest by {
      KeySplits(key, rest);
    }
    assert line[from..from + |oldText|] == oldText && Splice(line, from, from + |oldText|, v) == newText by {
      ValueParts(key, opening, oldText, tail, v);
    }
    InlineRewrites(line, key, opening, oldText, tail, v, newText);
  }

  lemma InlineRewrites(line: string, key: string, opening: string, oldText: string, tail: string, v: string,
                       newText: string)
    requires IsEcatKey(Trim(key)) && OpensInline(opening) && '"' !in oldText
    requires Find(line, '=') == Some(|key|) && line[..|key|] == key
    requires line[|key| + 1..] == opening + Quoted(oldText, tail)
    requires var from := |key| + 1 + |opening|;
             line[from..from + |oldText|] == oldText && Splice(line, from, from + |oldText|, v) == newText
    ensures RewriteEcatLine(line, v) == if oldText == v then None else Some(newText)
  {
    OpeningShows(opening, MARKER, oldText, tail);
    InlineReplaced(line, key, opening + Quoted(oldText, tail), |opening|, oldText, v, newText);
  }
}
