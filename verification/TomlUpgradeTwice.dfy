/**
 Upgrading twice.  Over lines an upgrade is idempotent.  Over text, the second upgrade always
 reports no change, and returns the same text exactly when no line ends with a carriage return:
 reading a file back takes one away from every line that has one.
 */
module TomlUpgradeTwice {
  import opened Wrappers
  import opened TomlText
  import opened TomlUpgrade

  // ---------------------------------------------------------------- one line

  lemma {:induction false} FirstCharIsThere(s: string)
    requires FirstChar(s).Some?
    ensures exists i :: 0 <= i < |s| && !IsSpace(s[i])
  {
    if !IsSpace(s[0]) {
    } else {
      FirstCharIsThere(s[1..]);
      var i :| 0 <= i < |s[1..]| && !IsSpace(s[1..][i]);
      assert !IsSpace(s[i + 1]);
    }
  }

  lemma KeyStartsLine(line: string, eq: nat)
    requires eq <= |line| && FirstChar(line[..eq]) == Some('e')
    ensures FirstChar(line) == Some('e') && exists i :: 0 <= i < eq && !IsSpace(line[i])
  {
    FirstCharIsThere(line[..eq]);
    var i :| 0 <= i < |line[..eq]| && !IsSpace(line[..eq][i]);
    assert line[..eq][..eq] == line[..eq] && line[i] == line[..eq][i];
    FirstCharOfPrefix(line[..eq], line, eq);
  }

  lemma EcatKeyStarts(key: string)
    requires IsEcatKey(key)
    ensures StartsWith(key, 'e')
  {
    if key != "ecat" {
      assert key[0] == "ecat-"[0];
    }
  }

  lemma NoHeader(line: string)
    requires FirstChar(line) == Some('e')
    ensures !IsHeader(line)
  {
    TrimFirst(line, '[');
  }

  // What an upgrade does to a line: the text between two quotes, which was another version, becomes
  // the new version; everything around it stays.
  lemma RewrittenSpan(line: string, v: string) returns (from: nat, to: nat)
    requires RewriteEcatLine(line, v).Some?
    ensures 0 < from <= to < |line| && line[from - 1] == '"' && line[to] == '"' && line[from..to] != v
    ensures RewriteEcatLine(line, v).value == Splice(line, from, to, v)
    ensures FirstChar(line) == Some('e') && exists i :: 0 <= i < from && !IsSpace(line[i])
  {
    var eq := Find(line, '=').value;
    VisibleKey(line, eq);
    if StartsWith(Trim(line[eq + 1..]), '"') {
      from, to := PlainSpan(line, v);
    } else {
      MarkerEnds();
      from, to := InlineSpan(line, eq, MARKER, v);
      InlineQuotes(line, eq, from, to, MARKER);
    }
  }

  lemma VisibleKey(line: string, eq: nat)
    requires eq <= |line| && IsEcatKey(Trim(line[..eq]))
    ensures FirstChar(line) == Some('e') && exists i :: 0 <= i < eq && !IsSpace(line[i])
  {
    EcatKeyStarts(Trim(line[..eq]));
    TrimFirst(line[..eq], 'e');
    KeyStartsLine(line, eq);
  }

  lemma PlainSpan(line: string, v: string) returns (from: nat, to: nat)
    requires RewritePlain(line, v).Some?
    ensures 0 < from <= to < |line| && line[from - 1] == '"' && line[to] == '"' && line[from..to] != v
    ensures RewritePlain(line, v).value == Splice(line, from, to, v)
    ensures !IsSpace(line[from - 1])
  {
    from, to := Find(line, '"').value + 1, RFind(line, '"').value;
  }

  lemma MarkerEnds()
    ensures MARKER != [] && MARKER[|MARKER| - 1] == '"'
  {
  }

  lemma InlineQuotes(line: string, eq: nat, from: nat, to: nat, marker: string)
    requires eq < from <= to < |line| && marker != []
    requires QuotedAfter(line[eq + 1..], marker) == Some(Span(from - eq - 1, to - from))
    ensures line[from - 1] == marker[|marker| - 1] && line[to] == '"'
  {
    var rest := line[eq + 1..];
    FindFromIsFirst(rest, marker, 0);
    var rel := FindFrom(rest, marker, 0).value;
    assert rest[rel + |marker| - 1] == rest[rel..rel + |marker|][|marker| - 1];
    assert rest[rel + |marker|..][to - from] == line[to];
  }

  lemma RewrittenIsNoHeader(line: string, v: string)
    requires RewriteEcatLine(line, v).Some?
    ensures !IsHeader(RewriteEcatLine(line, v).value)
  {
    var from, to := RewrittenSpan(line, v);
    var newText := Splice(line, from, to, v);
    assert line[..from] == newText[..from];
    FirstCharOfPrefix(line, newText, from);
    NoHeader(newText);
  }

  lemma RewrittenEnds(line: string, v: string)
    requires OneLine(line) && OneLine(v) && RewriteEcatLine(line, v).Some?
    ensures OneLine(RewriteEcatLine(line, v).value)
    ensures EndsWith(RewriteEcatLine(line, v).value, '\r') == EndsWith(line, '\r')
  {
    var from, to := RewrittenSpan(line, v);
    SpliceEnds(line, from, to, v);
  }

  lemma SpliceEnds(s: string, from: nat, to: nat, v: string)
    requires OneLine(s) && OneLine(v) && from <= to < |s|
    ensures OneLine(Splice(s, from, to, v))
    ensures EndsWith(Splice(s, from, to, v), '\r') == EndsWith(s, '\r')
  {
  }

  // ---------------------------------------------------------------- all lines

  lemma NewLineIsFinal(inDeps: bool, line: string, v: string)
    requires ProperVersion(v)
    ensures var newText := NewLine(inDeps, line, v);
            && NewLine(inDeps, newText, v) == newText && IsHeader(newText) == IsHeader(line)
            && (IsHeader(line) ==> newText == line)
  {
    if !IsHeader(line) && inDeps && RewriteEcatLine(line, v).Some? {
      RewrittenLineIsFinal(line, v);
      RewrittenIsNoHeader(line, v);
    }
  }

  lemma {:induction false} SameTables(a: seq<string>, b: seq<string>, i: nat)
    requires i <= |a| == |b|
    requires forall j :: 0 <= j < i ==> IsHeader(a[j]) == IsHeader(b[j])
    requires forall j :: 0 <= j < i && IsHeader(a[j]) ==> Trim(a[j]) == Trim(b[j])
    ensures InTable(a, i) == InTable(b, i)
  {
    if i == 0 {
    } else {
      SameTables(a, b, i - 1);
    }
  }

  lemma UpgradedHeaders(lines: seq<string>, v: string, i: nat)
    requires ProperVersion(v) && i < |lines|
    ensures var newText := Upgraded(lines, v)[i];
            && IsHeader(newText) == IsHeader(lines[i]) && (IsHeader(newText) ==> newText == lines[i])
            && NewLine(InTable(lines, i), newText, v) == newText
  {
    UpgradedAt(lines, |lines|, v, i);
    NewLineIsFinal(InTable(lines, i), lines[i], v);
  }

  lemma UpgradeIsIdempotent(lines: seq<string>, v: string)
    requires ProperVersion(v)
    ensures Upgraded(Upgraded(lines, v), v) == Upgraded(lines, v)
  {
    var out := Upgraded(lines, v);
    forall i | 0 <= i < |lines|
      ensures IsHeader(out[i]) == IsHeader(lines[i]) && (IsHeader(out[i]) ==> out[i] == lines[i])
      ensures NewLine(InTable(lines, i), out[i], v) == out[i]
    {
      UpgradedHeaders(lines, v, i);
    }
    forall i | 0 <= i < |lines| ensures Upgraded(out, v)[i] == out[i] {
      SameTables(out, lines, i);
      UpgradedAt(out, |out|, v, i);
    }
  }

  // ---------------------------------------------------------------- the text

  function UpgradeText(content: string, v: string): string {
    Unlines(Upgraded(Lines(content), v))
  }

  function UpgradeCount(content: string, v: string): nat {
    Differences(Lines(content), Upgraded(Lines(content), v), |Lines(content)|)
  }

  lemma FindBeforeSnoc(s: string, c: char, d: char)
    requires Find(s, c).Some?
    ensures Find(s + [d], c) == Find(s, c)
  {
    FindIsFirst(s, c);
    FindAt(s + [d], c, Find(s, c).value);
  }

  lemma RFindBeforeSnoc(s: string, c: char, d: char)
    requires RFind(s, c).Some? && c != d
    ensures RFind(s + [d], c) == RFind(s, c)
  {
    RFindIsLast(s, c);
    RFindAt(s + [d], c, RFind(s, c).value);
  }

  lemma QuotedBeforeSnoc(s: string, marker: string, d: char)
    requires QuotedAfter(s, marker).Some?
    ensures QuotedAfter(s + [d], marker) == QuotedAfter(s, marker)
  {
    var rel := FindFrom(s, marker, 0).value;
    var n := rel + |marker|;
    assert (s + [d])[..n] == s[..n] && (s + [d])[n..] == s[n..] + [d];
    SamePatternPlace(s, s + [d], marker, rel);
    FindBeforeSnoc(s[n..], '"', d);
  }

  lemma PlainBeforeReturn(y: string, v: string)
    requires RewritePlain(y, v).Some?
    ensures RewritePlain(y + ['\r'], v).Some?
  {
    FindBeforeSnoc(y, '"', '\r');
    RFindBeforeSnoc(y, '"', '\r');
    var start, end := Find(y, '"').value, RFind(y, '"').value;
    assert (y + ['\r'])[start + 1..end] == y[start + 1..end];
  }

  lemma InlineBeforeReturn(y: string, eq: nat, marker: string, v: string)
    requires eq < |y| && RewriteInline(y, eq, marker, v).Some?
    ensures RewriteInline(y + ['\r'], eq, marker, v).Some?
  {
    var z := y + ['\r'];
    assert z[eq + 1..] == y[eq + 1..] + ['\r'];
    QuotedBeforeSnoc(y[eq + 1..], marker, '\r');
    var from, to := InlineSpan(y, eq, marker, v);
    assert z[from..to] == y[from..to];
  }

  lemma RewritableBeforeReturn(y: string, v: string)
    requires RewriteEcatLine(y, v).Some?
    ensures RewriteEcatLine(y + ['\r'], v).Some?
  {
    var z := y + ['\r'];
    var eq := Find(y, '=').value;
    FindBeforeSnoc(y, '=', '\r');
    assert z[..eq] == y[..eq] && z[eq + 1..] == y[eq + 1..] + ['\r'];
    TrimIgnoresTrailing(y[eq + 1..], '\r');
    if StartsWith(Trim(y[eq + 1..]), '"') {
      PlainBeforeReturn(y, v);
    } else {
      InlineBeforeReturn(y, eq, MARKER, v);
    }
  }

  lemma StrippedLineIsFinal(inDeps: bool, x: string, v: string)
    requires NewLine(inDeps, x, v) == x
    ensures NewLine(inDeps, StripReturn(x), v) == StripReturn(x)
    ensures Trim(StripReturn(x)) == Trim(x)
  {
    var y := StripReturn(x);
    if EndsWith(x, '\r') {
      assert x == y + ['\r'];
      TrimIgnoresTrailing(y, '\r');
      if RewriteEcatLine(y, v).Some? {
        RewritableBeforeReturn(y, v);
        RewriteChanges(x, v);
      }
    }
  }

  lemma StrippedIsFinal(lines: seq<string>, v: string)
    requires Upgraded(lines, v) == lines
    ensures Upgraded(Stripped(lines), v) == Stripped(lines)
  {
    var out := Stripped(lines);
    StrippedIs(lines);
    forall i | 0 <= i < |lines|
      ensures NewLine(InTable(lines, i), out[i], v) == out[i] && Trim(out[i]) == Trim(lines[i])
    {
      UpgradedAt(lines, |lines|, v, i);
      StrippedLineIsFinal(InTable(lines, i), lines[i], v);
    }
    forall i | 0 <= i < |lines| ensures Upgraded(out, v)[i] == out[i] {
      SameTables(out, lines, i);
      UpgradedAt(out, |out|, v, i);
    }
  }

  lemma UpgradedEnds(lines: seq<string>, v: string, i: nat)
    requires OneLine(v) && i < |lines| && OneLine(lines[i])
    ensures OneLine(Upgraded(lines, v)[i])
    ensures EndsWith(Upgraded(lines, v)[i], '\r') == EndsWith(lines[i], '\r')
  {
    UpgradedAt(lines, |lines|, v, i);
    if RewriteEcatLine(lines[i], v).Some? {
      RewrittenEnds(lines[i], v);
    }
  }

  lemma {:induction false} NoDifferences(a: seq<string>, n: nat)
    requires n <= |a|
    ensures Differences(a, a, n) == 0
  {
    if n == 0 {
    } else {
      NoDifferences(a, n - 1);
    }
  }

  lemma EmptyFile(v: string)
    ensures UpgradeText("", v) == "\n" && Lines("\n") == [""] && UpgradeText("\n", v) == "\n"
    ensures UpgradeCount("\n", v) == 0
  {
    LinesOfFirst("", "");
    assert "" + "\n" + "" == "\n";
    assert Lines("\n") == [""];
    assert Find("", '=') == None;
    UpgradedAt([""], 1, v, 0);
    assert Upgraded([""], v) == [""];
  }

  predicate NoReturns(lines: seq<string>) {
    forall i :: 0 <= i < |lines| ==> !EndsWith(lines[i], '\r')
  }

  lemma SecondUpgrade(content: string, v: string)
    requires ProperVersion(v)
    ensures UpgradeCount(UpgradeText(content, v), v) == 0
    ensures UpgradeText(UpgradeText(content, v), v) == UpgradeText(content, v)
            <==> NoReturns(Lines(content))
  {
    var lines := Lines(content);
    if lines == [] {
      EmptyFile(v);
    } else {
      LinesAreOneLine(content);
      var out := Upgraded(lines, v);
      forall i | 0 <= i < |lines|
        ensures OneLine(out[i]) && EndsWith(out[i], '\r') == EndsWith(lines[i], '\r')
      {
        UpgradedEnds(lines, v, i);
      }
      LinesOfUnlines(out);
      UpgradeIsIdempotent(lines, v);
      StrippedIsFinal(out, v);
      var again := Stripped(out);
      NoDifferences(again, |again|);
      UnlinesLength(out);
      if NoReturns(lines) {
        StrippedIs(out);
        assert again == out;
      }
    }
  }
}
