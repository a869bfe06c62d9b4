/**
 `ecat upgrade`: rewriting the version requirements of ecat dependencies in a Cargo.toml, line by
 line.  A version is what the package manager calls one: no quotes, equals signs or line ends.
 */
module TomlUpgrade {
  import opened Wrappers
  import opened TomlText

  const TABLES: set<string> :=
    {"[dependencies]", "[workspace.dependencies]", "[dev-dependencies]", "[build-dependencies]"}

  const MARKER: string := "version = \""

  predicate IsEcatKey(key: string) {
    key == "ecat" || "ecat-" <= key
  }

  function Splice(s: string, from: nat, to: nat, v: string): string
    requires from <= to <= |s|
  {
    s[..from] + v + s[to..]
  }

  // A plain requirement: everything between the first and the last quote of the line.
  function RewritePlain(line: string, version: string): Option<string> {
    match (Find(line, '"'), RFind(line, '"'))
    case (Some(start), Some(end)) =>
      if end <= start || line[start + 1..end] == version then None
      else Some(Splice(line, start + 1, end, version))
    case _ => None
  }

  datatype Span = Span(from: nat, len: nat)

  // The text between the first marker and the next quote.
  function QuotedAfter(s: string, marker: string): (r: Option<Span>)
    ensures r.Some? ==> r.value.from + r.value.len < |s|
  {
    match FindFrom(s, marker, 0)
    case None => None
    case Some(rel) =>
      match Find(s[rel + |marker|..], '"')
      case None => None
      case Some(len) => Some(Span(rel + |marker|, len))
  }

  // An inline table: the quoted value after the first marker.
  function RewriteInline(line: string, eq: nat, marker: string, version: string): Option<string>
    requires eq < |line|
  {
    match QuotedAfter(line[eq + 1..], marker)
    case None => None
    case Some(value) =>
      var from := eq + 1 + value.from;
      if line[from..from + value.len] == version then None
      else Some(Splice(line, from, from + value.len, version))
  }

  function RewriteEcatLine(line: string, version: string): Option<string> {
    match Find(line, '=')
    case None => None
    case Some(eq) =>
      if !IsEcatKey(Trim(line[..eq])) then None
      else
        var t := Trim(line[eq + 1..]);
        if StartsWith(t, '"') then RewritePlain(line, version)
        else if StartsWith(t, '{') then RewriteInline(line, eq, MARKER, version)
        else None
  }

  // ---------------------------------------------------------------- the whole file

  // The table a line lies in: the nearest header above it decides.
  predicate InTable(lines: seq<string>, i: nat)
    requires i <= |lines|
  {
    if i == 0 then false
    else if IsHeader(lines[i - 1]) then Trim(lines[i - 1]) in TABLES
    else InTable(lines, i - 1)
  }

  function NewLine(inDeps: bool, line: string, version: string): string {
    if !IsHeader(line) && inDeps && RewriteEcatLine(line, version).Some? then
      RewriteEcatLine(line, version).value
    else line
  }

  // The first `n` lines after an upgrade.
  function UpgradedTo(lines: seq<string>, n: nat, version: string): (out: seq<string>)
    requires n <= |lines|
    ensures |out| == n
  {
    if n == 0 then []
    else UpgradedTo(lines, n - 1, version) + [NewLine(InTable(lines, n - 1), lines[n - 1], version)]
  }

  function Upgraded(lines: seq<string>, version: string): (out: seq<string>)
    ensures |out| == |lines|
  {
    UpgradedTo(lines, |lines|, version)
  }

  // How many of the first `n` places of two texts differ.
  function Differences(a: seq<string>, b: seq<string>, n: nat): nat
    requires n <= |a| && n <= |b|
  {
    if n == 0 then 0 else Differences(a, b, n - 1) + (if a[n - 1] != b[n - 1] then 1 else 0)
  }

  lemma {:induction false} DifferencesOfPrefix(a: seq<string>, b: seq<string>, c: seq<string>, n: nat)
    requires n <= |a| && n <= |b| && n <= |c|
    requires forall i :: 0 <= i < n ==> b[i] == c[i]
    ensures Differences(a, b, n) == Differences(a, c, n)
  {
    if n == 0 {
    } else {
      DifferencesOfPrefix(a, b, c, n - 1);
    }
  }

  lemma UpgradedStep(lines: seq<string>, i: nat, version: string, out: seq<string>, newText: string)
    requires i < |lines| && out == UpgradedTo(lines, i, version)
    requires newText == NewLine(InTable(lines, i), lines[i], version)
    ensures out + [newText] == UpgradedTo(lines, i + 1, version)
    ensures Differences(lines, out + [newText], i + 1)
            == Differences(lines, out, i) + (if lines[i] != newText then 1 else 0)
  {
    DifferencesOfPrefix(lines, out, out + [newText], i);
  }

  method UpgradeCargoToml(content: string, version: string) returns (text: string, changed: nat)
    ensures text == Unlines(Upgraded(Lines(content), version))
    ensures changed == Differences(Lines(content), Upgraded(Lines(content), version), |Lines(content)|)
  {
    var lines := Lines(content);
    var inDeps := false;
    changed := 0;
    var out: seq<string> := [];
    for i := 0 to |lines|
      invariant out == UpgradedTo(lines, i, version)
      invariant inDeps == InTable(lines, i)
      invariant changed == Differences(lines, out, i)
    {
      var line := lines[i];
      if IsHeader(line) {
        UpgradedStep(lines, i, version, out, line);
        inDeps := Trim(line) in TABLES;
        out := out + [line];
      } else {
        var rewritten := if inDeps then RewriteEcatLine(line, version) else None;
        RewriteChanges(line, version);
        UpgradedStep(lines, i, version, out, if rewritten.Some? then rewritten.value else line);
        match rewritten {
          case Some(newText) =>
            changed := changed + 1;
            out := out + [newText];
          case None => out := out + [line];
        }
      }
    }
    text := Unlines(out);
  }

  lemma {:induction false} UpgradedAt(lines: seq<string>, n: nat, version: string, i: nat)
    requires i < n <= |lines|
    ensures UpgradedTo(lines, n, version)[i] == NewLine(InTable(lines, i), lines[i], version)
  {
    if i >= n - 1 {
    } else {
      UpgradedAt(lines, n - 1, version, i);
    }
  }

  // Only ecat lines inside dependency tables are ever rewritten; all others, and the number of
  // lines, stay as they are.
  lemma UpgradeTouchesOnlyDependencies(lines: seq<string>, version: string, i: nat)
    requires i < |lines|
    ensures var out := Upgraded(lines, version);
            && (out[i] != lines[i] ==>
                  && InTable(lines, i) && !IsHeader(lines[i])
                  && RewriteEcatLine(lines[i], version) == Some(out[i]))
            && (InTable(lines, i) && !IsHeader(lines[i]) && RewriteEcatLine(lines[i], version).Some? ==>
                  out[i] != lines[i])
  {
    UpgradedAt(lines, |lines|, version, i);
    RewriteChanges(lines[i], version);
  }

  lemma SpliceChanges(s: string, from: nat, to: nat, v: string)
    requires from <= to <= |s| && s[from..to] != v
    ensures Splice(s, from, to, v) != s
  {
    var t := Splice(s, from, to, v);
    if |v| == to - from {
      assert t[from..to] == v;
    } else {
      assert |t| != |s|;
    }
  }

  lemma RewriteChanges(line: string, version: string)
    ensures RewriteEcatLine(line, version).Some? ==> RewriteEcatLine(line, version).value != line
  {
    if RewriteEcatLine(line, version).Some? {
      var eq := Find(line, '=').value;
      if StartsWith(Trim(line[eq + 1..]), '"') {
        SpliceChanges(line, Find(line, '"').value + 1, RFind(line, '"').value, version);
      } else {
        var from, to := InlineSpan(line, eq, MARKER, version);
        SpliceChanges(line, from, to, version);
      }
    }
  }

  lemma InlineSpan(line: string, eq: nat, marker: string, version: string) returns (from: nat, to: nat)
    requires eq < |line| && RewriteInline(line, eq, marker, version).Some?
    ensures eq < from <= to < |line| && line[from..to] != version
    ensures QuotedAfter(line[eq + 1..], marker) == Some(Span(from - eq - 1, to - from))
    ensures RewriteInline(line, eq, marker, version).value == Splice(line, from, to, version)
  {
    var value := QuotedAfter(line[eq + 1..], marker).value;
    from, to := eq + 1 + value.from, eq + 1 + value.from + value.len;
  }

  lemma InlineSettled(line: string, eq: nat, from: nat, marker: string, version: string)
    requires eq < from <= |line| && QuotedAfter(line[eq + 1..], marker) == Some(Span(from - eq - 1, |version|))
    requires from + |version| <= |line| && line[from..from + |version|] == version
    ensures RewriteInline(line, eq, marker, version) == None
  {
  }

  // ---------------------------------------------------------------- a rewritten line is final

  predicate ProperVersion(v: string) {
    '"' !in v && '=' !in v && OneLine(v)
  }

  lemma SpliceParts(s: string, from: nat, to: nat, v: string)
    requires from <= to <= |s|
    ensures var t := Splice(s, from, to, v);
            && |t| == |s| - (to - from) + |v|
            && t[..from] == s[..from] && t[from..from + |v|] == v && t[from + |v|..] == s[to..]
            && (forall i :: 0 <= i < from ==> t[i] == s[i])
            && (forall i :: from <= i < from + |v| ==> t[i] == v[i - from])
            && (forall i :: from + |v| <= i < |t| ==> t[i] == s[i - |v| - from + to])
  {
  }

  lemma RewrittenPlain(line: string, start: nat, end: nat, v: string)
    requires '"' !in v && Find(line, '"') == Some(start) && RFind(line, '"') == Some(end) && start < end
    ensures var newText := Splice(line, start + 1, end, v);
            && Find(newText, '"') == Some(start) && RFind(newText, '"') == Some(start + 1 + |v|)
            && RewritePlain(newText, v) == None
  {
    var newText := Splice(line, start + 1, end, v);
    SpliceParts(line, start + 1, end, v);
    var e := start + 1 + |v|;
    FindIsFirst(line, '"');
    RFindIsLast(line, '"');
    FindAt(newText, '"', start);
    RFindAt(newText, '"', e);
  }

  lemma NoQuoteAfterEquals(line: string, v: string)
    requires Find(line, '=').Some? ==> '"' !in line[Find(line, '=').value + 1..]
    ensures RewriteEcatLine(line, v) == None
  {
    if Find(line, '=').Some? {
      var rest := line[Find(line, '=').value + 1..];
      TrimIsPart(rest);
      NeverOccurs(rest, MARKER, 10);
    }
  }

  // A quote in the key: everything up to the last quote is replaced, and what is left has no value
  // that could be rewritten again.
  lemma QuotedKeyIsFinal(line: string, start: nat, end: nat, eq: nat, v: string)
    requires ProperVersion(v) && Find(line, '=') == Some(eq)
    requires Find(line, '"') == Some(start) && RFind(line, '"') == Some(end) && start < end && start < eq
    ensures RewriteEcatLine(Splice(line, start + 1, end, v), v) == None
  {
    var newText := Splice(line, start + 1, end, v);
    var e := start + 1 + |v|;
    RewrittenPlain(line, start, end, v);
    NoEqualsBefore(line, start, end, eq, v);
    RFindIsLast(newText, '"');
    NoQuoteAfterEquals(newText, v);
  }

  lemma NoEqualsBefore(line: string, start: nat, end: nat, eq: nat, v: string)
    requires start < end < |line| && start < eq && Find(line, '=') == Some(eq) && '=' !in v
    requires line[start] == '"' == line[end]
    ensures var r := Find(Splice(line, start + 1, end, v), '=');
            r.Some? ==> r.value > start + 1 + |v|
  {
    SpliceParts(line, start + 1, end, v);
    FindIsFirst(line, '=');
  }

  lemma PlainIsFinal(line: string, start: nat, end: nat, eq: nat, v: string)
    requires ProperVersion(v) && Find(line, '=') == Some(eq)
    requires Find(line, '"') == Some(start) && RFind(line, '"') == Some(end) && eq < start < end
    requires StartsWith(Trim(line[eq + 1..]), '"')
    ensures RewriteEcatLine(Splice(line, start + 1, end, v), v) == None
  {
    var newText := Splice(line, start + 1, end, v);
    SpliceParts(line, start + 1, end, v);
    RewrittenPlain(line, start, end, v);
    FindIsFirst(line, '=');
    FindAt(newText, '=', eq);
    SameStart(line, newText, eq, start, '"');
    StillPlain(newText, eq, v);
  }

  // What the value starts with does not depend on anything after its first character.
  lemma SameStart(line: string, newText: string, eq: nat, at: nat, c: char)
    requires eq < at < |line| && at < |newText| && line[..at + 1] == newText[..at + 1] && !IsSpace(line[at])
    ensures StartsWith(Trim(line[eq + 1..]), c) == StartsWith(Trim(newText[eq + 1..]), c)
  {
    var rest, rest' := line[eq + 1..], newText[eq + 1..];
    var n := at - eq;
    assert rest[..n] == line[..at + 1][eq + 1..] == newText[..at + 1][eq + 1..] == rest'[..n];
    assert rest[n - 1] == line[at];
    FirstCharOfPrefix(rest, rest', n);
    TrimFirst(rest, c);
    TrimFirst(rest', c);
  }

  lemma InlineIsFinal(line: string, eq: nat, marker: string, v: string)
    requires ProperVersion(v) && Find(line, '=') == Some(eq) && StartsWith(Trim(line[eq + 1..]), '{')
    requires marker != [] && marker[0] == 'v' && RewriteInline(line, eq, marker, v).Some?
    ensures var newText := RewriteInline(line, eq, marker, v).value;
            && Find(newText, '=') == Some(eq) && StartsWith(Trim(newText[eq + 1..]), '{')
            && RewriteInline(newText, eq, marker, v) == None
  {
    var from, to := InlineSpan(line, eq, marker, v);
    ValueStarts(line[eq + 1..], marker, from - eq - 1, to - from);
    InlineStart(line, eq, from - |marker|, from, to, v);
    SplicedLineSettled(line, eq, from, to, marker, v);
  }

  lemma SplicedLineSettled(line: string, eq: nat, from: nat, to: nat, marker: string, v: string)
    requires '"' !in v && eq < from <= to <= |line|
    requires QuotedAfter(line[eq + 1..], marker) == Some(Span(from - eq - 1, to - from))
    ensures eq < |Splice(line, from, to, v)|
    ensures RewriteInline(Splice(line, from, to, v), eq, marker, v) == None
  {
    var rest := line[eq + 1..];
    var at, len := from - eq - 1, to - from;
    var newText := Splice(line, from, to, v);
    SplicedValue(rest, marker, at, len, v);
    assert QuotedAfter(newText[eq + 1..], marker) == Some(Span(at, |v|)) by {
      SpliceTail(line, eq + 1, from, to, v);
    }
    assert |newText| >= from + |v| && newText[from..from + |v|] == v by {
      SpliceMiddle(line, from, to, v);
    }
    InlineSettled(newText, eq, from, marker, v);
  }

  lemma SpliceMiddle(s: string, from: nat, to: nat, v: string)
    requires from <= to <= |s|
    ensures |Splice(s, from, to, v)| >= from + |v| && Splice(s, from, to, v)[from..from + |v|] == v
  {
  }

  lemma SpliceTail(s: string, k: nat, from: nat, to: nat, v: string)
    requires k <= from <= to <= |s|
    ensures |Splice(s, from, to, v)| >= k
    ensures Splice(s, from, to, v)[k..] == Splice(s[k..], from - k, to - k, v)
  {
  }

  lemma ValueStarts(s: string, marker: string, at: nat, len: nat)
    requires QuotedAfter(s, marker) == Some(Span(at, len)) && marker != []
    ensures at >= |marker| && s[at - |marker|] == marker[0]
  {
    FindFromIsFirst(s, marker, 0);
    PatternStarts(s, marker, at - |marker|);
  }

  // Replacing the value leaves it where it was.
  lemma SplicedValue(s: string, marker: string, at: nat, len: nat, v: string)
    requires QuotedAfter(s, marker) == Some(Span(at, len)) && '"' !in v
    ensures QuotedAfter(Splice(s, at, at + len, v), marker) == Some(Span(at, |v|))
  {
    var t := Splice(s, at, at + len, v);
    SpliceParts(s, at, at + len, v);
    SamePatternPlace(s, t, marker, at - |marker|);
    var tail := t[at..];
    assert tail[..|v|] == v;
    FindAt(tail, '"', |v|);
  }

  lemma PatternStarts(s: string, p: string, i: nat)
    requires OccursAt(s, p, i) && p != []
    ensures s[i] == p[0]
  {
    assert s[i] == s[i..i + |p|][0];
  }

  lemma InlineStart(line: string, eq: nat, at: nat, from: nat, to: nat, v: string)
    requires eq < at < from <= to <= |line| && Find(line, '=') == Some(eq) && line[at] == 'v'
    requires StartsWith(Trim(line[eq + 1..]), '{')
    ensures var newText := Splice(line, from, to, v);
            Find(newText, '=') == Some(eq) && StartsWith(Trim(newText[eq + 1..]), '{')
  {
    var newText := Splice(line, from, to, v);
    SpliceParts(line, from, to, v);
    FindIsFirst(line, '=');
    FindAt(newText, '=', eq);
    assert line[..at + 1] == line[..from][..at + 1] == newText[..at + 1];
    SameStart(line, newText, eq, at, '{');
  }

  lemma StillInline(line: string, eq: nat, v: string)
    requires Find(line, '=') == Some(eq) && StartsWith(Trim(line[eq + 1..]), '{')
    requires RewriteInline(line, eq, MARKER, v) == None
    ensures RewriteEcatLine(line, v) == None
  {
  }

  lemma StillPlain(line: string, eq: nat, v: string)
    requires Find(line, '=') == Some(eq) && StartsWith(Trim(line[eq + 1..]), '"')
    requires RewritePlain(line, v) == None
    ensures RewriteEcatLine(line, v) == None
  {
  }

  lemma OccursInPrefix(s: string, t: string, p: string, n: nat, j: nat)
    requires n <= |s| && n <= |t| && s[..n] == t[..n] && j + |p| <= n
    ensures OccursAt(s, p, j) == OccursAt(t, p, j)
  {
    assert s[j..j + |p|] == s[..n][j..j + |p|];
    assert t[j..j + |p|] == t[..n][j..j + |p|];
  }

  // The first place of a pattern depends only on the text up to its end.
  lemma SamePatternPlace(s: string, t: string, p: string, i: nat)
    requires FindFrom(s, p, 0) == Some(i)
    requires i + |p| <= |t| && s[..i + |p|] == t[..i + |p|]
    ensures FindFrom(t, p, 0) == Some(i)
  {
    FindFromIsFirst(s, p, 0);
    OccursInPrefix(s, t, p, i + |p|, i);
    forall j: nat | j < i ensures !OccursAt(t, p, j) {
      OccursInPrefix(s, t, p, i + |p|, j);
    }
    FindPatternAt(t, p, 0, i);
  }

  // Rewriting a rewritten line changes nothing more.
  lemma RewrittenLineIsFinal(line: string, v: string)
    requires ProperVersion(v) && RewriteEcatLine(line, v).Some?
    ensures RewriteEcatLine(RewriteEcatLine(line, v).value, v) == None
  {
    var eq := Find(line, '=').value;
    if !StartsWith(Trim(line[eq + 1..]), '"') {
      InlineIsFinal(line, eq, MARKER, v);
      StillInline(RewriteEcatLine(line, v).value, eq, v);
    } else {
      var start, end := Find(line, '"').value, RFind(line, '"').value;
      if start < eq {
        QuotedKeyIsFinal(line, start, end, eq, v);
      } else {
        PlainIsFinal(line, start, end, eq, v);
      }
    }
  }
}
