/**
 Which lines an upgrade rewrites, spelled out: the keys of ecat, the tables that hold dependencies,
 and the two shapes of a requirement.
 */
module TomlDependencies {
  import opened Wrappers
  import opened TomlText
  import opened TomlUpgrade
  import opened TomlUpgradeTwice
  import opened TomlRequirement

  // "ecat", or a name that begins with "ecat-"; spaces around do not matter.
  predicate NamesEcat(key: string) {
    var t := Trim(key);
    |t| >= 4 && t[0] == 'e' && t[1] == 'c' && t[2] == 'a' && t[3] == 't' && (|t| == 4 || t[4] == '-')
  }

  lemma NamesEcatIs(key: string)
    ensures NamesEcat(key) <==> IsEcatKey(Trim(key))
  {
    var t := Trim(key);
    KeyIs(t, "ecat", "ecat-");
  }

  lemma KeyIs(t: string, short: string, long: string)
    requires short == ['e', 'c', 'a', 't'] && long == ['e', 'c', 'a', 't', '-']
    ensures (|t| >= 4 && t[0] == 'e' && t[1] == 'c' && t[2] == 'a' && t[3] == 't' && (|t| == 4 || t[4] == '-'))
            <==> t == short || long <= t
  {
    if |t| >= 5 && t[0] == 'e' && t[1] == 'c' && t[2] == 'a' && t[3] == 't' && t[4] == '-' {
      assert t[..5] == long;
    }
  }

  // ---------------------------------------------------------------- single lines

  // `key = "old" tail`, where no quote follows the version.
  lemma PlainIsRewritten(key: string, opening: string, oldText: string, tail: string, v: string)
    requires NamesEcat(key) && '=' !in key && '"' !in key && '"' !in tail
    requires |opening| >= 1 && opening[|opening| - 1] == '"'
    requires forall i :: 0 <= i < |opening| - 1 ==> IsSpace(opening[i])
    ensures RewriteEcatLine(key + ['='] + (opening + (oldText + (['"'] + tail))), v)
            == if oldText == v then None else Some(key + ['='] + (opening + (v + (['"'] + tail))))
  {
    NamesEcatIs(key);
    QuoteFreeTailKept(key, opening, oldText, tail, v);
  }

  // An inline table whose first `version = "` stands at the end of `opening`.
  lemma InlineIsRewritten(key: string, opening: string, n: nat, oldText: string, tail: string, v: string)
    requires NamesEcat(key) && '=' !in key && '"' !in key && '"' !in oldText
    requires FirstChar(opening) == Some('{') && n <= |opening| && opening[n..] == "version = \""
    requires forall j: nat :: j < n ==> !OccursAt(opening, opening[n..], j)
    ensures RewriteEcatLine(key + ['='] + (opening + (oldText + (['"'] + tail))), v)
            == if oldText == v then None else Some(key + ['='] + (opening + (v + (['"'] + tail))))
  {
    NamesEcatIs(key);
    MarkerEndsOpening(opening, n, MARKER);
    InlineRequirementUpgraded(key, opening, oldText, tail, v);
  }

  lemma MarkerEndsOpening(opening: string, n: nat, marker: string)
    requires n <= |opening| && opening[n..] == marker
    requires forall j: nat :: j < n ==> !OccursAt(opening, marker, j)
    ensures |opening| >= |marker| && n == |opening| - |marker|
    ensures FindFrom(opening, marker, 0) == Some(n)
  {
    FindPatternAt(opening, marker, 0, n);
  }

  // Whatever is rewritten has a key of ecat before its first equals sign.
  lemma OnlyEcatIsRewritten(line: string, v: string) returns (eq: nat)
    requires RewriteEcatLine(line, v).Some?
    ensures eq < |line| && line[eq] == '=' && NamesEcat(line[..eq])
    ensures forall j :: 0 <= j < eq ==> line[j] != '='
  {
    eq := Find(line, '=').value;
    FindIsFirst(line, '=');
    NamesEcatIs(line[..eq]);
  }

  // A line with another key is left alone, whatever its value is.
  lemma OtherKeysStay(key: string, rest: string, v: string)
    requires '=' !in key && !NamesEcat(key)
    ensures RewriteEcatLine(key + ['='] + rest, v) == None
  {
    KeySplits(key, rest);
    NamesEcatIs(key);
  }

  // ---------------------------------------------------------------- tables

  // A line between square brackets.
  predicate Header(line: string) {
    var t := Trim(line);
    t != [] && t[0] == '[' && t[|t| - 1] == ']'
  }

  predicate OpensDependencies(line: string) {
    var t := Trim(line);
    || t == "[dependencies]" || t == "[workspace.dependencies]"
    || t == "[dev-dependencies]" || t == "[build-dependencies]"
  }

  // The nearest header above line `i` opens a table of dependencies.
  ghost predicate BelowDependencies(lines: seq<string>, i: nat)
    requires i <= |lines|
  {
    Below(lines, i, OpensDependencies)
  }

  ghost predicate Below(lines: seq<string>, i: nat, opens: string -> bool)
    requires i <= |lines|
  {
    exists h :: 0 <= h < i && Header(lines[h]) && opens(lines[h]) && forall j :: h < j < i ==> !Header(lines[j])
  }

  lemma HeaderIs(line: string)
    ensures Header(line) <==> IsHeader(line)
    ensures OpensDependencies(line) <==> Trim(line) in TABLES
  {
  }

  lemma BelowHeader(lines: seq<string>, i: nat, opens: string -> bool)
    requires 0 < i <= |lines| && Header(lines[i - 1])
    ensures Below(lines, i, opens) <==> opens(lines[i - 1])
  {
    if Below(lines, i, opens) {
      var h :| 0 <= h < i && Header(lines[h]) && opens(lines[h]) && forall j :: h < j < i ==> !Header(lines[j]);
      assert h == i - 1;
    }
  }

  lemma BelowOther(lines: seq<string>, i: nat, opens: string -> bool)
    requires 0 < i <= |lines| && !Header(lines[i - 1])
    ensures Below(lines, i, opens) <==> Below(lines, i - 1, opens)
  {
    if Below(lines, i - 1, opens) {
      var h :| 0 <= h < i - 1 && Header(lines[h]) && opens(lines[h]) && forall j :: h < j < i - 1 ==> !Header(lines[j]);
      assert forall j :: h < j < i ==> !Header(lines[j]);
    }
  }

  lemma {:induction false} InTableIs(lines: seq<string>, i: nat)
    requires i <= |lines|
    ensures InTable(lines, i) <==> BelowDependencies(lines, i)
  {
    if i == 0 {
    } else {
      HeaderIs(lines[i - 1]);
      if Header(lines[i - 1]) {
        BelowHeader(lines, i, OpensDependencies);
      } else {
        BelowOther(lines, i, OpensDependencies);
      }
      InTableIs(lines, i - 1);
    }
  }

  // ---------------------------------------------------------------- the whole file

  lemma EcatLineIsNoHeader(key: string, rest: string)
    requires NamesEcat(key)
    ensures !IsHeader(key + ['='] + rest)
  {
    var line := key + ['='] + rest;
    assert line[..|key|] == key;
    NamesEcatIs(key);
    VisibleKey(line, |key|);
    NoHeader(line);
  }

  /**
   Line `i` of a file after an upgrade: a plain requirement of ecat below one of the four headers has
   the new version.
   */
  lemma DependencyIsUpgraded(lines: seq<string>, i: nat, key: string, opening: string, oldText: string, tail: string,
                             v: string)
    requires i < |lines| && BelowDependencies(lines, i)
    requires lines[i] == key + ['='] + (opening + (oldText + (['"'] + tail)))
    requires NamesEcat(key) && '=' !in key && '"' !in key && '"' !in tail
    requires |opening| >= 1 && opening[|opening| - 1] == '"'
    requires forall i :: 0 <= i < |opening| - 1 ==> IsSpace(opening[i])
    ensures Upgraded(lines, v)[i] == key + ['='] + (opening + (v + (['"'] + tail)))
  {
    PlainIsRewritten(key, opening, oldText, tail, v);
    InTableIs(lines, i);
    EcatLineIsNoHeader(key, opening + (oldText + (['"'] + tail)));
    UpgradedAt(lines, |lines|, v, i);
  }

  lemma InlineDependencyIsUpgraded(lines: seq<string>, i: nat, key: string, opening: string, n: nat, oldText: string,
                                   tail: string, v: string)
    requires i < |lines| && BelowDependencies(lines, i)
    requires lines[i] == key + ['='] + (opening + (oldText + (['"'] + tail)))
    requires NamesEcat(key) && '=' !in key && '"' !in key && '"' !in oldText
    requires FirstChar(opening) == Some('{') && n <= |opening| && opening[n..] == "version = \""
    requires forall j: nat :: j < n ==> !OccursAt(opening, opening[n..], j)
    ensures Upgraded(lines, v)[i] == key + ['='] + (opening + (v + (['"'] + tail)))
  {
    InlineIsRewritten(key, opening, n, oldText, tail, v);
    InTableIs(lines, i);
    EcatLineIsNoHeader(key, opening + (oldText + (['"'] + tail)));
    UpgradedAt(lines, |lines|, v, i);
  }

  // Nothing else is touched: a line that changes stands below one of the four headers, is no header
  // and has a key of ecat.
  lemma OtherLinesStay(lines: seq<string>, i: nat, v: string)
    requires i < |lines| && Upgraded(lines, v)[i] != lines[i]
    ensures BelowDependencies(lines, i) && !Header(lines[i])
    ensures exists eq :: 0 <= eq < |lines[i]| && lines[i][eq] == '=' && NamesEcat(lines[i][..eq])
                         && '=' !in lines[i][..eq]
  {
    UpgradeTouchesOnlyDependencies(lines, v, i);
    InTableIs(lines, i);
    HeaderIs(lines[i]);
    var eq := OnlyEcatIsRewritten(lines[i], v);
    assert '=' !in lines[i][..eq];
  }

  // `name = "old"` becomes `name = "new"`.
  lemma UsualRequirement(name: string, oldText: string, v: string)
    requires NamesEcat(name) && '=' !in name && '"' !in name
    ensures RewriteEcatLine(name + " = \"" + oldText + "\"", v)
            == if oldText == v then None else Some(name + " = \"" + v + "\"")
  {
    TrimIgnoresTrailing(name, ' ');
    PlainIsRewritten(name + [' '], [' ', '"'], oldText, [], v);
    RegroupUsual(name, " = \"", oldText, "\"");
    RegroupUsual(name, " = \"", v, "\"");
  }

  lemma RegroupUsual(name: string, equals: string, text: string, quote: string)
    requires equals == [' ', '=', ' ', '"'] && quote == ['"']
    ensures name + equals + text + quote == name + [' '] + ['='] + ([' ', '"'] + (text + (['"'] + [])))
  {
  }
}
