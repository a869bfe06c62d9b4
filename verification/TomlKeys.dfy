/**
 Which keys a section lists, spelled out over the positions of its lines and of their equals signs.
 */
module TomlKeys {
  import opened Wrappers
  import opened TomlText
  import opened TomlSection

  // The trimmed line does not begin with '#', and `k` is what stands before its first equals sign.
  ghost predicate HoldsKey(line: string, k: string) {
    var t := Trim(line);
    && (t != [] ==> t[0] != '#')
    && exists eq :: 0 <= eq < |t| && t[eq] == '=' && '=' !in t[..eq] && Trim(t[..eq]) == k
  }

  lemma KeyOfIs(line: string, k: string)
    ensures KeyOf(line) == Some(k) <==> HoldsKey(line, k)
  {
    var t := Trim(line);
    FindIsFirst(t, '=');
    if HoldsKey(line, k) {
      var eq :| 0 <= eq < |t| && t[eq] == '=' && '=' !in t[..eq] && Trim(t[..eq]) == k;
      forall j | 0 <= j < eq ensures t[j] != '=' {
        assert t[j] in t[..eq];
      }
      FindAt(t, '=', eq);
    }
    if KeyOf(line) == Some(k) {
      var eq := Find(t, '=').value;
      assert '=' !in t[..eq];
    }
  }

  // ---------------------------------------------------------------- a line as people write it

  predicate AllSpace(s: string) {
    forall i :: 0 <= i < |s| ==> IsSpace(s[i])
  }

  lemma {:induction false} TrimStartDrops(indent: string, s: string)
    requires AllSpace(indent)
    ensures TrimStart(indent + s) == TrimStart(s)
  {
    if indent == [] {
      assert indent + s == s;
    } else {
      assert (indent + s)[1..] == indent[1..] + s;
      TrimStartDrops(indent[1..], s);
    }
  }

  lemma {:induction false} TrimEndDrops(s: string, gap: string)
    requires AllSpace(gap)
    ensures TrimEnd(s + gap) == TrimEnd(s)
    decreases |gap|
  {
    if gap == [] {
      assert s + gap == s;
    } else {
      assert (s + gap)[..|s + gap| - 1] == s + gap[..|gap| - 1];
      TrimEndDrops(s, gap[..|gap| - 1]);
    }
  }

  // Trimming the end never goes beyond a visible character.
  lemma {:induction false} TrimEndKeeps(s: string, n: nat)
    requires n < |s| && !IsSpace(s[n])
    ensures |TrimEnd(s)| > n && TrimEnd(s) <= s
    decreases |s|
  {
    if IsSpace(s[|s| - 1]) {
      TrimEndKeeps(s[..|s| - 1], n);
    }
  }

  lemma KeyBeforeEquals(key: string, gap: string, rest: string)
    requires AllSpace(gap) && key != [] && Trim(key) == key && '=' !in key
    ensures var t := Trim(key + gap + ['='] + rest);
            Find(t, '=') == Some(|key| + |gap|) && t[..|key| + |gap|] == key + gap
  {
    var s := key + gap + ['='] + rest;
    TrimIsTrimmed(key);
    assert s[0] == key[0] && s[|key| + |gap|] == '=';
    TrimEndKeeps(s, |key| + |gap|);
    FindAt(TrimEnd(s), '=', |key| + |gap|);
  }

  // A line `key = value`, however it is spaced, lists its key unless that is commented out.
  lemma WrittenKeyIsRead(indent: string, key: string, gap: string, rest: string)
    requires AllSpace(indent) && AllSpace(gap) && key != [] && Trim(key) == key && '=' !in key
    ensures KeyOf(indent + (key + gap + ['='] + rest)) == if key[0] == '#' then None else Some(key)
  {
    var s := key + gap + ['='] + rest;
    TrimStartDrops(indent, s);
    KeyBeforeEquals(key, gap, rest);
    TrimIsTrimmed(key);
    TrimStartKeeps(key, gap);
    TrimEndDrops(key, gap);
    assert Trim(s)[0] == Trim(s)[..|key| + |gap|][0];
  }

  lemma TrimStartKeeps(key: string, gap: string)
    requires key != [] && !IsSpace(key[0])
    ensures TrimStart(key + gap) == key + gap && TrimStart(key) == key
  {
  }

  // ---------------------------------------------------------------- the section

  // A trimmed line between square brackets.
  predicate BracketLine(line: string) {
    var t := Trim(line);
    t != [] && t[0] == '[' && t[|t| - 1] == ']'
  }

  predicate Opens(line: string, section: string) {
    Trim(line) == ['['] + section + [']']
  }

  // Line `i` stands below the first header of the section, with no header between.
  ghost predicate InSection(lines: seq<string>, section: string, i: int) {
    exists s :: 0 <= s < i < |lines| && Opens(lines[s], section)
                && (forall j :: 0 <= j < s ==> !Opens(lines[j], section))
                && forall j :: s < j <= i ==> !BracketLine(lines[j])
  }

  // A section lists the keys of the lines between its first header and the next header of any kind.
  lemma SectionKeysAreListed(lines: seq<string>, section: string, k: string)
    ensures k in SectionKeys(lines, section)
            <==> exists i :: 0 <= i < |lines| && InSection(lines, section, i) && HoldsKey(lines[i], k)
  {
    StartIsFirst(lines, section, 0);
    if SectionStart(lines, section, 0).Some? {
      var s := SectionStart(lines, section, 0).value;
      var e := SectionEnd(lines, s + 1);
      SectionKeysAre(lines, section, s, e, k);
      EndIsFirst(lines, s + 1);
      forall i | 0 <= i < |lines|
        ensures InSection(lines, section, i) <==> s < i < e
        ensures HoldsKey(lines[i], k) <==> KeyOf(lines[i]) == Some(k)
      {
        KeyOfIs(lines[i], k);
        BetweenHeaders(lines, section, s, e, i);
      }
    }
  }

  lemma BetweenHeaders(lines: seq<string>, section: string, s: nat, e: nat, i: nat)
    requires s < e <= |lines| && i < |lines| && IsSection(lines[s], section)
    requires forall j :: 0 <= j < s ==> !IsSection(lines[j], section)
    requires forall j :: s < j < e ==> !IsHeader(lines[j])
    requires e < |lines| ==> IsHeader(lines[e])
    ensures InSection(lines, section, i) <==> s < i < e
  {
    if InSection(lines, section, i) {
      var h :| 0 <= h < i && Opens(lines[h], section)
               && (forall j :: 0 <= j < h ==> !Opens(lines[j], section))
               && forall j :: h < j <= i ==> !BracketLine(lines[j]);
      assert Opens(lines[s], section) && IsSection(lines[h], section);
      assert h == s;
      assert e < |lines| ==> BracketLine(lines[e]);
    }
    if s < i < e {
      assert Opens(lines[s], section);
      forall j | 0 <= j < s ensures !Opens(lines[j], section) {
        assert !IsSection(lines[j], section);
      }
    }
  }

  // ---------------------------------------------------------------- a new section

  lemma {:induction false} AllAreMissing(deps: seq<Dep>)
    ensures Missing(deps, {}) == deps
  {
    if deps == [] {
    } else {
      AllAreMissing(deps[1..]);
    }
  }

  /**
   To a file without the section it is added at the end: an empty line unless there is one, the header,
   and `key = "version"` for each dependency in order.
   */
  lemma NewSectionIsAppended(toml: string, section: string, deps: seq<Dep>) returns (written: seq<string>)
    requires OneLine(section) && OneLineDeps(deps) && deps != []
    requires forall i :: 0 <= i < |Lines(toml)| ==> !Opens(Lines(toml)[i], section)
    ensures |written| == |deps|
    ensures forall i :: 0 <= i < |deps| ==>
              written[i] == deps[i].key + [' ', '=', ' ', '"'] + deps[i].version + ['"']
    ensures var lines := Lines(toml);
            Lines(EnsureText(toml, section, deps))
            == Stripped(lines + (if lines != [] && lines[|lines| - 1] == [] then [] else [[]])
                        + [['['] + section + [']']] + written)
  {
    var lines := Lines(toml);
    forall i | 0 <= i < |lines| ensures !IsSection(lines[i], section) {
      assert !Opens(lines[i], section);
    }
    NoStart(lines, section, 0);
    AllAreMissing(deps);
    written := Rendered(deps);
    WithLinesOneLine(toml, section, deps);
    LinesOfUnlines(WithLines(lines, section, written));
  }
}
