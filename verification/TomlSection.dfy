/**
 `ecat proto add`: making sure that a section of a Cargo.toml lists the dependencies that generated
 code needs.  A section runs from its header to the next header.
 */
module TomlSection {
  import opened Wrappers
  import opened TomlText

  datatype Dep = Dep(key: string, version: string)

  function Header(section: string): string {
    "[" + section + "]"
  }

  predicate IsSection(line: string, section: string) {
    Trim(line) == Header(section)
  }

  // The key a line of a section gives a value to.
  function KeyOf(line: string): Option<string> {
    var t := Trim(line);
    if StartsWith(t, '#') then None
    else match Find(t, '=')
      case None => None
      case Some(eq) => Some(Trim(t[..eq]))
  }

  // The quoted text a line gives as value.
  function ValueOf(line: string): Option<string> {
    var t := Trim(line);
    match Find(t, '=')
    case None => None
    case Some(eq) =>
      var v := Trim(t[eq + 1..]);
      if |v| >= 2 && StartsWith(v, '"') && EndsWith(v, '"') then Some(v[1..|v| - 1]) else None
  }

  function Render(dep: Dep): string {
    dep.key + " = \"" + dep.version + "\""
  }

  function Rendered(deps: seq<Dep>): (r: seq<string>)
    ensures |r| == |deps| && forall i :: 0 <= i < |deps| ==> r[i] == Render(deps[i])
  {
    if deps == [] then [] else [Render(deps[0])] + Rendered(deps[1..])
  }

  // The dependencies whose key is not listed.
  function Missing(deps: seq<Dep>, existing: set<string>): seq<Dep> {
    if deps == [] then []
    else (if deps[0].key in existing then [] else [deps[0]]) + Missing(deps[1..], existing)
  }

  // ---------------------------------------------------------------- where a section lies

  function SectionStart(lines: seq<string>, section: string, from: nat): (r: Option<nat>)
    ensures r.Some? ==> from <= r.value < |lines| && IsSection(lines[r.value], section)
    decreases |lines| - from
  {
    if from >= |lines| then None
    else if IsSection(lines[from], section) then Some(from)
    else SectionStart(lines, section, from + 1)
  }

  function SectionEnd(lines: seq<string>, from: nat): (r: nat)
    requires from <= |lines|
    ensures from <= r <= |lines|
    decreases |lines| - from
  {
    if from == |lines| then from
    else if IsHeader(lines[from]) then from
    else SectionEnd(lines, from + 1)
  }

  function KeySet(line: string): set<string> {
    match KeyOf(line) case Some(k) => {k} case None => {}
  }

  function KeysIn(lines: seq<string>, from: nat, to: nat): set<string>
    requires to <= |lines|
  {
    if from >= to then {}
    else KeysIn(lines, from, to - 1) + KeySet(lines[to - 1])
  }

  function SectionKeys(lines: seq<string>, section: string): set<string> {
    match SectionStart(lines, section, 0)
    case None => {}
    case Some(s) => KeysIn(lines, s + 1, SectionEnd(lines, s + 1))
  }

  function Separator(lines: seq<string>): seq<string> {
    if lines == [] || lines[|lines| - 1] != "" then [""] else []
  }

  function WithLines(lines: seq<string>, section: string, added: seq<string>): seq<string> {
    match SectionStart(lines, section, 0)
    case Some(s) => var end := SectionEnd(lines, s + 1); lines[..end] + added + lines[end..]
    case None => lines + Separator(lines) + [Header(section)] + added
  }

  function EnsureText(toml: string, section: string, deps: seq<Dep>): string {
    var lines := Lines(toml);
    var missing := Missing(deps, SectionKeys(lines, section));
    if missing == [] then toml else Unlines(WithLines(lines, section, Rendered(missing)))
  }

  method FindSection(lines: seq<string>, section: string) returns (start: Option<nat>)
    ensures start == SectionStart(lines, section, 0)
  {
    for i := 0 to |lines|
      invariant SectionStart(lines, section, 0) == SectionStart(lines, section, i)
    {
      if IsSection(lines[i], section) {
        return Some(i);
      }
    }
    return None;
  }

  method ScanSection(lines: seq<string>, from: nat) returns (end: nat, existing: set<string>)
    requires from <= |lines|
    ensures end == SectionEnd(lines, from) && existing == KeysIn(lines, from, end)
  {
    end, existing := from, {};
    while end < |lines| && !IsHeader(lines[end])
      invariant from <= end <= |lines|
      invariant SectionEnd(lines, from) == SectionEnd(lines, end)
      invariant existing == KeysIn(lines, from, end)
    {
      existing := existing + KeySet(lines[end]);
      end := end + 1;
    }
  }

  method EnsureTomlSection(toml: string, section: string, deps: seq<Dep>) returns (text: string)
    ensures text == EnsureText(toml, section, deps)
  {
    var lines := Lines(toml);
    var start := FindSection(lines, section);
    var end, existing := 0, {};
    if start.Some? {
      end, existing := ScanSection(lines, start.value + 1);
    }
    var missing := Missing(deps, existing);
    if missing == [] {
      return toml;
    }
    var insert := Rendered(missing);
    var out := lines;
    match start {
      case Some(_) =>
        out := out[..end] + insert + out[end..];
      case None =>
        if out == [] || out[|out| - 1] != "" {
          out := out + [""];
        }
        assert out == lines + Separator(lines);
        out := out + [Header(section)];
        out := out + insert;
    }
    assert out == WithLines(lines, section, insert);
    text := Unlines(out);
  }

  // ---------------------------------------------------------------- keys

  // The keys a line can hold: no equals sign, no comment mark in front, no space around.
  predicate Readable(key: string) {
    Trim(key) == key && '=' !in key && !StartsWith(key, '#')
  }

  lemma TrimIsTrimmed(s: string)
    ensures Trim(Trim(s)) == Trim(s)
    ensures Trim(s) != [] ==> !IsSpace(Trim(s)[0])
  {
    TrimStartIsSuffix(s);
    TrimEndIsPrefix(TrimStart(s));
    TrimFixed(Trim(s));
  }

  // Every key that is read is a readable one.
  lemma ReadKeysAreReadable(line: string)
    ensures KeyOf(line).Some? ==> Readable(KeyOf(line).value)
  {
    var t := Trim(line);
    if KeyOf(line).Some? {
      var eq := Find(t, '=').value;
      var k := t[..eq];
      FindIsFirst(t, '=');
      TrimIsTrimmed(line);
      TrimIsTrimmed(k);
      TrimIsPart(k);
      TrimFirst(k, '#');
      assert k != [] ==> k[0] == t[0];
    }
  }

  lemma RenderedTrim(dep: Dep)
    ensures EndsWith(Trim(Render(dep)), '"') && !IsHeader(Render(dep))
    ensures dep.key != [] && Trim(dep.key) == dep.key ==> Trim(Render(dep)) == Render(dep)
    ensures dep.key == [] ==> Trim(Render(dep)) == Render(dep)[1..]
  {
    var s := Render(dep);
    assert s[|s| - 1] == '"';
    TrimStartEnds(s, '"');
    if dep.key == [] {
      assert s[0] == ' ' && s[1] == '=';
      TrimFixed(s[1..]);
    } else if Trim(dep.key) == dep.key {
      TrimIsTrimmed(dep.key);
      assert s[0] == dep.key[0];
      TrimFixed(s);
    }
  }

  lemma {:induction false} TrimStartEnds(s: string, c: char)
    requires EndsWith(s, c) && !IsSpace(c)
    ensures EndsWith(TrimStart(s), c) && TrimEnd(TrimStart(s)) == TrimStart(s)
  {
    if !IsSpace(s[0]) {
    } else {
      TrimStartEnds(s[1..], c);
    }
  }

  lemma TrimQuoted(v: string)
    ensures Trim([' '] + (['"'] + v + ['"'])) == ['"'] + v + ['"']
  {
    var q := ['"'] + v + ['"'];
    assert ([' '] + q)[1..] == q;
    TrimFixed(q);
  }

  // Where the equals sign of a written line is, and what stands on its two sides.
  lemma RenderedParts(dep: Dep) returns (eq: nat)
    requires Readable(dep.key)
    ensures var t := Trim(Render(dep));
            && eq < |t| && Find(t, '=') == Some(eq) && !StartsWith(t, '#')
            && Trim(t[..eq]) == dep.key && t[eq + 1..] == [' '] + (['"'] + dep.version + ['"'])
  {
    RenderedTrim(dep);
    var k := dep.key;
    var t := Trim(Render(dep));
    if k == [] {
      eq := 0;
      assert t[0] == '=';
      FindAt(t, '=', 0);
    } else {
      eq := |k| + 1;
      assert t[|k|] == ' ' && t[|k| + 1] == '=';
      FindAt(t, '=', |k| + 1);
      assert t[..|k| + 1] == k + [' '];
      TrimIgnoresTrailing(k, ' ');
    }
  }

  // A line written for a readable key is read back as that key with that version.
  lemma RenderedIsRead(dep: Dep)
    requires Readable(dep.key)
    ensures KeyOf(Render(dep)) == Some(dep.key) && ValueOf(Render(dep)) == Some(dep.version)
  {
    var eq := RenderedParts(dep);
    TrimQuoted(dep.version);
  }

  // ---------------------------------------------------------------- sections by position

  // A line that gives `k` a value, from `from` up to `to`.
  predicate ListedBetween(lines: seq<string>, from: nat, to: nat, k: string)
    requires to <= |lines|
  {
    exists i :: from <= i < to && KeyOf(lines[i]) == Some(k)
  }

  lemma {:induction false} KeysInAre(lines: seq<string>, from: nat, to: nat, k: string)
    requires to <= |lines|
    ensures k in KeysIn(lines, from, to) <==> ListedBetween(lines, from, to, k)
  {
    if from >= to {
    } else {
      KeysInAre(lines, from, to - 1, k);
    }
  }

  lemma {:induction false} StartIs(lines: seq<string>, section: string, from: nat, s: nat)
    requires from <= s < |lines| && IsSection(lines[s], section)
    requires forall i :: from <= i < s ==> !IsSection(lines[i], section)
    ensures SectionStart(lines, section, from) == Some(s)
    decreases s - from
  {
    if from >= s {
    } else {
      StartIs(lines, section, from + 1, s);
    }
  }

  lemma {:induction false} StartIsFirst(lines: seq<string>, section: string, from: nat)
    ensures forall i :: from <= i < (match SectionStart(lines, section, from) case Some(s) => s case None => |lines|)
              ==> !IsSection(lines[i], section)
    decreases |lines| - from
  {
    if from >= |lines| || IsSection(lines[from], section) {
    } else {
      StartIsFirst(lines, section, from + 1);
    }
  }

  lemma {:induction false} EndIs(lines: seq<string>, from: nat, e: nat)
    requires from <= e <= |lines| && (e < |lines| ==> IsHeader(lines[e]))
    requires forall i :: from <= i < e ==> !IsHeader(lines[i])
    ensures SectionEnd(lines, from) == e
    decreases e - from
  {
    if from >= e {
    } else {
      EndIs(lines, from + 1, e);
    }
  }

  lemma {:induction false} EndIsFirst(lines: seq<string>, from: nat)
    requires from <= |lines|
    ensures var e := SectionEnd(lines, from);
            (e < |lines| ==> IsHeader(lines[e])) && forall i :: from <= i < e ==> !IsHeader(lines[i])
    decreases |lines| - from
  {
    if from == |lines| || IsHeader(lines[from]) {
    } else {
      EndIsFirst(lines, from + 1);
    }
  }

  lemma HeaderIsHeader(section: string)
    ensures Trim(Header(section)) == Header(section)
    ensures IsSection(Header(section), section) && IsHeader(Header(section))
    ensures !IsSection("", section)
  {
    TrimFixed(Header(section));
    assert Trim("") == "" && Header(section)[0] == '[';
  }

  predicate NoHeaders(lines: seq<string>) {
    forall i :: 0 <= i < |lines| ==> !IsHeader(lines[i])
  }

  // ---------------------------------------------------------------- what an insertion does

  predicate Agree(out: seq<string>, lines: seq<string>, n: nat) {
    n <= |out| && n <= |lines| && forall i :: 0 <= i < n ==> out[i] == lines[i]
  }

  // `part` stands in `out` from position `at`.
  predicate Placed(out: seq<string>, part: seq<string>, at: nat) {
    at + |part| <= |out| && forall i :: at <= i < at + |part| ==> out[i] == part[i - at]
  }

  lemma PlacedIn(pre: seq<string>, part: seq<string>, post: seq<string>)
    ensures Agree(pre + part + post, pre, |pre|) && Placed(pre + part + post, part, |pre|)
    ensures post != [] ==> (pre + part + post)[|pre| + |part|] == post[0]
    ensures |pre + part + post| == |pre| + |part| + |post|
  {
  }

  lemma PlacedKeys(lines: seq<string>, from: nat, e: nat, out: seq<string>, added: seq<string>, k: string)
    requires from <= e && Agree(out, lines, e) && Placed(out, added, e)
    ensures ListedBetween(out, from, e + |added|, k)
            <==> ListedBetween(lines, from, e, k) || ListedBetween(added, 0, |added|, k)
  {
    if ListedBetween(out, from, e + |added|, k) {
      var i :| from <= i < e + |added| && KeyOf(out[i]) == Some(k);
      assert i < e ==> KeyOf(lines[i]) == Some(k);
      assert i >= e ==> KeyOf(added[i - e]) == Some(k);
    }
    if j :| 0 <= j < |added| && KeyOf(added[j]) == Some(k) {
      assert out[e + j] == added[j];
    }
  }

  lemma PlacedSection(lines: seq<string>, section: string, s: nat, e: nat, out: seq<string>, added: seq<string>)
    requires SectionStart(lines, section, 0) == Some(s) && e == SectionEnd(lines, s + 1)
    requires Agree(out, lines, e) && Placed(out, added, e) && NoHeaders(added)
    requires e == |lines| ==> |out| == e + |added|
    requires e < |lines| ==> e + |added| < |out| && out[e + |added|] == lines[e]
    ensures SectionStart(out, section, 0) == Some(s) && SectionEnd(out, s + 1) == e + |added|
  {
    StartIsFirst(lines, section, 0);
    EndIsFirst(lines, s + 1);
    StartIs(out, section, 0, s);
    forall i | s + 1 <= i < e + |added| ensures !IsHeader(out[i]) {
      assert i >= e ==> out[i] == added[i - e];
    }
    EndIs(out, s + 1, e + |added|);
  }

  lemma SectionKeysAre(lines: seq<string>, section: string, s: nat, e: nat, k: string)
    requires SectionStart(lines, section, 0) == Some(s) && SectionEnd(lines, s + 1) == e
    ensures k in SectionKeys(lines, section) <==> ListedBetween(lines, s + 1, e, k)
  {
    KeysInAre(lines, s + 1, e, k);
  }

  lemma PlacedSectionKeys(lines: seq<string>, section: string, s: nat, e: nat, out: seq<string>, added: seq<string>,
                          k: string)
    requires SectionStart(lines, section, 0) == Some(s) && e == SectionEnd(lines, s + 1)
    requires Agree(out, lines, e) && Placed(out, added, e) && NoHeaders(added)
    requires e == |lines| ==> |out| == e + |added|
    requires e < |lines| ==> e + |added| < |out| && out[e + |added|] == lines[e]
    ensures k in SectionKeys(out, section) <==> k in SectionKeys(lines, section) || ListedBetween(added, 0, |added|, k)
  {
    PlacedSection(lines, section, s, e, out, added);
    PlacedKeys(lines, s + 1, e, out, added, k);
    SectionKeysAre(out, section, s, e + |added|, k);
    SectionKeysAre(lines, section, s, e, k);
  }

  lemma AddedToSection(lines: seq<string>, section: string, added: seq<string>, k: string)
    requires SectionStart(lines, section, 0).Some? && NoHeaders(added)
    ensures k in SectionKeys(WithLines(lines, section, added), section)
            <==> k in SectionKeys(lines, section) || ListedBetween(added, 0, |added|, k)
  {
    var s := SectionStart(lines, section, 0).value;
    var e := SectionEnd(lines, s + 1);
    var pre, post := lines[..e], lines[e..];
    PlacedIn(pre, added, post);
    assert Agree(pre + added + post, lines, e);
    assert post == [] || post[0] == lines[e];
    PlacedSectionKeys(lines, section, s, e, pre + added + post, added, k);
  }

  lemma PlacedAtEnd(lines: seq<string>, section: string, out: seq<string>, h: nat, added: seq<string>)
    requires h <= |lines| && SectionStart(lines, section, 0) == None && NoHeaders(added)
    requires |out| == h + 1 + |added| && out[h] == Header(section) && Placed(out, added, h + 1)
    requires Agree(out, lines, h)
    ensures SectionStart(out, section, 0) == Some(h) && SectionEnd(out, h + 1) == |out|
  {
    StartIsFirst(lines, section, 0);
    HeaderIsHeader(section);
    StartIs(out, section, 0, h);
    forall i | h + 1 <= i < |out| ensures !IsHeader(out[i]) {
      assert out[i] == added[i - (h + 1)];
    }
    EndIs(out, h + 1, |out|);
  }

  lemma SeparatedNone(lines: seq<string>, section: string)
    requires SectionStart(lines, section, 0) == None
    ensures SectionStart(lines + Separator(lines), section, 0) == None
  {
    StartIsFirst(lines, section, 0);
    HeaderIsHeader(section);
    NoStart(lines + Separator(lines), section, 0);
  }

  lemma {:induction false} NoStart(lines: seq<string>, section: string, from: nat)
    requires forall i :: from <= i < |lines| ==> !IsSection(lines[i], section)
    ensures SectionStart(lines, section, from) == None
    decreases |lines| - from
  {
    if from >= |lines| {
    } else {
      NoStart(lines, section, from + 1);
    }
  }

  // A new section, written after everything else.
  lemma NewSection(lines: seq<string>, section: string, added: seq<string>) returns (h: nat)
    requires SectionStart(lines, section, 0).None? && NoHeaders(added)
    ensures var out := WithLines(lines, section, added);
            && |out| == h + 1 + |added| && Placed(out, added, h + 1)
            && SectionStart(out, section, 0) == Some(h) && SectionEnd(out, h + 1) == |out|
  {
    var pre, head := lines + Separator(lines), [Header(section)];
    var out := pre + head + added;
    h := |pre|;
    SeparatedNone(lines, section);
    PlacedIn(pre, head, added);
    PlacedIn(pre + head, added, []);
    assert pre + head + added + [] == out;
    PlacedAtEnd(pre, section, out, h, added);
  }

  lemma AddedAtEnd(lines: seq<string>, section: string, added: seq<string>, k: string)
    requires SectionStart(lines, section, 0).None? && NoHeaders(added)
    ensures k in SectionKeys(WithLines(lines, section, added), section)
            <==> ListedBetween(added, 0, |added|, k)
  {
    var h := NewSection(lines, section, added);
    var out := WithLines(lines, section, added);
    PlacedKeys(out, h + 1, h + 1, out, added, k);
    SectionKeysAre(out, section, h, |out|, k);
  }

  lemma {:induction false} MissingAre(deps: seq<Dep>, existing: set<string>, d: Dep)
    ensures d in Missing(deps, existing) <==> d in deps && d.key !in existing
  {
    if deps == [] {
    } else {
      MissingAre(deps[1..], existing, d);
    }
  }

  lemma {:induction false} NoneMissing(deps: seq<Dep>, existing: set<string>)
    ensures Missing(deps, existing) == [] <==> forall i :: 0 <= i < |deps| ==> deps[i].key in existing
  {
    if deps == [] {
    } else {
      NoneMissing(deps[1..], existing);
      assert forall i :: 0 < i < |deps| ==> deps[i] == deps[1..][i - 1];
    }
  }

  // A key of the dependencies is listed after they are written exactly when it can be read at all.
  lemma WrittenKeys(lines: seq<string>, section: string, deps: seq<Dep>, i: nat)
    requires i < |deps|
    ensures var missing := Missing(deps, SectionKeys(lines, section));
            var out := WithLines(lines, section, Rendered(missing));
            deps[i].key in SectionKeys(out, section) <==> Readable(deps[i].key)
  {
    var keys := SectionKeys(lines, section);
    var missing := Missing(deps, keys);
    var added := Rendered(missing);
    var k := deps[i].key;
    NoHeadersRendered(missing);
    WithKeys(lines, section, added, k);
    OldKeysReadable(lines, section, k);
    MissingAre(deps, keys, deps[i]);
    if Readable(k) && k !in keys {
      RenderedIsRead(deps[i]);
      var j :| 0 <= j < |missing| && missing[j] == deps[i];
      assert KeyOf(added[j]) == Some(k);
    }
    if j :| 0 <= j < |added| && KeyOf(added[j]) == Some(k) {
      ReadKeysAreReadable(added[j]);
    }
  }

  lemma NoHeadersRendered(deps: seq<Dep>)
    ensures NoHeaders(Rendered(deps))
  {
    forall i | 0 <= i < |deps| ensures !IsHeader(Rendered(deps)[i]) {
      RenderedTrim(deps[i]);
    }
  }

  lemma WithKeys(lines: seq<string>, section: string, added: seq<string>, k: string)
    requires NoHeaders(added)
    ensures k in SectionKeys(WithLines(lines, section, added), section)
            <==> k in SectionKeys(lines, section) || ListedBetween(added, 0, |added|, k)
  {
    if SectionStart(lines, section, 0).Some? {
      AddedToSection(lines, section, added, k);
    } else {
      AddedAtEnd(lines, section, added, k);
    }
  }

  lemma OldKeysReadable(lines: seq<string>, section: string, k: string)
    ensures k in SectionKeys(lines, section) ==> Readable(k)
  {
    if k in SectionKeys(lines, section) {
      var s := SectionStart(lines, section, 0).value;
      var e := SectionEnd(lines, s + 1);
      KeysInAre(lines, s + 1, e, k);
      var i :| s + 1 <= i < e && KeyOf(lines[i]) == Some(k);
      ReadKeysAreReadable(lines[i]);
    }
  }

  // ---------------------------------------------------------------- the text

  predicate SameTrimmed(a: seq<string>, b: seq<string>) {
    |a| == |b| && forall i :: 0 <= i < |a| ==> Trim(a[i]) == Trim(b[i])
  }

  // A section is read the same whatever spaces surround its lines.
  lemma SpacesDoNotMatter(a: seq<string>, b: seq<string>, section: string, k: string)
    requires SameTrimmed(a, b)
    ensures k in SectionKeys(a, section) <==> k in SectionKeys(b, section)
  {
    StartIsFirst(a, section, 0);
    if SectionStart(a, section, 0).Some? {
      var s := SectionStart(a, section, 0).value;
      StartIs(b, section, 0, s);
      var e := SectionEnd(a, s + 1);
      EndIsFirst(a, s + 1);
      EndIs(b, s + 1, e);
      KeysInAre(a, s + 1, e, k);
      KeysInAre(b, s + 1, e, k);
      assert forall i :: 0 <= i < |a| ==> KeyOf(a[i]) == KeyOf(b[i]);
    } else {
      NoStart(b, section, 0);
    }
  }

  lemma StrippedTrims(lines: seq<string>)
    ensures SameTrimmed(lines, Stripped(lines))
  {
    StrippedIs(lines);
    forall i | 0 <= i < |lines| ensures Trim(lines[i]) == Trim(Stripped(lines)[i]) {
      StrippedTrim(lines[i]);
    }
  }

  lemma StrippedTrim(x: string)
    ensures Trim(StripReturn(x)) == Trim(x)
  {
    if EndsWith(x, '\r') {
      assert x == StripReturn(x) + ['\r'];
      TrimIgnoresTrailing(StripReturn(x), '\r');
    }
  }

  predicate OneLineDeps(deps: seq<Dep>) {
    forall i :: 0 <= i < |deps| ==> OneLine(deps[i].key) && OneLine(deps[i].version)
  }

  predicate AllReadable(deps: seq<Dep>) {
    forall i :: 0 <= i < |deps| ==> Readable(deps[i].key)
  }

  lemma WithLinesOneLine(toml: string, section: string, missing: seq<Dep>)
    requires OneLine(section) && OneLineDeps(missing)
    ensures AllOneLine(WithLines(Lines(toml), section, Rendered(missing)))
  {
    LinesAreOneLine(toml);
    var lines, added := Lines(toml), Rendered(missing);
    forall i | 0 <= i < |added| ensures OneLine(added[i]) {
      assert added[i] == Render(missing[i]);
    }
    assert OneLine(Header(section));
  }

  lemma MissingOneLine(deps: seq<Dep>, existing: set<string>)
    requires OneLineDeps(deps)
    ensures OneLineDeps(Missing(deps, existing))
  {
    var missing := Missing(deps, existing);
    forall i | 0 <= i < |missing| ensures OneLine(missing[i].key) && OneLine(missing[i].version) {
      MissingAre(deps, existing, missing[i]);
    }
  }

  // What an insertion consists of: the missing dependencies, with a header before them if the section
  // is new, and an empty line before that unless there is one.
  function Block(lines: seq<string>, section: string, deps: seq<Dep>): seq<string> {
    var written := Rendered(Missing(deps, SectionKeys(lines, section)));
    if SectionStart(lines, section, 0).Some? then written
    else Separator(lines) + [Header(section)] + written
  }

  // Nothing that was there is lost: the lines of the new text are the old ones, in their order,
  // around that one block, which ends the section or the file.
  lemma EnsureKeepsLines(toml: string, section: string, deps: seq<Dep>) returns (p: nat)
    requires OneLine(section) && OneLineDeps(deps)
    requires EnsureText(toml, section, deps) != toml
    ensures p <= |Lines(toml)|
    ensures Lines(EnsureText(toml, section, deps))
            == Stripped(Lines(toml)[..p] + Block(Lines(toml), section, deps) + Lines(toml)[p..])
    ensures p < |Lines(toml)| ==> IsHeader(Lines(toml)[p])
    ensures match SectionStart(Lines(toml), section, 0)
            case None => p == |Lines(toml)|
            case Some(s) => s < p && forall i :: s < i < p ==> !IsHeader(Lines(toml)[i])
  {
    var lines := Lines(toml);
    var missing := Missing(deps, SectionKeys(lines, section));
    MissingOneLine(deps, SectionKeys(lines, section));
    WithLinesOneLine(toml, section, missing);
    LinesOfUnlines(WithLines(lines, section, Rendered(missing)));
    p := WithLinesBlock(lines, section, deps);
  }

  lemma WithLinesBlock(lines: seq<string>, section: string, deps: seq<Dep>) returns (p: nat)
    ensures p <= |lines| && (p < |lines| ==> IsHeader(lines[p]))
    ensures match SectionStart(lines, section, 0)
            case None => p == |lines|
            case Some(s) => s < p && forall i :: s < i < p ==> !IsHeader(lines[i])
    ensures WithLines(lines, section, Rendered(Missing(deps, SectionKeys(lines, section))))
            == lines[..p] + Block(lines, section, deps) + lines[p..]
  {
    match SectionStart(lines, section, 0) {
      case Some(s) =>
        p := SectionEnd(lines, s + 1);
        EndIsFirst(lines, s + 1);
      case None =>
        p := |lines|;
        RegroupBlock(lines, Separator(lines), [Header(section)],
                     Rendered(Missing(deps, SectionKeys(lines, section))));
    }
  }

  lemma RegroupBlock(a: seq<string>, b: seq<string>, c: seq<string>, d: seq<string>)
    ensures a + b + c + d == a[..|a|] + (b + c + d) + a[|a|..]
  {
  }

  // Afterwards a requested key is listed exactly if a line can hold it.
  lemma EnsureListsKeys(toml: string, section: string, deps: seq<Dep>, i: nat)
    requires OneLine(section) && OneLineDeps(deps) && i < |deps|
    ensures deps[i].key in SectionKeys(Lines(EnsureText(toml, section, deps)), section) <==> Readable(deps[i].key)
  {
    var lines := Lines(toml);
    var keys := SectionKeys(lines, section);
    var missing := Missing(deps, keys);
    var k := deps[i].key;
    if missing == [] {
      NoneMissing(deps, keys);
      OldKeysReadable(lines, section, k);
    } else {
      var out := WithLines(lines, section, Rendered(missing));
      MissingOneLine(deps, keys);
      WithLinesOneLine(toml, section, missing);
      LinesOfUnlines(out);
      StrippedTrims(out);
      SpacesDoNotMatter(out, Stripped(out), section, k);
      WrittenKeys(lines, section, deps, i);
    }
  }

  lemma EnsureKeepsKeys(toml: string, section: string, deps: seq<Dep>, k: string)
    requires OneLine(section) && OneLineDeps(deps)
    requires k in SectionKeys(Lines(toml), section)
    ensures k in SectionKeys(Lines(EnsureText(toml, section, deps)), section)
  {
    var lines := Lines(toml);
    var keys := SectionKeys(lines, section);
    var missing := Missing(deps, keys);
    if missing != [] {
      var out := WithLines(lines, section, Rendered(missing));
      MissingOneLine(deps, keys);
      WithLinesOneLine(toml, section, missing);
      LinesOfUnlines(out);
      StrippedTrims(out);
      SpacesDoNotMatter(out, Stripped(out), section, k);
      NoHeadersRendered(missing);
      WithKeys(lines, section, Rendered(missing), k);
    }
  }

  // ---------------------------------------------------------------- which keys, which versions

  // A line of the section gives `k` the value `v`.
  ghost predicate Gives(lines: seq<string>, section: string, k: string, v: string) {
    match SectionStart(lines, section, 0)
    case None => false
    case Some(s) =>
      exists j :: s < j < SectionEnd(lines, s + 1) && KeyOf(lines[j]) == Some(k) && ValueOf(lines[j]) == Some(v)
  }

  lemma GivesAt(lines: seq<string>, section: string, s: nat, j: nat, k: string, v: string)
    requires SectionStart(lines, section, 0) == Some(s) && s < j < SectionEnd(lines, s + 1)
    requires KeyOf(lines[j]) == Some(k) && ValueOf(lines[j]) == Some(v)
    ensures Gives(lines, section, k, v)
  {
  }

  // The lines added to a section that was there.
  lemma OldSection(lines: seq<string>, section: string, added: seq<string>) returns (s: nat, e: nat)
    requires SectionStart(lines, section, 0).Some? && NoHeaders(added)
    ensures var out := WithLines(lines, section, added);
            && s < e && Placed(out, added, e)
            && SectionStart(out, section, 0) == Some(s) && SectionEnd(out, s + 1) == e + |added|
  {
    s := SectionStart(lines, section, 0).value;
    e := SectionEnd(lines, s + 1);
    var pre, post := lines[..e], lines[e..];
    PlacedIn(pre, added, post);
    assert Agree(pre + added + post, lines, e);
    assert post == [] || post[0] == lines[e];
    PlacedSection(lines, section, s, e, pre + added + post, added);
  }

  lemma PlacedGives(out: seq<string>, section: string, s: nat, at: nat, added: seq<string>, j: nat,
                    k: string, v: string)
    requires SectionStart(out, section, 0) == Some(s) && SectionEnd(out, s + 1) == at + |added|
    requires s < at && Placed(out, added, at)
    requires j < |added| && KeyOf(added[j]) == Some(k) && ValueOf(added[j]) == Some(v)
    ensures Gives(out, section, k, v)
  {
    var line := out[at + j];
    assert line == added[j];
    GivesAt(out, section, s, at + j, k, v);
  }

  lemma AddedGives(lines: seq<string>, section: string, added: seq<string>, j: nat, k: string, v: string)
    requires NoHeaders(added) && j < |added| && KeyOf(added[j]) == Some(k) && ValueOf(added[j]) == Some(v)
    ensures Gives(WithLines(lines, section, added), section, k, v)
  {
    var out := WithLines(lines, section, added);
    if SectionStart(lines, section, 0).Some? {
      var s, e := OldSection(lines, section, added);
      PlacedGives(out, section, s, e, added, j, k, v);
    } else {
      var h := NewSection(lines, section, added);
      PlacedGives(out, section, h, h + 1, added, j, k, v);
    }
  }

  lemma SameLine(x: string, y: string)
    requires Trim(x) == Trim(y)
    ensures KeyOf(x) == KeyOf(y) && ValueOf(x) == ValueOf(y)
  {
  }

  lemma SpacesKeepValues(a: seq<string>, b: seq<string>, section: string, k: string, v: string)
    requires SameTrimmed(a, b) && Gives(a, section, k, v)
    ensures Gives(b, section, k, v)
  {
    StartIsFirst(a, section, 0);
    var s := SectionStart(a, section, 0).value;
    StartIs(b, section, 0, s);
    var e := SectionEnd(a, s + 1);
    EndIsFirst(a, s + 1);
    EndIs(b, s + 1, e);
    var j :| s < j < e && KeyOf(a[j]) == Some(k) && ValueOf(a[j]) == Some(v);
    SameLine(a[j], b[j]);
    GivesAt(b, section, s, j, k, v);
  }

  // Each requested key that a line can hold, if it was not listed before, is now given the requested
  // version.
  lemma EnsureGivesVersions(toml: string, section: string, deps: seq<Dep>, i: nat)
    requires OneLine(section) && OneLineDeps(deps) && i < |deps|
    requires Readable(deps[i].key) && deps[i].key !in SectionKeys(Lines(toml), section)
    ensures Gives(Lines(EnsureText(toml, section, deps)), section, deps[i].key, deps[i].version)
  {
    var lines := Lines(toml);
    var keys := SectionKeys(lines, section);
    var missing := Missing(deps, keys);
    MissingAre(deps, keys, deps[i]);
    var j :| 0 <= j < |missing| && missing[j] == deps[i];
    var added := Rendered(missing);
    var out := WithLines(lines, section, added);
    RenderedIsRead(deps[i]);
    NoHeadersRendered(missing);
    AddedGives(lines, section, added, j, deps[i].key, deps[i].version);
    MissingOneLine(deps, keys);
    WithLinesOneLine(toml, section, missing);
    LinesOfUnlines(out);
    StrippedTrims(out);
    SpacesKeepValues(out, Stripped(out), section, deps[i].key, deps[i].version);
  }

  // The keys that the lines written for some dependencies are read as.
  ghost predicate ReadFrom(deps: seq<Dep>, keys: set<string>, k: string) {
    exists i :: 0 <= i < |deps| && deps[i].key !in keys && KeyOf(Render(deps[i])) == Some(k)
  }

  lemma MissingListed(deps: seq<Dep>, keys: set<string>, k: string)
    ensures var added := Rendered(Missing(deps, keys));
            ListedBetween(added, 0, |added|, k) <==> ReadFrom(deps, keys, k)
  {
    var missing := Missing(deps, keys);
    var added := Rendered(missing);
    if j :| 0 <= j < |added| && KeyOf(added[j]) == Some(k) {
      MissingAre(deps, keys, missing[j]);
      var i :| 0 <= i < |deps| && deps[i] == missing[j];
      assert ReadFrom(deps, keys, k);
    }
    if i :| 0 <= i < |deps| && deps[i].key !in keys && KeyOf(Render(deps[i])) == Some(k) {
      MissingAre(deps, keys, deps[i]);
      var j :| 0 <= j < |missing| && missing[j] == deps[i];
      assert KeyOf(added[j]) == Some(k);
    }
  }

  // The keys listed afterwards are those listed before and those that the new lines are read as; no
  // others.
  lemma EnsureListsExactly(toml: string, section: string, deps: seq<Dep>, k: string)
    requires OneLine(section) && OneLineDeps(deps)
    ensures var keys := SectionKeys(Lines(toml), section);
            k in SectionKeys(Lines(EnsureText(toml, section, deps)), section)
            <==> k in keys || ReadFrom(deps, keys, k)
  {
    var lines := Lines(toml);
    var keys := SectionKeys(lines, section);
    var missing := Missing(deps, keys);
    MissingListed(deps, keys, k);
    if missing == [] {
      NoneMissing(deps, keys);
    } else {
      var out := WithLines(lines, section, Rendered(missing));
      MissingOneLine(deps, keys);
      WithLinesOneLine(toml, section, missing);
      LinesOfUnlines(out);
      StrippedTrims(out);
      SpacesDoNotMatter(out, Stripped(out), section, k);
      NoHeadersRendered(missing);
      WithKeys(lines, section, Rendered(missing), k);
    }
  }

  // For readable keys: exactly the old ones and the requested ones.
  lemma EnsureAddsRequested(toml: string, section: string, deps: seq<Dep>)
    requires OneLine(section) && OneLineDeps(deps) && AllReadable(deps)
    ensures SectionKeys(Lines(EnsureText(toml, section, deps)), section)
            == SectionKeys(Lines(toml), section) + (set d | d in deps :: d.key)
  {
    var keys := SectionKeys(Lines(toml), section);
    forall k
      ensures k in SectionKeys(Lines(EnsureText(toml, section, deps)), section)
              <==> k in keys || exists d :: d in deps && d.key == k
    {
      EnsureListsExactly(toml, section, deps, k);
      forall i | 0 <= i < |deps| ensures KeyOf(Render(deps[i])) == Some(deps[i].key) {
        RenderedIsRead(deps[i]);
      }
      if d :| d in deps && d.key == k {
        var i :| 0 <= i < |deps| && deps[i] == d;
        assert k !in keys ==> ReadFrom(deps, keys, k);
      }
    }
  }

  // A text is left as it is exactly when its section lists every requested key.
  lemma UnchangedExactlyWhenListed(toml: string, section: string, deps: seq<Dep>)
    requires OneLine(section) && OneLineDeps(deps)
    ensures EnsureText(toml, section, deps) == toml
            <==> forall i :: 0 <= i < |deps| ==> deps[i].key in SectionKeys(Lines(toml), section)
  {
    var lines := Lines(toml);
    var keys := SectionKeys(lines, section);
    NoneMissing(deps, keys);
    var missing := Missing(deps, keys);
    if missing != [] {
      var out := WithLines(lines, section, Rendered(missing));
      MissingOneLine(deps, keys);
      WithLinesOneLine(toml, section, missing);
      LinesOfUnlines(out);
      StrippedIs(out);
      assert |Lines(Unlines(out))| > |lines|;
    }
  }

  // Asking again changes nothing exactly when every requested key is one a line can hold.
  lemma EnsureTwice(toml: string, section: string, deps: seq<Dep>)
    requires OneLine(section) && OneLineDeps(deps)
    ensures var once := EnsureText(toml, section, deps);
            EnsureText(once, section, deps) == once <==> AllReadable(deps)
  {
    var once := EnsureText(toml, section, deps);
    UnchangedExactlyWhenListed(once, section, deps);
    forall i | 0 <= i < |deps|
      ensures deps[i].key in SectionKeys(Lines(once), section) <==> Readable(deps[i].key)
    {
      EnsureListsKeys(toml, section, deps, i);
    }
  }
}
