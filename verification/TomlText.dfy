/** The string operations the TOML rewriters of `ecat-cli` use, with what Rust promises of them. */
module TomlText {
  import opened Wrappers

  // `char::is_whitespace`
  predicate IsSpace(c: char) {
    || c == ' ' || '\t' <= c <= '\r' || c == '\U{0085}' || c == '\U{00A0}' || c == '\U{1680}'
    || '\U{2000}' <= c <= '\U{200A}' || c == '\U{2028}' || c == '\U{2029}' || c == '\U{202F}'
    || c == '\U{205F}' || c == '\U{3000}'
  }

  function TrimStart(s: string): string {
    if s != [] && IsSpace(s[0]) then TrimStart(s[1..]) else s
  }

  function TrimEnd(s: string): string {
    if s != [] && IsSpace(s[|s| - 1]) then TrimEnd(s[..|s| - 1]) else s
  }

  function Trim(s: string): string {
    TrimEnd(TrimStart(s))
  }

  predicate StartsWith(s: string, c: char) {
    s != [] && s[0] == c
  }

  predicate EndsWith(s: string, c: char) {
    s != [] && s[|s| - 1] == c
  }

  // A line that opens a table.
  predicate IsHeader(line: string) {
    StartsWith(Trim(line), '[') && EndsWith(Trim(line), ']')
  }

  // First occurrence of a character.
  function Find(s: string, c: char): Option<nat> {
    FindCharFrom(s, c, 0)
  }

  function FindCharFrom(s: string, c: char, from: nat): (r: Option<nat>)
    ensures r.Some? ==> from <= r.value < |s| && s[r.value] == c
    decreases |s| - from
  {
    if from >= |s| then None else if s[from] == c then Some(from) else FindCharFrom(s, c, from + 1)
  }

  // Last occurrence of a character.
  function RFind(s: string, c: char): Option<nat> {
    RFindCharTo(s, c, |s|)
  }

  function RFindCharTo(s: string, c: char, to: nat): (r: Option<nat>)
    requires to <= |s|
    ensures r.Some? ==> r.value < to && s[r.value] == c
  {
    if to == 0 then None else if s[to - 1] == c then Some(to - 1) else RFindCharTo(s, c, to - 1)
  }

  predicate OccursAt(s: string, p: string, i: nat) {
    i + |p| <= |s| && s[i..i + |p|] == p
  }

  // First occurrence of a pattern, at or after `from`.
  function FindFrom(s: string, p: string, from: nat): (r: Option<nat>)
    ensures r.Some? ==> from <= r.value && r.value + |p| <= |s|
    decreases |s| - from
  {
    if OccursAt(s, p, from) then Some(from)
    else if from >= |s| then None
    else FindFrom(s, p, from + 1)
  }

  lemma {:induction false} FindFromIsFirst(s: string, p: string, from: nat)
    ensures FindFrom(s, p, from).Some? ==> OccursAt(s, p, FindFrom(s, p, from).value)
    ensures FindFrom(s, p, from).Some? ==>
              forall j: nat :: from <= j < FindFrom(s, p, from).value ==> !OccursAt(s, p, j)
    ensures FindFrom(s, p, from).None? ==> forall j: nat :: from <= j ==> !OccursAt(s, p, j)
    decreases |s| - from
  {
    if OccursAt(s, p, from) || from >= |s| {
    } else {
      FindFromIsFirst(s, p, from + 1);
    }
  }

  lemma {:induction false} FindCharFromIs(s: string, c: char, from: nat, i: nat)
    requires from <= i < |s| && s[i] == c && forall j :: from <= j < i ==> s[j] != c
    ensures FindCharFrom(s, c, from) == Some(i)
    decreases i - from
  {
    if from >= i {
    } else {
      FindCharFromIs(s, c, from + 1, i);
    }
  }

  lemma {:induction false} FindCharFromIsFirst(s: string, c: char, from: nat)
    ensures forall j :: from <= j < (match FindCharFrom(s, c, from) case Some(i) => i case None => |s|) ==> s[j] != c
    decreases |s| - from
  {
    if from >= |s| || s[from] == c {
    } else {
      FindCharFromIsFirst(s, c, from + 1);
    }
  }

  lemma FindAt(s: string, c: char, i: nat)
    requires i < |s| && s[i] == c && forall j :: 0 <= j < i ==> s[j] != c
    ensures Find(s, c) == Some(i)
  {
    FindCharFromIs(s, c, 0, i);
  }

  lemma FindIsFirst(s: string, c: char)
    ensures forall j :: 0 <= j < (match Find(s, c) case Some(i) => i case None => |s|) ==> s[j] != c
  {
    FindCharFromIsFirst(s, c, 0);
  }

  lemma {:induction false} RFindCharToIs(s: string, c: char, to: nat, i: nat)
    requires i < to <= |s| && s[i] == c && forall j :: i < j < to ==> s[j] != c
    ensures RFindCharTo(s, c, to) == Some(i)
  {
    if i >= to - 1 {
    } else {
      RFindCharToIs(s, c, to - 1, i);
    }
  }

  lemma {:induction false} RFindCharToIsLast(s: string, c: char, to: nat)
    requires to <= |s|
    ensures forall j :: (match RFindCharTo(s, c, to) case Some(i) => i + 1 case None => 0) <= j < to ==> s[j] != c
  {
    if to == 0 || s[to - 1] == c {
    } else {
      RFindCharToIsLast(s, c, to - 1);
    }
  }

  lemma RFindAt(s: string, c: char, i: nat)
    requires i < |s| && s[i] == c && forall j :: i < j < |s| ==> s[j] != c
    ensures RFind(s, c) == Some(i)
  {
    RFindCharToIs(s, c, |s|, i);
  }

  lemma RFindIsLast(s: string, c: char)
    ensures forall j :: (match RFind(s, c) case Some(i) => i + 1 case None => 0) <= j < |s| ==> s[j] != c
  {
    RFindCharToIsLast(s, c, |s|);
  }

  lemma {:induction false} FindPatternAt(s: string, p: string, from: nat, i: nat)
    requires from <= i && OccursAt(s, p, i) && forall j: nat :: from <= j < i ==> !OccursAt(s, p, j)
    ensures FindFrom(s, p, from) == Some(i)
    decreases i - from
  {
    if from >= i {
    } else {
      FindPatternAt(s, p, from + 1, i);
    }
  }

  lemma NeverOccurs(s: string, p: string, k: nat)
    requires k < |p| && p[k] !in s
    ensures forall j: nat :: !OccursAt(s, p, j)
    ensures FindFrom(s, p, 0) == None
  {
    forall j: nat ensures !OccursAt(s, p, j) {
      if j + |p| <= |s| {
        assert s[j..j + |p|][k] == s[j + k];
      }
    }
    FindFromIsFirst(s, p, 0);
  }

  // ---------------------------------------------------------------- trimming

  // The first character that trimming leaves.
  function FirstChar(s: string): Option<char> {
    if s == [] then None else if IsSpace(s[0]) then FirstChar(s[1..]) else Some(s[0])
  }

  lemma {:induction false} TrimEndKeepsFirst(s: string)
    requires s != [] && !IsSpace(s[0])
    ensures TrimEnd(s) != [] && TrimEnd(s)[0] == s[0]
  {
    if !IsSpace(s[|s| - 1]) {
    } else {
      TrimEndKeepsFirst(s[..|s| - 1]);
    }
  }

  lemma {:induction false} TrimFirst(s: string, c: char)
    ensures StartsWith(Trim(s), c) <==> FirstChar(s) == Some(c)
  {
    if s == [] {
    } else {
      if IsSpace(s[0]) {
        TrimFirst(s[1..], c);
      } else {
        TrimEndKeepsFirst(s);
      }
    }
  }

  lemma {:induction false} FirstCharOfPrefix(s: string, t: string, n: nat)
    requires n <= |s| && n <= |t| && s[..n] == t[..n]
    requires exists i :: 0 <= i < n && !IsSpace(s[i])
    ensures FirstChar(s) == FirstChar(t) && FirstChar(s).Some?
    decreases n
  {
    assert s[0] == s[..n][0] == t[..n][0] == t[0];
    if !IsSpace(s[0]) {
    } else {
      assert s[1..][..n - 1] == s[..n][1..] && t[1..][..n - 1] == t[..n][1..];
      var i :| 0 <= i < n && !IsSpace(s[i]);
      assert s[1..][i - 1] == s[i];
      FirstCharOfPrefix(s[1..], t[1..], n - 1);
    }
  }

  lemma {:induction false} TrimStartSnoc(s: string, c: char)
    requires IsSpace(c)
    ensures TrimEnd(TrimStart(s + [c])) == TrimEnd(TrimStart(s))
  {
    if s == [] {
      assert s + [c] == [c] && [c][1..] == [];
    } else if IsSpace(s[0]) {
      assert (s + [c])[1..] == s[1..] + [c];
      TrimStartSnoc(s[1..], c);
    } else {
      assert (s + [c])[..|s|] == s;
    }
  }

  // Spaces at the end never matter to a trimmed text.
  lemma TrimIgnoresTrailing(s: string, c: char)
    requires IsSpace(c)
    ensures Trim(s + [c]) == Trim(s)
  {
    TrimStartSnoc(s, c);
  }

  lemma {:induction false} TrimEndIsPrefix(s: string)
    ensures TrimEnd(s) <= s && (TrimEnd(s) != [] ==> !IsSpace(TrimEnd(s)[|TrimEnd(s)| - 1]))
  {
    if s == [] || !IsSpace(s[|s| - 1]) {
    } else {
      TrimEndIsPrefix(s[..|s| - 1]);
    }
  }

  lemma {:induction false} TrimStartIsSuffix(s: string)
    ensures |TrimStart(s)| <= |s| && TrimStart(s) == s[|s| - |TrimStart(s)|..]
    ensures TrimStart(s) != [] ==> !IsSpace(TrimStart(s)[0])
  {
    if s == [] || !IsSpace(s[0]) {
    } else {
      TrimStartIsSuffix(s[1..]);
    }
  }

  lemma TrimIsPart(s: string)
    ensures forall c :: c in Trim(s) ==> c in s
  {
    TrimStartIsSuffix(s);
    TrimEndIsPrefix(TrimStart(s));
  }

  lemma TrimFixed(s: string)
    requires s == [] || (!IsSpace(s[0]) && !IsSpace(s[|s| - 1]))
    ensures Trim(s) == s
  {
  }

  // ---------------------------------------------------------------- lines

  function StripReturn(s: string): string {
    if EndsWith(s, '\r') then s[..|s| - 1] else s
  }

  // `str::lines`: the ending of a line is a line feed with an optional carriage return before it;
  // the last line need not have one, and then keeps a carriage return.
  function Lines(text: string): seq<string>
    decreases |text|
  {
    if text == [] then []
    else
      match Find(text, '\n')
      case None => [text]
      case Some(i) => [StripReturn(text[..i])] + Lines(text[i + 1..])
  }

  // `lines.join("\n") + "\n"`
  function Unlines(ls: seq<string>): string {
    if ls == [] then "\n"
    else if |ls| == 1 then ls[0] + "\n"
    else ls[0] + "\n" + Unlines(ls[1..])
  }

  predicate OneLine(s: string) {
    '\n' !in s
  }

  predicate AllOneLine(ls: seq<string>) {
    forall i :: 0 <= i < |ls| ==> OneLine(ls[i])
  }

  lemma {:induction false} LinesAreOneLine(text: string)
    ensures AllOneLine(Lines(text))
    decreases |text|
  {
    FindIsFirst(text, '\n');
    if text == [] || Find(text, '\n').None? {
    } else {
      LinesAreOneLine(text[Find(text, '\n').value + 1..]);
    }
  }

  function Stripped(ls: seq<string>): seq<string> {
    if ls == [] then [] else [StripReturn(ls[0])] + Stripped(ls[1..])
  }

  lemma {:induction false} StrippedIs(ls: seq<string>)
    ensures |Stripped(ls)| == |ls| && forall i :: 0 <= i < |ls| ==> Stripped(ls)[i] == StripReturn(ls[i])
  {
    if ls == [] {
    } else {
      StrippedIs(ls[1..]);
    }
  }

  lemma LinesOfFirst(l: string, rest: string)
    requires OneLine(l)
    ensures Lines(l + "\n" + rest) == [StripReturn(l)] + Lines(rest)
  {
    var t := l + "\n" + rest;
    assert t[..|l|] == l && t[|l|] == '\n' && t[|l| + 1..] == rest;
    FindAt(t, '\n', |l|);
  }

  // Reading joined lines gives them back, each without a carriage return at its end.
  lemma {:induction false} LinesOfUnlines(ls: seq<string>)
    requires ls != [] && AllOneLine(ls)
    ensures Lines(Unlines(ls)) == Stripped(ls)
    decreases |ls|
  {
    if |ls| == 1 {
      LinesOfFirst(ls[0], []);
      assert ls[0] + "\n" + [] == ls[0] + "\n";
      assert Stripped(ls) == [StripReturn(ls[0])] + Stripped([]);
      assert ls[1..] == [];
    } else {
      LinesOfFirst(ls[0], Unlines(ls[1..]));
      LinesOfUnlines(ls[1..]);
    }
  }

  lemma {:induction false} UnlinesLength(ls: seq<string>)
    requires ls != []
    ensures |Unlines(ls)| >= |Unlines(Stripped(ls))|
    ensures |Unlines(ls)| == |Unlines(Stripped(ls))| <==> forall i :: 0 <= i < |ls| ==> !EndsWith(ls[i], '\r')
    decreases |ls|
  {
    if |ls| == 1 {
      assert ls[1..] == [];
    } else {
      UnlinesLength(ls[1..]);
      StrippedIs(ls[1..]);
      assert Stripped(ls)[1..] == Stripped(ls[1..]);
      if forall i :: 0 <= i < |ls| - 1 ==> !EndsWith(ls[1..][i], '\r') {
        if !EndsWith(ls[0], '\r') {
          forall i | 0 <= i < |ls| ensures !EndsWith(ls[i], '\r') {
            assert i > 0 ==> ls[i] == ls[1..][i - 1];
          }
        }
      } else {
        var i :| 0 <= i < |ls| - 1 && EndsWith(ls[1..][i], '\r');
        assert EndsWith(ls[i + 1], '\r');
      }
    }
  }
}
