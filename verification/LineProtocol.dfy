/**
 The InfluxDB line protocol writer of `ecat-data-influxdb`, and a reader for the escaping
 rules it documents.  The reader is written from the format alone: it splits a line at
 unescaped separators and undoes the escapes; the writer is right when the reader gets the
 same points back.
 */
module LineProtocol {
  import opened Wrappers
  import opened Collections
  import opened Sorting
  import opened Decimal

  // The text `Display` gives a 64-bit float: plain decimal notation or one of three names.
  predicate IsFloatText(s: string) {
    || s in {"NaN", "inf", "-inf"}
    || (s != [] && forall c :: c in s ==> '0' <= c <= '9' || c == '.' || c == '-')
  }

  type FloatText = s: string | IsFloatText(s) witness "0"

  datatype FieldValue = Float(text: FloatText) | Int(i: int) | Text(s: string) | Bool(b: bool)

  datatype DataPoint = DataPoint(measurement: string, tags: map<string, string>,
                                 fields: map<string, FieldValue>, timestamp: Option<int>)

  // A point together with the order in which its two hash maps happen to be iterated.
  datatype Input = Input(point: DataPoint, tagOrder: seq<string>, fieldOrder: seq<string>) {
    ghost predicate Valid() {
      Enumerates(tagOrder, point.tags.Keys) && Enumerates(fieldOrder, point.fields.Keys)
    }
  }

  ghost predicate Enumerates(order: seq<string>, keys: set<string>) {
    multiset(order) == multiset(keys)
  }

  // ---------------------------------------------------------------- writer

  const SEPARATORS: set<char> := {'\\', ',', ' ', '='}

  function EscapedPart(s: string): string {
    if s == [] then []
    else (if s[0] in SEPARATORS then ['\\', s[0]] else [s[0]]) + EscapedPart(s[1..])
  }

  function EscapedFieldString(s: string): string {
    if s == [] then []
    else (if s[0] == '\\' || s[0] == '"' then ['\\', s[0]] else [s[0]]) + EscapedFieldString(s[1..])
  }

  method EscapeLinePart(s: string) returns (out: string)
    ensures out == EscapedPart(s)
  {
    out := [];
    for i := 0 to |s|
      invariant out + EscapedPart(s[i..]) == EscapedPart(s)
    {
      var c := s[i];
      assert s[i..][1..] == s[i + 1..];
      ghost var before := out;
      if c == '\\' || c == ',' || c == ' ' || c == '=' {
        out := out + ['\\', c];
        Regroup(before, ['\\', c], EscapedPart(s[i + 1..]));
      } else {
        out := out + [c];
        Regroup(before, [c], EscapedPart(s[i + 1..]));
      }
    }
  }

  method EscapeFieldString(s: string) returns (out: string)
    ensures out == EscapedFieldString(s)
  {
    out := [];
    for i := 0 to |s|
      invariant out + EscapedFieldString(s[i..]) == EscapedFieldString(s)
    {
      var c := s[i];
      assert s[i..][1..] == s[i + 1..];
      ghost var before := out;
      if c == '\\' || c == '"' {
        out := out + ['\\', c];
        Regroup(before, ['\\', c], EscapedFieldString(s[i + 1..]));
      } else {
        out := out + [c];
        Regroup(before, [c], EscapedFieldString(s[i + 1..]));
      }
    }
  }

  function ValueText(v: FieldValue): string {
    match v
    case Float(text) => text
    case Int(i) => ShowInt(i) + "i"
    case Text(s) => "\"" + EscapedFieldString(s) + "\""
    case Bool(b) => if b then "true" else "false"
  }

  function TagsText(keys: seq<string>, tags: map<string, string>): string
    requires forall k :: k in keys ==> k in tags
  {
    if keys == [] then []
    else "," + EscapedPart(keys[0]) + "=" + EscapedPart(tags[keys[0]]) + TagsText(keys[1..], tags)
  }

  function FieldText(k: string, v: FieldValue): string {
    EscapedPart(k) + "=" + ValueText(v)
  }

  function FieldsText(keys: seq<string>, fields: map<string, FieldValue>): string
    requires forall k :: k in keys ==> k in fields
  {
    if keys == [] then []
    else if |keys| == 1 then FieldText(keys[0], fields[keys[0]])
    else FieldText(keys[0], fields[keys[0]]) + "," + FieldsText(keys[1..], fields)
  }

  function TimestampText(ts: Option<int>): string {
    match ts
    case None => []
    case Some(t) => " " + ShowInt(t)
  }

  lemma SortedKeysHold(order: seq<string>, keys: set<string>)
    requires Enumerates(order, keys)
    ensures forall k :: k in Sort(StringLeq, order) <==> k in keys
  {
    StringLeqIsTotalOrder();
    SortIs(StringLeq, order);
    forall k ensures k in Sort(StringLeq, order) <==> k in keys {
      assert k in Sort(StringLeq, order) <==> k in multiset(order);
    }
  }

  function LineText(p: Input): string
    requires p.Valid()
  {
    SortedKeysHold(p.tagOrder, p.point.tags.Keys);
    SortedKeysHold(p.fieldOrder, p.point.fields.Keys);
    EscapedPart(p.point.measurement)
    + TagsText(Sort(StringLeq, p.tagOrder), p.point.tags)
    + " " + FieldsText(Sort(StringLeq, p.fieldOrder), p.point.fields)
    + TimestampText(p.point.timestamp) + "\n"
  }

  function BodyText(ps: seq<Input>): string
    requires forall p :: p in ps ==> p.Valid()
  {
    if ps == [] then [] else LineText(ps[0]) + BodyText(ps[1..])
  }

  method Write(points: seq<Input>) returns (lines: string)
    requires forall p :: p in points ==> p.Valid()
    ensures lines == BodyText(points)
  {
    lines := [];
    for i := 0 to |points|
      invariant lines + BodyText(points[i..]) == BodyText(points)
    {
      var line := LineText(points[i]);
      assert points[i..][1..] == points[i + 1..];
      Regroup(lines, line, BodyText(points[i + 1..]));
      lines := lines + line;
    }
    assert lines + [] == lines;
  }

  // ---------------------------------------------------------------- reader

  // An unquoted part up to the first unescaped separator or line end, and what follows it.
  // A backslash escapes exactly the four separators.
  function ReadPart(t: string): (r: (string, string))
    ensures |r.1| <= |t|
    decreases |t|
  {
    if t == [] then ([], [])
    else if t[0] == '\\' && |t| >= 2 && t[1] in SEPARATORS then
      var r := ReadPart(t[2..]);
      ([t[1]] + r.0, r.1)
    else if t[0] in {',', ' ', '=', '\n'} then ([], t)
    else
      var r := ReadPart(t[1..]);
      ([t[0]] + r.0, r.1)
  }

  // A quoted string after its opening quote; None when the closing quote is missing.
  function ReadQuoted(t: string): (r: Option<(string, string)>)
    ensures r.Some? ==> |r.value.1| < |t|
    decreases |t|
  {
    if t == [] then None
    else if t[0] == '"' then Some(([], t[1..]))
    else
      var escaped := t[0] == '\\' && |t| >= 2 && (t[1] == '\\' || t[1] == '"');
      match ReadQuoted(t[if escaped then 2 else 1..])
      case None => None
      case Some(r) => Some(([if escaped then t[1] else t[0]] + r.0, r.1))
  }

  function Classify(token: string): Option<FieldValue> {
    if token == "true" then Some(Bool(true))
    else if token == "false" then Some(Bool(false))
    else if token != [] && token[|token| - 1] == 'i' then
      match ReadInt(token[..|token| - 1])
      case None => None
      case Some(i) => Some(Int(i))
    else if IsFloatText(token) then Some(Float(token))
    else None
  }

  function ReadValue(t: string): (r: Option<(FieldValue, string)>)
    ensures r.Some? ==> |r.value.1| <= |t|
  {
    if t != [] && t[0] == '"' then
      match ReadQuoted(t[1..])
      case None => None
      case Some(r) => Some((Text(r.0), r.1))
    else
      var r := ReadPart(t);
      match Classify(r.0)
      case None => None
      case Some(v) => Some((v, r.1))
  }

  predicate StartsWith(t: string, c: char) {
    t != [] && t[0] == c
  }

  function ReadTags(t: string, found: map<string, string>): (r: Option<(map<string, string>, string)>)
    ensures r.Some? ==> |r.value.1| <= |t|
    decreases |t|
  {
    if !StartsWith(t, ',') then Some((found, t))
    else
      var k := ReadPart(t[1..]);
      if !StartsWith(k.1, '=') then None
      else
        var v := ReadPart(k.1[1..]);
        ReadTags(v.1, found[k.0 := v.0])
  }

  function ReadFields(t: string, found: map<string, FieldValue>)
    : (r: Option<(map<string, FieldValue>, string)>)
    ensures r.Some? ==> |r.value.1| <= |t|
    decreases |t|
  {
    var k := ReadPart(t);
    if !StartsWith(k.1, '=') then None
    else
      match ReadValue(k.1[1..])
      case None => None
      case Some(v) =>
        if StartsWith(v.1, ',') then ReadFields(v.1[1..], found[k.0 := v.0])
        else Some((found[k.0 := v.0], v.1))
  }

  function ReadTimestamp(t: string): (r: Option<(Option<int>, string)>)
    ensures r.Some? ==> |r.value.1| <= |t|
  {
    if !StartsWith(t, ' ') then Some((None, t))
    else
      var r := ReadPart(t[1..]);
      match ReadInt(r.0)
      case None => None
      case Some(ts) => Some((Some(ts), r.1))
  }

  function ReadLine(t: string): (r: Option<(DataPoint, string)>)
    ensures r.Some? ==> |r.value.1| < |t|
  {
    var m := ReadPart(t);
    match ReadTags(m.1, map[])
    case None => None
    case Some(tags) =>
      if !StartsWith(tags.1, ' ') then None
      else match ReadFields(tags.1[1..], map[])
        case None => None
        case Some(fields) =>
          match ReadTimestamp(fields.1)
          case None => None
          case Some(ts) =>
            if !StartsWith(ts.1, '\n') then None
            else Some((DataPoint(m.0, tags.0, fields.0, ts.0), ts.1[1..]))
  }

  function ReadBody(t: string): Option<seq<DataPoint>>
    decreases |t|
  {
    if t == [] then Some([])
    else
      match ReadLine(t)
      case None => None
      case Some(r) =>
        match ReadBody(r.1)
        case None => None
        case Some(ps) => Some([r.0] + ps)
  }

  // ---------------------------------------------------------------- parts

  // Text at which an unquoted part ends.
  predicate Ends(rest: string) {
    rest == [] || rest[0] == ',' || rest[0] == ' ' || rest[0] == '=' || rest[0] == '\n'
  }

  lemma ReadEscapedChar(c: char, tail: string)
    requires c in SEPARATORS
    ensures ReadPart(['\\', c] + tail) == ([c] + ReadPart(tail).0, ReadPart(tail).1)
  {
    assert (['\\', c] + tail)[2..] == tail;
  }

  lemma ReadPlainChar(c: char, tail: string)
    requires c !in SEPARATORS && c != '\n'
    ensures ReadPart([c] + tail) == ([c] + ReadPart(tail).0, ReadPart(tail).1)
  {
    assert ([c] + tail)[1..] == tail;
  }

  lemma ReadEnd(rest: string)
    requires Ends(rest)
    ensures ReadPart(rest) == ([], rest)
  {
  }

  lemma {:induction false} PartRoundTrip(s: string, rest: string)
    requires Ends(rest)
    ensures '\n' !in s ==> ReadPart(EscapedPart(s) + rest) == (s, rest)
    ensures '\n' in s ==> StartsWith(ReadPart(EscapedPart(s) + rest).1, '\n')
  {
    if s == [] {
      assert EscapedPart(s) + rest == rest;
      ReadEnd(rest);
    } else {
      PartRoundTrip(s[1..], rest);
      assert s == [s[0]] + s[1..];
      var more := EscapedPart(s[1..]);
      if s[0] in SEPARATORS {
        Regroup(['\\', s[0]], more, rest);
        ReadEscapedChar(s[0], more + rest);
      } else {
        Regroup([s[0]], more, rest);
        if s[0] == '\n' {
          ReadEnd([s[0]] + (more + rest));
        } else {
          ReadPlainChar(s[0], more + rest);
        }
      }
    }
  }

  lemma ReadQuotedEscape(c: char, tail: string)
    requires c == '\\' || c == '"'
    requires ReadQuoted(tail).Some?
    ensures ReadQuoted(['\\', c] + tail) == Some(([c] + ReadQuoted(tail).value.0, ReadQuoted(tail).value.1))
  {
    assert (['\\', c] + tail)[2..] == tail;
  }

  lemma ReadQuotedPlain(c: char, tail: string)
    requires c != '\\' && c != '"'
    requires ReadQuoted(tail).Some?
    ensures ReadQuoted([c] + tail) == Some(([c] + ReadQuoted(tail).value.0, ReadQuoted(tail).value.1))
  {
    assert ([c] + tail)[1..] == tail;
  }

  lemma ReadClosingQuote(rest: string)
    ensures ReadQuoted(['"'] + rest) == Some(([], rest))
  {
    assert (['"'] + rest)[1..] == rest;
  }

  lemma {:induction false} QuotedRoundTrip(s: string, rest: string)
    ensures ReadQuoted(EscapedFieldString(s) + (['"'] + rest)) == Some((s, rest))
  {
    var end := ['"'] + rest;
    ReadClosingQuote(rest);
    if s == [] {
      assert EscapedFieldString(s) + end == end;
    } else {
      QuotedRoundTrip(s[1..], rest);
      assert s == [s[0]] + s[1..];
      var more := EscapedFieldString(s[1..]);
      if s[0] == '\\' || s[0] == '"' {
        Regroup(['\\', s[0]], more, end);
        ReadQuotedEscape(s[0], more + end);
      } else {
        Regroup([s[0]], more, end);
        ReadQuotedPlain(s[0], more + end);
      }
    }
  }

  // A bare token contains nothing the readers treat specially.
  predicate Bare(s: string) {
    s != [] && forall c :: c in s ==> c !in SEPARATORS && c != '\n' && c != '"'
  }

  lemma {:induction false} BareIsUnescaped(s: string)
    requires s == [] || Bare(s)
    ensures EscapedPart(s) == s
  {
    if s == [] {
    } else {
      assert s == [s[0]] + s[1..];
      assert forall c :: c in s[1..] ==> c in s;
      BareIsUnescaped(s[1..]);
    }
  }

  lemma TokenRoundTrip(s: string, rest: string)
    requires Bare(s) && Ends(rest)
    ensures ReadPart(s + rest) == (s, rest)
  {
    BareIsUnescaped(s);
    PartRoundTrip(s, rest);
  }

  lemma ClassifyInt(token: string, n: int)
    requires ReadInt(token) == Some(n)
    ensures Classify(token + "i") == Some(Int(n))
  {
    var t := token + "i";
    assert t[|t| - 1] == 'i' && t[..|t| - 1] == token;
  }

  lemma ShownIntIsBare(n: int)
    ensures Bare(ShowInt(n)) && Bare(ShowInt(n) + "i")
  {
    var t := ShowInt(n);
    assert t[0] in t;
  }

  lemma ClassifyFloat(text: FloatText)
    ensures Bare(text) && Classify(text) == Some(Float(text))
  {
    assert text[|text| - 1] in text;
  }

  lemma ClassifyRoundTrip(v: FieldValue)
    requires !v.Text?
    ensures Bare(ValueText(v)) && Classify(ValueText(v)) == Some(v)
  {
    match v
    case Float(text) => ClassifyFloat(text);
    case Int(i) =>
      ReadShownInt(i);
      ShownIntIsBare(i);
      ClassifyInt(ShowInt(i), i);
    case Bool(_) =>
  }

  lemma BareValue(token: string, v: FieldValue, rest: string)
    requires Bare(token) && Ends(rest) && Classify(token) == Some(v)
    ensures ReadValue(token + rest) == Some((v, rest))
  {
    TokenRoundTrip(token, rest);
    assert token[0] in token && (token + rest)[0] == token[0];
  }

  lemma QuotedValue(s: string, rest: string)
    ensures ReadValue(['"'] + (EscapedFieldString(s) + (['"'] + rest))) == Some((Text(s), rest))
  {
    var tail := EscapedFieldString(s) + (['"'] + rest);
    QuotedRoundTrip(s, rest);
    assert (['"'] + tail)[1..] == tail;
  }

  lemma ValueRoundTrip(v: FieldValue, rest: string)
    requires Ends(rest)
    ensures ReadValue(ValueText(v) + rest) == Some((v, rest))
  {
    if v.Text? {
      var q := EscapedFieldString(v.s);
      QuotedValue(v.s, rest);
      assert "\"" + q + "\"" + rest == ['"'] + (q + (['"'] + rest));
    } else {
      ClassifyRoundTrip(v);
      BareValue(ValueText(v), v, rest);
    }
  }

  // ---------------------------------------------------------------- tags, fields, timestamp

  ghost predicate CleanTags(keys: seq<string>, tags: map<string, string>) {
    forall k :: k in keys && k in tags ==> '\n' !in k && '\n' !in tags[k]
  }

  function Picked<V>(keys: seq<string>, m: map<string, V>, found: map<string, V>): map<string, V>
    requires forall k :: k in keys ==> k in m
  {
    if keys == [] then found else Picked(keys[1..], m, found[keys[0] := m[keys[0]]])
  }

  lemma {:induction false} PickedIs<V>(keys: seq<string>, m: map<string, V>, found: map<string, V>)
    requires forall k :: k in keys ==> k in m
    ensures forall k :: k in Picked(keys, m, found) <==> k in found || k in keys
    ensures forall k :: k in keys ==> Picked(keys, m, found)[k] == m[k]
    ensures forall k :: k in found && k !in keys ==> Picked(keys, m, found)[k] == found[k]
  {
    if keys == [] {
    } else {
      assert keys == [keys[0]] + keys[1..];
      PickedIs(keys[1..], m, found[keys[0] := m[keys[0]]]);
    }
  }

  lemma PickedAll<V>(keys: seq<string>, m: map<string, V>)
    requires forall k :: k in keys <==> k in m.Keys
    ensures Picked(keys, m, map[]) == m
  {
    PickedIs(keys, m, map[]);
  }

  // One tag, read in front of any text at which a part may end.
  lemma ReadOneTag(k: string, v: string, more: string, found: map<string, string>)
    requires Ends(more)
    ensures var t := [','] + (EscapedPart(k) + (['='] + (EscapedPart(v) + more)));
            if '\n' in k then ReadTags(t, found) == None
            else if '\n' in v then
              ReadTags(t, found).None? || StartsWith(ReadTags(t, found).value.1, '\n')
            else ReadTags(t, found) == ReadTags(more, found[k := v])
  {
    var value := EscapedPart(v) + more;
    var afterKey := ['='] + value;
    var key := EscapedPart(k) + afterKey;
    assert ([','] + key)[1..] == key;
    assert afterKey[1..] == value;
    PartRoundTrip(k, afterKey);
    PartRoundTrip(v, more);
  }

  lemma RegroupTag(k: string, v: string, tail: string, rest: string)
    ensures "," + k + "=" + v + tail + rest == [','] + (k + (['='] + (v + (tail + rest))))
  {
  }

  lemma {:induction false} TagsRoundTrip(keys: seq<string>, tags: map<string, string>, rest: string,
                                         found: map<string, string>)
    requires forall k :: k in keys ==> k in tags
    requires StartsWith(rest, ' ')
    ensures Ends(TagsText(keys, tags) + rest)
    ensures var r := ReadTags(TagsText(keys, tags) + rest, found);
            if CleanTags(keys, tags) then r == Some((Picked(keys, tags, found), rest))
            else r.None? || StartsWith(r.value.1, '\n')
  {
    if keys == [] {
      assert TagsText(keys, tags) + rest == rest;
    } else {
      var k, v := keys[0], tags[keys[0]];
      assert keys == [k] + keys[1..];
      var tail := TagsText(keys[1..], tags);
      var t := TagsText(keys, tags) + rest;
      RegroupTag(EscapedPart(k), EscapedPart(v), tail, rest);
      TagsRoundTrip(keys[1..], tags, rest, found[k := v]);
      ReadOneTag(k, v, tail + rest, found);
    }
  }

  ghost predicate CleanKeys(keys: seq<string>) {
    forall k :: k in keys ==> '\n' !in k
  }

  // Text at which a field set ends.
  predicate FieldsEnd(rest: string) {
    StartsWith(rest, ' ') || StartsWith(rest, '\n')
  }

  lemma ReadOneField(k: string, v: FieldValue, more: string, found: map<string, FieldValue>)
    requires Ends(more)
    ensures var t := EscapedPart(k) + (['='] + (ValueText(v) + more));
            ReadFields(t, found) ==
            if '\n' in k then None
            else if StartsWith(more, ',') then ReadFields(more[1..], found[k := v])
            else Some((found[k := v], more))
  {
    var value := ValueText(v) + more;
    var afterKey := ['='] + value;
    assert afterKey[1..] == value;
    PartRoundTrip(k, afterKey);
    ValueRoundTrip(v, more);
  }

  lemma RegroupField(k: string, v: string, tail: string, rest: string)
    ensures k + "=" + v + rest == k + (['='] + (v + rest))
    ensures k + "=" + v + "," + tail + rest == k + (['='] + (v + ([','] + (tail + rest))))
  {
  }

  lemma {:induction false} FieldsRoundTrip(keys: seq<string>, fields: map<string, FieldValue>, rest: string,
                                           found: map<string, FieldValue>)
    requires forall k :: k in keys ==> k in fields
    requires keys != [] && FieldsEnd(rest)
    ensures ReadFields(FieldsText(keys, fields) + rest, found)
            == if CleanKeys(keys) then Some((Picked(keys, fields, found), rest)) else None
    decreases |keys|
  {
    var k, v := keys[0], fields[keys[0]];
    assert keys == [k] + keys[1..];
    var found' := found[k := v];
    if |keys| == 1 {
      RegroupField(EscapedPart(k), ValueText(v), [], rest);
      ReadOneField(k, v, rest, found);
      assert keys[1..] == [];
    } else {
      var tail := FieldsText(keys[1..], fields);
      RegroupField(EscapedPart(k), ValueText(v), tail, rest);
      var more := [','] + (tail + rest);
      ReadOneField(k, v, more, found);
      assert more[1..] == tail + rest;
      FieldsRoundTrip(keys[1..], fields, rest, found');
    }
  }

  lemma NoFields(rest: string)
    requires FieldsEnd(rest)
    ensures ReadFields(rest, map[]) == None
  {
  }

  lemma TimestampToken(token: string, n: int, rest: string)
    requires Bare(token) && ReadInt(token) == Some(n) && StartsWith(rest, '\n')
    ensures ReadTimestamp([' '] + (token + rest)) == Some((Some(n), rest))
  {
    assert ([' '] + (token + rest))[1..] == token + rest;
    TokenRoundTrip(token, rest);
  }

  lemma TimestampRoundTrip(ts: Option<int>, rest: string)
    requires StartsWith(rest, '\n')
    ensures ReadTimestamp(TimestampText(ts) + rest) == Some((ts, rest))
    ensures FieldsEnd(TimestampText(ts) + rest)
  {
    if ts.None? {
      assert TimestampText(ts) + rest == rest;
    } else {
      var token := ShowInt(ts.value);
      ShownIntIsBare(ts.value);
      ReadShownInt(ts.value);
      TimestampToken(token, ts.value, rest);
      Regroup([' '], token, rest);
    }
  }

  // ---------------------------------------------------------------- lines

  // What a caller can check beforehand: at least one field, and no line end in a name or tag value.
  ghost predicate Writable(p: DataPoint) {
    && '\n' !in p.measurement
    && (forall k :: k in p.tags ==> '\n' !in k && '\n' !in p.tags[k])
    && (forall k :: k in p.fields ==> '\n' !in k)
    && p.fields != map[]
  }

  // How a line is read, stage by stage, from what each stage leaves.
  lemma ReadLineStages(t: string, m: string, t1: string, tags: map<string, string>, t2: string,
                       fields: Option<map<string, FieldValue>>, t3: string, ts: Option<int>, rest: string)
    requires ReadPart(t) == (m, t1)
    requires ReadTags(t1, map[]) == Some((tags, [' '] + t2))
    requires ReadFields(t2, map[]) == if fields.None? then None else Some((fields.value, t3))
    requires ReadTimestamp(t3) == Some((ts, ['\n'] + rest))
    ensures ReadLine(t) == if fields.None? then None else Some((DataPoint(m, tags, fields.value, ts), rest))
  {
    assert ([' '] + t2)[1..] == t2;
    assert (['\n'] + rest)[1..] == rest;
  }

  lemma RegroupLine(m: string, tags: string, fields: string, ts: string, rest: string)
    ensures m + tags + " " + fields + ts + "\n" + rest
            == m + (tags + ([' '] + (fields + (ts + (['\n'] + rest)))))
  {
    var end := ['\n'] + rest;
    assert m + tags + " " + fields + ts + "\n" + rest == m + tags + " " + fields + ts + end;
    assert m + tags + " " + fields + ts + end == m + tags + " " + fields + (ts + end);
    assert m + tags + " " + fields + (ts + end) == m + tags + " " + (fields + (ts + end));
    assert m + tags + " " + (fields + (ts + end)) == m + tags + ([' '] + (fields + (ts + end)));
  }

  lemma {:induction false} LineRoundTrip(p: Input, rest: string)
    requires p.Valid()
    ensures ReadLine(LineText(p) + rest) == if Writable(p.point) then Some((p.point, rest)) else None
  {
    SortedKeysHold(p.tagOrder, p.point.tags.Keys);
    SortedKeysHold(p.fieldOrder, p.point.fields.Keys);
    SortedLineRoundTrip(p.point, Sort(StringLeq, p.tagOrder), Sort(StringLeq, p.fieldOrder), rest);
  }

  lemma SortedLineRoundTrip(d: DataPoint, tagKeys: seq<string>, fieldKeys: seq<string>, rest: string)
    requires forall k :: k in tagKeys <==> k in d.tags.Keys
    requires forall k :: k in fieldKeys <==> k in d.fields.Keys
    ensures ReadLine(EscapedPart(d.measurement) + TagsText(tagKeys, d.tags) + " "
                     + FieldsText(fieldKeys, d.fields) + TimestampText(d.timestamp) + "\n" + rest)
            == if Writable(d) then Some((d, rest)) else None
  {
    var end := ['\n'] + rest;
    var t3 := TimestampText(d.timestamp) + end;
    var t2 := FieldsText(fieldKeys, d.fields) + t3;
    var t1 := TagsText(tagKeys, d.tags) + ([' '] + t2);
    var t := EscapedPart(d.measurement) + t1;
    RegroupLine(EscapedPart(d.measurement), TagsText(tagKeys, d.tags), FieldsText(fieldKeys, d.fields),
                TimestampText(d.timestamp), rest);
    TagsRoundTrip(tagKeys, d.tags, [' '] + t2, map[]);
    PartRoundTrip(d.measurement, t1);
    TimestampRoundTrip(d.timestamp, end);
    var fields := FieldsStage(d.fields, fieldKeys, t3);
    PickedAll(tagKeys, d.tags);
    if '\n' !in d.measurement && CleanTags(tagKeys, d.tags) {
      ReadLineStages(t, d.measurement, t1, d.tags, t2, fields, t3, d.timestamp, rest);
    }
  }

  lemma FieldsStage(fields: map<string, FieldValue>, keys: seq<string>, t3: string)
    returns (r: Option<map<string, FieldValue>>)
    requires forall k :: k in keys <==> k in fields.Keys
    requires FieldsEnd(t3)
    ensures r == if fields != map[] && CleanKeys(keys) then Some(fields) else None
    ensures ReadFields(FieldsText(keys, fields) + t3, map[]) == if r.None? then None else Some((r.value, t3))
  {
    if keys == [] {
      assert FieldsText(keys, fields) + t3 == t3;
      NoFields(t3);
      assert fields == map[];
      r := None;
    } else {
      assert keys[0] in fields;
      FieldsRoundTrip(keys, fields, t3, map[]);
      PickedAll(keys, fields);
      r := if CleanKeys(keys) then Some(fields) else None;
    }
  }

  function PointsOf(ps: seq<Input>): seq<DataPoint> {
    seq(|ps|, i requires 0 <= i < |ps| => ps[i].point)
  }

  lemma PointsOfStep(ps: seq<Input>)
    requires ps != []
    ensures PointsOf(ps) == [ps[0].point] + PointsOf(ps[1..])
  {
  }

  lemma LineIsNotEmpty(p: Input)
    requires p.Valid()
    ensures LineText(p) != []
  {
  }

  // One line in front of a body.
  lemma ReadBodyStep(line: string, more: string, d: DataPoint, writable: bool)
    requires line != []
    requires ReadLine(line + more) == if writable then Some((d, more)) else None
    ensures ReadBody(line + more)
            == if !writable || ReadBody(more).None? then None else Some([d] + ReadBody(more).value)
  {
  }

  ghost predicate AllWritable(ps: seq<Input>) {
    forall i :: 0 <= i < |ps| ==> Writable(ps[i].point)
  }

  lemma AllWritableStep(ps: seq<Input>)
    requires ps != []
    ensures AllWritable(ps) <==> Writable(ps[0].point) && AllWritable(ps[1..])
  {
    var tail := ps[1..];
    if AllWritable(tail) && Writable(ps[0].point) {
      forall i | 0 <= i < |ps| ensures Writable(ps[i].point) {
        assert i > 0 ==> ps[i] == tail[i - 1];
      }
    }
  }

  // Reading what was written gives the same points back exactly when every point is writable;
  // otherwise the text is not a line protocol body at all.
  lemma {:induction false} BodyRoundTrip(ps: seq<Input>)
    requires forall p :: p in ps ==> p.Valid()
    ensures ReadBody(BodyText(ps)) == if AllWritable(ps) then Some(PointsOf(ps)) else None
  {
    if ps == [] {
      assert BodyText(ps) == [] && PointsOf(ps) == [];
    } else {
      PointsOfStep(ps);
      AllWritableStep(ps);
      var line, more := LineText(ps[0]), BodyText(ps[1..]);
      LineRoundTrip(ps[0], more);
      LineIsNotEmpty(ps[0]);
      ReadBodyStep(line, more, ps[0].point, Writable(ps[0].point));
      BodyRoundTrip(ps[1..]);
    }
  }

  // The iteration order of the hash maps never shows in the text.
  lemma TextIgnoresIterationOrder(p: Input, q: Input)
    requires p.Valid() && q.Valid() && p.point == q.point
    ensures LineText(p) == LineText(q)
  {
    StringLeqIsTotalOrder();
    SortIsNormalForm(StringLeq, p.tagOrder, q.tagOrder);
    SortIsNormalForm(StringLeq, p.fieldOrder, q.fieldOrder);
  }
}
