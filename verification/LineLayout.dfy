/**
 The line protocol spelled out: which characters are escaped, and what stands in which order in a
 line.
 */
module LineLayout {
  import opened Wrappers
  import opened Collections
  import opened Sorting
  import opened Decimal
  import opened LineProtocol

  // ---------------------------------------------------------------- escapes

  // A character alone, or with a backslash in front of it.
  predicate EscapedWhen(piece: string, c: char, escape: bool) {
    if escape then |piece| == 2 && piece[0] == '\\' && piece[1] == c else |piece| == 1 && piece[0] == c
  }

  // In a name or a tag value exactly backslashes, commas, spaces and equals signs are escaped.
  lemma {:induction false} EscapedCharacters(s: string) returns (pieces: seq<string>)
    ensures |pieces| == |s| && Concat(pieces) == EscapedPart(s)
    ensures forall i :: 0 <= i < |s| ==>
              EscapedWhen(pieces[i], s[i], s[i] == '\\' || s[i] == ',' || s[i] == ' ' || s[i] == '=')
  {
    if s == [] {
      pieces := [];
    } else {
      var rest := EscapedCharacters(s[1..]);
      var w := if s[0] in SEPARATORS then ['\\', s[0]] else [s[0]];
      ConcatStep(w, rest);
      pieces := [w] + rest;
    }
  }

  // In a quoted string exactly backslashes and quotes are.
  lemma {:induction false} EscapedStringCharacters(s: string) returns (pieces: seq<string>)
    ensures |pieces| == |s| && Concat(pieces) == EscapedFieldString(s)
    ensures forall i :: 0 <= i < |s| ==> EscapedWhen(pieces[i], s[i], s[i] == '\\' || s[i] == '"')
  {
    if s == [] {
      pieces := [];
    } else {
      var rest := EscapedStringCharacters(s[1..]);
      var w := if s[0] == '\\' || s[0] == '"' then ['\\', s[0]] else [s[0]];
      ConcatStep(w, rest);
      pieces := [w] + rest;
    }
  }

  // ---------------------------------------------------------------- lines

  // The keys of a map, each once, in ascending order.
  ghost predicate Ascending(ks: seq<string>, keys: set<string>) {
    && multiset(ks) == multiset(keys)
    && forall i :: 0 <= i < |ks| - 1 ==> Ascends(ks[i], ks[i + 1])
  }

  lemma SortedKeysAscend(order: seq<string>, keys: set<string>)
    requires Enumerates(order, keys)
    ensures Ascending(Sort(StringLeq, order), keys)
  {
    StringLeqIsTotalOrder();
    SortIs(StringLeq, order);
    var ks := Sort(StringLeq, order);
    forall i: nat | i + 1 < |ks| ensures Ascends(ks[i], ks[i + 1]) {
      SortedPairs(StringLeq, ks, i);
      StringLeqIs(ks[i], ks[i + 1]);
    }
  }

  lemma {:induction false} TagPieces(ks: seq<string>, tags: map<string, string>) returns (pieces: seq<string>)
    requires forall k :: k in ks ==> k in tags
    ensures |pieces| == |ks| && Concat(pieces) == TagsText(ks, tags)
    ensures forall i :: 0 <= i < |ks| ==>
              pieces[i] == [','] + EscapedPart(ks[i]) + ['='] + EscapedPart(tags[ks[i]])
  {
    if ks == [] {
      pieces := [];
    } else {
      var rest := TagPieces(ks[1..], tags);
      var w := [','] + EscapedPart(ks[0]) + ['='] + EscapedPart(tags[ks[0]]);
      ConcatStep(w, rest);
      pieces := [w] + rest;
    }
  }

  lemma {:induction false} FieldPieces(ks: seq<string>, fields: map<string, FieldValue>)
    returns (pieces: seq<string>)
    requires forall k :: k in ks ==> k in fields
    ensures |pieces| == |ks| && Concat(pieces) == FieldsText(ks, fields)
    ensures forall i :: 0 <= i < |ks| ==>
              pieces[i] == EscapedPart(ks[i]) + ['='] + ValueText(fields[ks[i]])
                           + if i + 1 < |ks| then [','] else []
  {
    if ks == [] {
      pieces := [];
    } else {
      var rest := FieldPieces(ks[1..], fields);
      var w := EscapedPart(ks[0]) + ['='] + ValueText(fields[ks[0]]) + if 1 < |ks| then [','] else [];
      ConcatStep(w, rest);
      pieces := [w] + rest;
    }
  }

  /**
   A line is the measurement, a comma and `key=value` for each tag, a space, `key=value` for each
   field with commas between, a space and the timestamp if there is one, and a line feed.  The keys
   ascend.
   */
  lemma LineIs(p: Input) returns (ks: seq<string>, fs: seq<string>, tags: seq<string>, fields: seq<string>)
    requires p.Valid()
    ensures Ascending(ks, p.point.tags.Keys) && Ascending(fs, p.point.fields.Keys)
    ensures |tags| == |ks| && forall i :: 0 <= i < |ks| ==>
              ks[i] in p.point.tags
              && tags[i] == [','] + EscapedPart(ks[i]) + ['='] + EscapedPart(p.point.tags[ks[i]])
    ensures |fields| == |fs| && forall i :: 0 <= i < |fs| ==>
              fs[i] in p.point.fields
              && fields[i] == EscapedPart(fs[i]) + ['='] + ValueText(p.point.fields[fs[i]])
                              + if i + 1 < |fs| then [','] else []
    ensures LineText(p)
            == EscapedPart(p.point.measurement) + Concat(tags) + [' '] + Concat(fields)
               + (if p.point.timestamp.Some? then [' '] + ShowInt(p.point.timestamp.value) else []) + ['\n']
  {
    ks, fs := Sort(StringLeq, p.tagOrder), Sort(StringLeq, p.fieldOrder);
    SortedKeysAscend(p.tagOrder, p.point.tags.Keys);
    SortedKeysAscend(p.fieldOrder, p.point.fields.Keys);
    SortedKeysHold(p.tagOrder, p.point.tags.Keys);
    SortedKeysHold(p.fieldOrder, p.point.fields.Keys);
    tags := TagPieces(ks, p.point.tags);
    fields := FieldPieces(fs, p.point.fields);
  }
}
