/**
  `JSON.parse` undoes `JSON.stringify`: printing a well-formed value, compactly or
  with a gap of spaces, and reading the text back gives the same value.
 */
module JsonRoundTrip {
  import opened Optional
  import opened Json
  import opened JsonPrint
  import opened JsonParse

  /** Text that may follow a printed value without being read as part of it. */
  predicate Stops(rest: string) {
    rest == [] || !ContinuesNumeral(rest[0])
  }

  /** Regrouping a concatenation of five strings to the right. */
  lemma Assoc5(a: string, b: string, c: string, d: string, e: string)
    ensures a + b + c + d + e == a + (b + (c + (d + e)))
  {
  }

  /** Regrouping a concatenation of three strings to the right. */
  lemma Assoc3(a: string, b: string, c: string)
    ensures a + b + c == a + (b + c)
  {
  }

  /** Regrouping a concatenation of four strings to the right. */
  lemma Assoc4(a: string, b: string, c: string, d: string)
    ensures a + b + c + d == a + (b + (c + d))
  {
  }

  /** Moving the first element of `xs` onto the end of `acc`. */
  lemma HeadTail<T>(acc: seq<T>, xs: seq<T>)
    requires |xs| > 0
    ensures acc + [xs[0]] + xs[1..] == acc + xs
    ensures |xs| == 1 ==> acc + [xs[0]] == acc + xs
  {
  }

  predicate AllWs(w: string) {
    forall i :: 0 <= i < |w| ==> IsWs(w[i])
  }

  lemma {:induction false} SkipWsPrefix(w: string, t: string)
    requires AllWs(w)
    ensures SkipWs(w + t) == SkipWs(t)
    decreases |w|
  {
    if |w| > 0 {
      assert (w + t)[0] == w[0];
      assert (w + t)[1..] == w[1..] + t;
      SkipWsPrefix(w[1..], t);
    } else {
      assert w + t == t;
    }
  }

  lemma BreakIsWs(gap: string, depth: nat)
    requires IsGap(gap)
    ensures AllWs(Break(gap, depth))
  {
    if gap != "" {
      RepeatIsWs(gap, depth);
    }
  }

  lemma {:induction false} RepeatIsWs(gap: string, n: nat)
    requires IsGap(gap)
    ensures AllWs(Repeat(gap, n))
  {
    if n > 0 {
      RepeatIsWs(gap, n - 1);
    }
  }

  /** Skipping the whitespace of a line break lands on what follows it. */
  lemma SkipBreak(gap: string, depth: nat, t: string)
    requires IsGap(gap)
    requires t == [] || !IsWs(t[0])
    ensures SkipWs(Break(gap, depth) + t) == t
  {
    BreakIsWs(gap, depth);
    SkipWsPrefix(Break(gap, depth), t);
  }

  /** The line break before a closing bracket is skipped. */
  lemma SkipToClose(gap: string, depth: nat, close: char, rest: string, tail: string)
    requires IsGap(gap) && (close == ']' || close == '}')
    requires tail == Break(gap, depth) + ([close] + rest)
    ensures SkipWs(tail) == [close] + rest
  {
    SkipBreak(gap, depth, [close] + rest);
  }

  /** Whitespace before a value does not change how it is read. */
  lemma ParseValueAfterWs(w: string, t: string)
    requires AllWs(w)
    ensures ParseValue(w + t) == ParseValue(t)
  {
    SkipWsPrefix(w, t);
  }

  /** Reading one escaped character gives the character back. */
  lemma ParseEscapeChar(c: char, t: string, acc: string)
    ensures ParseChars(EscapeChar(c) + t, acc) == ParseChars(t, acc + [c])
  {
    if c == '"' || c == '\\' || c == 8 as char || c == 12 as char || c == '\n' || c == '\r' || c == '\t' {
      ParseShortEscape(c, t, acc);
    } else if (c as int) < 0x20 {
      ParseUnicodeEscape(c, t, acc);
    } else {
      var e := EscapeChar(c) + t;
      assert e[1..] == t;
    }
  }

  lemma ParseShortEscape(c: char, t: string, acc: string)
    requires c == '"' || c == '\\' || c == 8 as char || c == 12 as char || c == '\n' || c == '\r' || c == '\t'
    ensures ParseChars(EscapeChar(c) + t, acc) == ParseChars(t, acc + [c])
  {
    var e := EscapeChar(c) + t;
    assert |EscapeChar(c)| == 2 && EscapeChar(c)[0] == '\\';
    assert e[1] == EscapeChar(c)[1];
    assert e[2..] == t;
  }

  lemma ParseUnicodeEscape(c: char, t: string, acc: string)
    requires (c as int) < 0x20
    requires !(c == 8 as char || c == 12 as char || c == '\n' || c == '\r' || c == '\t')
    ensures ParseChars(EscapeChar(c) + t, acc) == ParseChars(t, acc + [c])
  {
    var n := c as int;
    var e := EscapeChar(c) + t;
    assert EscapeChar(c) == "\\u00" + [HexDigit(n / 16), HexDigit(n % 16)];
    assert e[..6] == "\\u00" + [HexDigit(n / 16), HexDigit(n % 16)];
    assert e[2..6] == "00" + [HexDigit(n / 16), HexDigit(n % 16)];
    assert HexValue(HexDigit(n / 16)) == Some(n / 16);
    assert HexValue(HexDigit(n % 16)) == Some(n % 16);
    assert HexUnit(e[2..6]) == Some(n);
    assert e[6..] == t;
  }

  lemma {:induction false} ParseEscape(s: string, rest: string, acc: string)
    ensures ParseChars(Escape(s) + "\"" + rest, acc) == Some((acc + s, rest))
    decreases |s|
  {
    if |s| == 0 {
      ParseQuote(rest, acc);
      assert acc + s == acc;
    } else {
      var t := Escape(s[1..]) + "\"" + rest;
      calc {
        ParseChars(Escape(s) + "\"" + rest, acc);
        { assert Escape(s) + "\"" + rest == EscapeChar(s[0]) + t; }
        ParseChars(EscapeChar(s[0]) + t, acc);
        { ParseEscapeChar(s[0], t, acc); }
        ParseChars(t, acc + [s[0]]);
        { ParseEscape(s[1..], rest, acc + [s[0]]); }
        Some((acc + [s[0]] + s[1..], rest));
        { assert acc + [s[0]] + s[1..] == acc + s; }
        Some((acc + s, rest));
      }
    }
  }

  lemma ParseQuote(rest: string, acc: string)
    ensures ParseChars("" + "\"" + rest, acc) == Some((acc, rest))
  {
    var e := "" + "\"" + rest;
    assert e[0] == '"' && e[1..] == rest;
  }

  /** A printed value starts with a character that is not whitespace and does not close a bracket. */
  lemma EmitStart(v: Json, gap: string, depth: nat)
    requires WellFormed(v)
    ensures var e := Emit(v, gap, depth); |e| > 0 && !IsWs(e[0]) && e[0] != ']' && e[0] != '}'
  {
    if v.JNum? {
      var n := v.numeral;
      assert ScanInt(n).Some?;
    }
  }

  /** A value starting right away is read by the token reader. */
  lemma ParseValueStart(x: string)
    requires |x| > 0 && !IsWs(x[0])
    ensures ParseValue(x) == ParseToken(x)
  {
  }

  /** Printing then reading a value, with `rest` following it. */
  lemma {:induction false} ParseValueEmit(v: Json, gap: string, depth: nat, rest: string)
    requires WellFormed(v) && IsGap(gap) && Stops(rest)
    ensures ParseValue(Emit(v, gap, depth) + rest) == Some((v, rest))
    decreases v, 0
  {
    var s := Emit(v, gap, depth) + rest;
    EmitStart(v, gap, depth);
    ParseValueStart(s);
    match v
    case JArr(items) =>
      if |items| == 0 {
        EmptyStep(s, '[', ']', rest);
      } else {
        ParseArrayEmit(items, gap, depth, rest);
      }
    case JObj(fields) =>
      if |fields| == 0 {
        EmptyStep(s, '{', '}', rest);
      } else {
        ParseObjectEmit(fields, gap, depth, rest);
      }
    case _ =>
      ParseScalarEmit(v, gap, depth, rest);
  }

  /** `[]` and `{}` read back as empty. */
  lemma EmptyStep(s: string, open: char, close: char, rest: string)
    requires (open == '[' && close == ']') || (open == '{' && close == '}')
    requires s == [open, close] + rest
    ensures ParseToken(s) == Some((if open == '[' then JArr([]) else JObj([]), rest))
  {
    assert s[1..] == [close] + rest;
    assert s[1..][1..] == rest;
  }

  /** Scalars read back as themselves. */
  lemma ParseScalarEmit(v: Json, gap: string, depth: nat, rest: string)
    requires WellFormed(v) && Stops(rest)
    requires !v.JArr? && !v.JObj?
    ensures |Emit(v, gap, depth) + rest| > 0
    ensures ParseScalar(Emit(v, gap, depth) + rest) == Some((v, rest))
  {
    match v
    case JNull => ParseWordEmit("null", JNull, rest);
    case JBool(b) =>
      if b {
        ParseWordEmit("true", v, rest);
      } else {
        ParseWordEmit("false", v, rest);
      }
    case JNum(n) => ParseNumEmit(n, rest);
    case JStr(str) => ParseStrEmit(str, rest);
  }

  lemma ParseWordEmit(word: string, v: Json, rest: string)
    requires (word == "null" && v == JNull) || (word == "true" && v == JBool(true)) || (word == "false" && v == JBool(false))
    ensures ParseScalar(word + rest) == Some((v, rest))
  {
    var s := word + rest;
    assert s[..|word|] == word && s[|word|..] == rest;
  }

  lemma ParseNumEmit(n: string, rest: string)
    requires ValidNumeral(n) && Stops(rest)
    ensures |n + rest| > 0 && ParseScalar(n + rest) == Some((JNum(n), rest))
  {
    var s := n + rest;
    ScanNumeralExtend(n, rest);
    assert ScanInt(n).Some?;
    assert s[0] == n[0];
    assert s[..|n|] == n && s[|n|..] == rest;
  }

  lemma ParseStrEmit(str: string, rest: string)
    ensures ParseScalar(Quote(str) + rest) == Some((JStr(str), rest))
  {
    var s := Quote(str) + rest;
    assert s[0] == '"';
    assert s[1..] == Escape(str) + "\"" + rest;
    ParseEscape(str, rest, "");
    assert "" + str == str;
  }

  /** Printing then reading a non-empty array. */
  lemma {:induction false} ParseArrayEmit(items: seq<Json>, gap: string, depth: nat, rest: string)
    requires |items| > 0 && AllWellFormed(items) && IsGap(gap) && Stops(rest)
    ensures ParseToken(Emit(JArr(items), gap, depth) + rest) == Some((JArr(items), rest))
    decreases items, 3
  {
    var tail := Break(gap, depth) + ("]" + rest);
    var body := EmitItems(items, gap, depth + 1) + tail;
    BracketBody("[", EmitItems(items, gap, depth + 1), Break(gap, depth), "]", rest);
    assert Emit(JArr(items), gap, depth) + rest == "[" + body;
    EmitItemsStart(items, gap, depth + 1, tail);
    ParseItemsEmit(items, [], gap, depth + 1, depth, rest, tail);
    assert [] + items == items;
    ArraySteps(body, Some((JArr(items), rest)));
  }

  /** Printing then reading a non-empty object. */
  lemma {:induction false} ParseObjectEmit(fields: seq<Field>, gap: string, depth: nat, rest: string)
    requires |fields| > 0 && DistinctKeys(fields) && FieldsWellFormed(fields) && IsGap(gap) && Stops(rest)
    ensures ParseToken(Emit(JObj(fields), gap, depth) + rest) == Some((JObj(fields), rest))
    decreases fields, 3
  {
    var tail := Break(gap, depth) + ("}" + rest);
    var body := EmitFields(fields, gap, depth + 1) + tail;
    BracketBody("{", EmitFields(fields, gap, depth + 1), Break(gap, depth), "}", rest);
    assert Emit(JObj(fields), gap, depth) + rest == "{" + body;
    EmitFieldsStart(fields, gap, depth + 1, tail);
    ParseMembersEmit(fields, [], gap, depth + 1, depth, rest, tail);
    assert [] + fields == fields;
    ObjectSteps(body, Some((JObj(fields), rest)));
  }

  /** Regrouping a bracketed text followed by `rest`. */
  lemma BracketBody(open: string, inner: string, brk: string, close: string, rest: string)
    ensures open + inner + brk + close + rest == open + (inner + (brk + (close + rest)))
  {
  }

  lemma ArraySteps(body: string, r: Option<(Json, string)>)
    requires var t := SkipWs(body); |t| > 0 && t[0] != ']'
    requires ParseItems(body, []) == r
    ensures ParseToken("[" + body) == r
  {
    assert ("[" + body)[1..] == body;
  }

  lemma ObjectSteps(body: string, r: Option<(Json, string)>)
    requires var t := SkipWs(body); |t| > 0 && t[0] != '}'
    requires ParseMembers(body, []) == r
    ensures ParseToken("{" + body) == r
  {
    assert ("{" + body)[1..] == body;
  }

  /** After the line break, the members of a printed non-empty array start with a value. */
  lemma EmitItemsStart(items: seq<Json>, gap: string, depth: nat, tail: string)
    requires |items| > 0 && AllWellFormed(items) && IsGap(gap)
    ensures var t := SkipWs(EmitItems(items, gap, depth) + tail); |t| > 0 && t[0] != ']'
  {
    var e := Emit(items[0], gap, depth);
    var after := ItemsAfter(items, gap, depth, tail);
    EmitItemsUnfold(items, gap, depth, tail);
    EmitStart(items[0], gap, depth);
    SkipBreak(gap, depth, e + after);
  }

  lemma EmitFieldsStart(fields: seq<Field>, gap: string, depth: nat, tail: string)
    requires |fields| > 0 && IsGap(gap)
    ensures var t := SkipWs(EmitFields(fields, gap, depth) + tail); |t| > 0 && t[0] != '}'
  {
    var q := Quote(fields[0].key);
    var after := Colon(gap) + (Emit(fields[0].value, gap, depth) + FieldsAfter(fields, gap, depth, tail));
    EmitFieldsUnfold(fields, gap, depth, tail);
    Assoc5(Break(gap, depth), q, Colon(gap), Emit(fields[0].value, gap, depth), FieldsAfter(fields, gap, depth, tail));
    assert (q + after)[0] == '"' by { assert q[0] == '"'; }
    SkipBreak(gap, depth, q + after);
  }

  /** What follows the first member of printed array members. */
  function ItemsAfter(items: seq<Json>, gap: string, depth: nat, tail: string): string
    requires |items| > 0
  {
    if |items| == 1 then tail else "," + (EmitItems(items[1..], gap, depth) + tail)
  }

  function FieldsAfter(fields: seq<Field>, gap: string, depth: nat, tail: string): string
    requires |fields| > 0
  {
    if |fields| == 1 then tail else "," + (EmitFields(fields[1..], gap, depth) + tail)
  }

  lemma EmitItemsUnfold(items: seq<Json>, gap: string, depth: nat, tail: string)
    requires |items| > 0
    ensures EmitItems(items, gap, depth) + tail
      == Break(gap, depth) + (Emit(items[0], gap, depth) + ItemsAfter(items, gap, depth, tail))
  {
    var more := if |items| == 1 then "" else "," + EmitItems(items[1..], gap, depth);
    Assoc4(Break(gap, depth), Emit(items[0], gap, depth), more, tail);
  }

  lemma EmitFieldsUnfold(fields: seq<Field>, gap: string, depth: nat, tail: string)
    requires |fields| > 0
    ensures EmitFields(fields, gap, depth) + tail
      == Break(gap, depth) + Quote(fields[0].key) + Colon(gap) + Emit(fields[0].value, gap, depth)
        + FieldsAfter(fields, gap, depth, tail)
  {
    var more := if |fields| == 1 then "" else "," + EmitFields(fields[1..], gap, depth);
    var head := Break(gap, depth) + Quote(fields[0].key) + Colon(gap) + Emit(fields[0].value, gap, depth);
    assert EmitFields(fields, gap, depth) == head + more;
    Assoc3(head, more, tail);
    MoreTail(fields, gap, depth, tail);
  }

  lemma MoreTail(fields: seq<Field>, gap: string, depth: nat, tail: string)
    requires |fields| > 0
    ensures (if |fields| == 1 then "" else "," + EmitFields(fields[1..], gap, depth)) + tail
      == FieldsAfter(fields, gap, depth, tail)
  {
    if |fields| > 1 {
      Assoc3(",", EmitFields(fields[1..], gap, depth), tail);
    } else {
      assert "" + tail == tail;
    }
  }

  /** What may follow a member inside a printed array or object stops a numeral. */
  lemma AfterStops(gap: string, depth: nat, close: char, rest: string, more: string)
    requires IsGap(gap) && (close == ']' || close == '}')
    ensures Stops(Break(gap, depth) + [close] + rest)
    ensures Stops("," + more)
  {
    var t := Break(gap, depth) + [close] + rest;
    if gap == "" {
      assert t[0] == close;
    } else {
      assert t[0] == '\n';
    }
  }

  /** The steps `ParseItems` takes after reading one member. */
  lemma ParseItemsLast(s: string, acc: seq<Json>, v: Json, after: string, rest: string)
    requires AllWellFormed(acc)
    requires ParseValue(s) == Some((v, after)) && SkipWs(after) == "]" + rest
    ensures ParseItems(s, acc) == Some((JArr(acc + [v]), rest))
  {
    assert ("]" + rest)[1..] == rest;
  }

  lemma ParseItemsMore(s: string, acc: seq<Json>, v: Json, more: string)
    requires AllWellFormed(acc)
    requires ParseValue(s) == Some((v, "," + more))
    ensures ParseItems(s, acc) == ParseItems(more, acc + [v])
  {
    assert SkipWs("," + more) == "," + more;
    assert ("," + more)[1..] == more;
  }

  lemma {:induction false} ParseItemsEmit(items: seq<Json>, acc: seq<Json>, gap: string, depth: nat, outer: nat, rest: string, tail: string)
    requires |items| > 0 && depth == outer + 1
    requires tail == Break(gap, outer) + ("]" + rest)
    requires AllWellFormed(items) && AllWellFormed(acc) && IsGap(gap) && Stops(rest)
    ensures ParseItems(EmitItems(items, gap, depth) + tail, acc)
      == Some((JArr(acc + items), rest))
    decreases items, 2
  {
    if |items| == 1 {
      ParseLastItemEmit(items, acc, gap, depth, outer, rest, tail);
    } else {
      ParseMoreItemsEmit(items, acc, gap, depth, outer, rest, tail);
    }
  }

  lemma {:induction false} ParseLastItemEmit(items: seq<Json>, acc: seq<Json>, gap: string, depth: nat, outer: nat, rest: string, tail: string)
    requires |items| == 1 && depth == outer + 1
    requires tail == Break(gap, outer) + ("]" + rest)
    requires AllWellFormed(items) && AllWellFormed(acc) && IsGap(gap) && Stops(rest)
    ensures ParseItems(EmitItems(items, gap, depth) + tail, acc)
      == Some((JArr(acc + items), rest))
    decreases items, 1
  {
    SkipToClose(gap, outer, ']', rest, tail);
    ReadFirstItem(items, gap, depth, outer, rest, tail);
    LastItemStep(EmitItems(items, gap, depth) + tail, acc, items, gap, depth, tail, rest);
  }

  lemma LastItemStep(s: string, acc: seq<Json>, items: seq<Json>, gap: string, depth: nat, tail: string, rest: string)
    requires |items| == 1 && AllWellFormed(acc)
    requires ParseValue(s) == Some((items[0], ItemsAfter(items, gap, depth, tail)))
    requires SkipWs(tail) == "]" + rest
    ensures ParseItems(s, acc) == Some((JArr(acc + items), rest))
  {
    assert ItemsAfter(items, gap, depth, tail) == tail;
    assert items == [items[0]];
    ParseItemsLast(s, acc, items[0], tail, rest);
  }

  lemma {:induction false} ParseMoreItemsEmit(items: seq<Json>, acc: seq<Json>, gap: string, depth: nat, outer: nat, rest: string, tail: string)
    requires |items| > 1 && depth == outer + 1
    requires tail == Break(gap, outer) + ("]" + rest)
    requires AllWellFormed(items) && AllWellFormed(acc) && IsGap(gap) && Stops(rest)
    ensures ParseItems(EmitItems(items, gap, depth) + tail, acc)
      == Some((JArr(acc + items), rest))
    decreases items, 1
  {
    var s := EmitItems(items, gap, depth) + tail;
    ReadFirstItem(items, gap, depth, outer, rest, tail);
    assert ItemsAfter(items, gap, depth, tail) == "," + (EmitItems(items[1..], gap, depth) + tail);
    HeadTail(acc, items);
    ParseItemsMore(s, acc, items[0], EmitItems(items[1..], gap, depth) + tail);
    ParseItemsEmit(items[1..], acc + [items[0]], gap, depth, outer, rest, tail);
  }

  /** Reading the first of the printed members of an array. */
  lemma {:induction false} ReadFirstItem(items: seq<Json>, gap: string, depth: nat, outer: nat, rest: string, tail: string)
    requires |items| > 0 && depth == outer + 1
    requires tail == Break(gap, outer) + ("]" + rest)
    requires AllWellFormed(items) && IsGap(gap) && Stops(rest)
    ensures ParseValue(EmitItems(items, gap, depth) + tail) == Some((items[0], ItemsAfter(items, gap, depth, tail)))
    decreases items, 0
  {
    var e := Emit(items[0], gap, depth);
    var after := ItemsAfter(items, gap, depth, tail);
    EmitItemsUnfold(items, gap, depth, tail);
    BreakIsWs(gap, depth);
    ParseValueAfterWs(Break(gap, depth), e + after);
    Assoc4(Break(gap, outer), "]", rest, "");
    AfterStops(gap, outer, ']', rest, if |items| == 1 then "" else EmitItems(items[1..], gap, depth) + tail);
    ParseValueEmit(items[0], gap, depth, after);
  }

  /** The steps `ParseMembers` takes after reading one member. */
  lemma ParseMembersLast(s: string, acc: seq<Field>, f: Field, after: string, rest: string)
    requires DistinctKeys(acc) && FieldsWellFormed(acc) && !HasKey(acc, f.key)
    requires ParseMember(s) == Some((f, after)) && SkipWs(after) == "}" + rest
    ensures ParseMembers(s, acc) == Some((JObj(acc + [f]), rest))
  {
    var w := SkipWs(after);
    assert w[0] == '}' && w[1..] == rest;
    assert f == Field(f.key, f.value);
    assert Insert(acc, f.key, f.value) == acc + [f];
  }

  lemma ParseMembersMore(s: string, acc: seq<Field>, f: Field, more: string)
    requires DistinctKeys(acc) && FieldsWellFormed(acc) && !HasKey(acc, f.key)
    requires ParseMember(s) == Some((f, "," + more))
    ensures DistinctKeys(acc + [f]) && FieldsWellFormed(acc + [f])
    ensures ParseMembers(s, acc) == ParseMembers(more, acc + [f])
  {
    InsertWellFormed(acc, f.key, f.value);
    assert Insert(acc, f.key, f.value) == acc + [f];
    assert ("," + more)[0] == ',' && ("," + more)[1..] == more;
    SkipWsStop("," + more);
  }

  /** The keys of `acc` and `fields` together are distinct: neither part repeats a key and `fields[0]` is new. */
  lemma DistinctSplit(acc: seq<Field>, fields: seq<Field>)
    requires |fields| > 0 && DistinctKeys(acc + fields)
    ensures DistinctKeys(acc) && !HasKey(acc, fields[0].key)
    ensures DistinctKeys((acc + [fields[0]]) + fields[1..])
  {
    var all := acc + fields;
    forall i, j | 0 <= i < j < |acc| ensures acc[i].key != acc[j].key {
      assert all[i] == acc[i] && all[j] == acc[j];
    }
    forall i | 0 <= i < |acc| ensures acc[i].key != fields[0].key {
      assert all[i] == acc[i] && all[|acc|] == fields[0];
    }
    assert (acc + [fields[0]]) + fields[1..] == all;
  }

  lemma {:induction false} ParseMembersEmit(fields: seq<Field>, acc: seq<Field>, gap: string, depth: nat, outer: nat, rest: string, tail: string)
    requires |fields| > 0 && depth == outer + 1
    requires tail == Break(gap, outer) + ("}" + rest)
    requires DistinctKeys(acc + fields) && FieldsWellFormed(fields) && FieldsWellFormed(acc)
    requires IsGap(gap) && Stops(rest)
    ensures DistinctKeys(acc) && FieldsWellFormed(acc)
    ensures ParseMembers(EmitFields(fields, gap, depth) + tail, acc)
      == Some((JObj(acc + fields), rest))
    decreases fields, 2
  {
    DistinctSplit(acc, fields);
    if |fields| == 1 {
      ParseLastMemberEmit(fields, acc, gap, depth, outer, rest, tail);
    } else {
      ParseMoreMembersEmit(fields, acc, gap, depth, outer, rest, tail);
    }
  }

  lemma {:induction false} ParseLastMemberEmit(fields: seq<Field>, acc: seq<Field>, gap: string, depth: nat, outer: nat, rest: string, tail: string)
    requires |fields| == 1 && depth == outer + 1
    requires tail == Break(gap, outer) + ("}" + rest)
    requires DistinctKeys(acc) && !HasKey(acc, fields[0].key)
    requires FieldsWellFormed(fields) && FieldsWellFormed(acc) && IsGap(gap) && Stops(rest)
    ensures ParseMembers(EmitFields(fields, gap, depth) + tail, acc)
      == Some((JObj(acc + fields), rest))
    decreases fields, 1
  {
    SkipToClose(gap, outer, '}', rest, tail);
    ReadFirstField(fields, gap, depth, outer, rest, tail);
    LastMemberStep(EmitFields(fields, gap, depth) + tail, acc, fields, gap, depth, tail, rest);
  }

  lemma LastMemberStep(s: string, acc: seq<Field>, fields: seq<Field>, gap: string, depth: nat, tail: string, rest: string)
    requires |fields| == 1 && DistinctKeys(acc) && FieldsWellFormed(acc) && !HasKey(acc, fields[0].key)
    requires ParseMember(s) == Some((fields[0], FieldsAfter(fields, gap, depth, tail)))
    requires SkipWs(tail) == "}" + rest
    ensures ParseMembers(s, acc) == Some((JObj(acc + fields), rest))
  {
    assert FieldsAfter(fields, gap, depth, tail) == tail;
    assert fields == [fields[0]];
    ParseMembersLast(s, acc, fields[0], tail, rest);
  }

  lemma {:induction false} ParseMoreMembersEmit(fields: seq<Field>, acc: seq<Field>, gap: string, depth: nat, outer: nat, rest: string, tail: string)
    requires |fields| > 1 && depth == outer + 1
    requires tail == Break(gap, outer) + ("}" + rest)
    requires DistinctKeys(acc) && !HasKey(acc, fields[0].key) && DistinctKeys((acc + [fields[0]]) + fields[1..])
    requires FieldsWellFormed(fields) && FieldsWellFormed(acc) && IsGap(gap) && Stops(rest)
    ensures ParseMembers(EmitFields(fields, gap, depth) + tail, acc)
      == Some((JObj(acc + fields), rest))
    decreases fields, 1
  {
    ReadFirstField(fields, gap, depth, outer, rest, tail);
    MoreMemberStep(EmitFields(fields, gap, depth) + tail, acc, fields, gap, depth, tail);
    ParseMembersEmit(fields[1..], acc + [fields[0]], gap, depth, outer, rest, tail);
    HeadTail(acc, fields);
  }

  lemma MoreMemberStep(s: string, acc: seq<Field>, fields: seq<Field>, gap: string, depth: nat, tail: string)
    requires |fields| > 1 && DistinctKeys(acc) && FieldsWellFormed(acc) && !HasKey(acc, fields[0].key)
    requires FieldsWellFormed(fields)
    requires ParseMember(s) == Some((fields[0], FieldsAfter(fields, gap, depth, tail)))
    ensures FieldsWellFormed(acc + [fields[0]]) && FieldsWellFormed(fields[1..])
    ensures ParseMembers(s, acc) == ParseMembers(EmitFields(fields[1..], gap, depth) + tail, acc + [fields[0]])
  {
    var more := EmitFields(fields[1..], gap, depth) + tail;
    assert FieldsAfter(fields, gap, depth, tail) == "," + more;
    ParseMembersMore(s, acc, fields[0], more);
    forall i | 0 <= i < |fields| - 1 ensures WellFormed(fields[1..][i].value) {
      assert fields[1..][i] == fields[i + 1];
    }
  }

  /** Reading the first of the printed members of an object. */
  lemma {:induction false} ReadFirstField(fields: seq<Field>, gap: string, depth: nat, outer: nat, rest: string, tail: string)
    requires |fields| > 0 && depth == outer + 1
    requires tail == Break(gap, outer) + ("}" + rest)
    requires FieldsWellFormed(fields) && IsGap(gap) && Stops(rest)
    ensures ParseMember(EmitFields(fields, gap, depth) + tail) == Some((fields[0], FieldsAfter(fields, gap, depth, tail)))
    decreases fields, 0
  {
    var after := FieldsAfter(fields, gap, depth, tail);
    EmitFieldsUnfold(fields, gap, depth, tail);
    Assoc4(Break(gap, outer), "}", rest, "");
    AfterStops(gap, outer, '}', rest, if |fields| == 1 then "" else EmitFields(fields[1..], gap, depth) + tail);
    ParseMemberEmit(fields[0], gap, depth, after);
  }

  /** Reading one printed member. */
  lemma ParseMemberEmit(f: Field, gap: string, depth: nat, after: string)
    requires WellFormed(f.value) && IsGap(gap) && Stops(after)
    ensures ParseMember(Break(gap, depth) + Quote(f.key) + Colon(gap) + Emit(f.value, gap, depth) + after)
      == Some((f, after))
    decreases f, 0
  {
    var e := Emit(f.value, gap, depth);
    ParseValueEmit(f.value, gap, depth, after);
    EmitStart(f.value, gap, depth);
    ParseMemberText(f.key, f.value, e, gap, depth, after);
  }

  /** Reading a member whose value text `e` is known to read back as `v`. */
  lemma ParseMemberText(key: string, v: Json, e: string, gap: string, depth: nat, after: string)
    requires IsGap(gap)
    requires ParseValue(e + after) == Some((v, after))
    ensures ParseMember(Break(gap, depth) + Quote(key) + Colon(gap) + e + after) == Some((Field(key, v), after))
  {
    var u := Colon(gap) + (e + after);
    var t := Quote(key) + u;
    SkipToKey(key, u, gap, depth);
    ReadKey(key, u);
    ReadColon(e + after, v, after, gap);
    ParseMemberSteps(Break(gap, depth) + t, t, key, u, v, after);
    Assoc5(Break(gap, depth), Quote(key), Colon(gap), e, after);
  }

  lemma SkipToKey(key: string, u: string, gap: string, depth: nat)
    requires IsGap(gap)
    ensures var t := Quote(key) + u; |t| > 0 && t[0] == '"' && SkipWs(Break(gap, depth) + t) == t
  {
    var t := Quote(key) + u;
    assert t[0] == '"';
    SkipBreak(gap, depth, t);
  }

  lemma ReadKey(key: string, u: string)
    ensures ParseChars((Quote(key) + u)[1..], "") == Some((key, u))
  {
    assert (Quote(key) + u)[1..] == Escape(key) + "\"" + u;
    ParseEscape(key, u, "");
    assert "" + key == key;
  }

  lemma ReadColon(x: string, v: Json, after: string, gap: string)
    requires ParseValue(x) == Some((v, after))
    ensures var u := Colon(gap) + x; |u| > 0 && u[0] == ':' && SkipWs(u) == u && ParseValue(u[1..]) == Some((v, after))
  {
    var w := if gap == "" then "" else " ";
    ColonShape(gap, w, x);
    SkipWsStop(Colon(gap) + x);
    ParseValueAfterWs(w, x);
  }

  lemma ColonShape(gap: string, w: string, x: string)
    requires w == if gap == "" then "" else " "
    ensures var u := Colon(gap) + x; |u| > 0 && u[0] == ':' && u[1..] == w + x
  {
    assert Colon(gap) == ":" + w;
    assert (":" + w) + x == ":" + (w + x);
  }

  /** Text that starts with a non-blank is left alone by `SkipWs`. */
  lemma SkipWsStop(u: string)
    requires |u| > 0 && !IsWs(u[0])
    ensures SkipWs(u) == u
  {
  }

  /** The steps `ParseMember` takes, one fact each. */
  lemma ParseMemberSteps(s: string, t: string, key: string, u: string, v: Json, after: string)
    requires SkipWs(s) == t && |t| > 0 && t[0] == '"'
    requires ParseChars(t[1..], "") == Some((key, u))
    requires SkipWs(u) == u && |u| > 0 && u[0] == ':'
    requires ParseValue(u[1..]) == Some((v, after))
    ensures ParseMember(s) == Some((Field(key, v), after))
  {
  }

  /** `JSON.parse(JSON.stringify(v, null, gap))` gives `v` back. */
  lemma ParseStringify(v: Json, gap: string)
    requires WellFormed(v) && IsGap(gap)
    ensures Parse(Stringify(v, gap)) == Some(v)
  {
    ParseValueEmit(v, gap, 0, []);
    assert Stringify(v, gap) + [] == Stringify(v, gap);
  }
}
