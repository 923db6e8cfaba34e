/**
  `JSON.parse`: a recursive-descent reader over the text. Each reader takes the
  remaining input and answers the value it read and the input left after it,
  or `None` where `JSON.parse` throws a `SyntaxError`.

  Duplicate keys behave as in JavaScript: the member keeps its first position and
  takes the last value. A `\u` escape naming a lone surrogate is refused, because
  a string here holds Unicode scalar values only.
 */
module JsonParse {
  import opened Optional
  import opened Json
  import Text

  /** Drops leading whitespace. */
  function SkipWs(s: string): (r: string)
    ensures |r| <= |s| && r == s[|s| - |r|..]
    ensures r == [] || !IsWs(r[0])
  {
    if |s| > 0 && IsWs(s[0]) then SkipWs(s[1..]) else s
  }

  /** The value of one hexadecimal digit, either case. */
  function HexValue(c: char): (r: Option<nat>)
    ensures r.Some? ==> r.value < 16
  {
    if '0' <= c <= '9' then Some(c as int - '0' as int)
    else if 'a' <= c <= 'f' then Some(c as int - 'a' as int + 10)
    else if 'A' <= c <= 'F' then Some(c as int - 'A' as int + 10)
    else None
  }

  /** The code unit written by the four hex digits `s[..4]`. */
  function HexUnit(s: string): (r: Option<nat>)
    requires |s| >= 4
    ensures r.Some? ==> r.value < 0x10000
  {
    match (HexValue(s[0]), HexValue(s[1]), HexValue(s[2]), HexValue(s[3]))
    case (Some(a), Some(b), Some(c), Some(d)) => Some(((a * 16 + b) * 16 + c) * 16 + d)
    case _ => None
  }

  /** The character a one-letter escape stands for. */
  function ShortEscape(c: char): Option<char> {
    if c == '"' then Some('"')
    else if c == '\\' then Some('\\')
    else if c == '/' then Some('/')
    else if c == 'b' then Some(8 as char)
    else if c == 'f' then Some(12 as char)
    else if c == 'n' then Some('\n')
    else if c == 'r' then Some('\r')
    else if c == 't' then Some('\t')
    else None
  }

  /** The characters of a string literal after its opening quote, up to and
      including the closing quote; `acc` holds what was read so far. */
  function ParseChars(s: string, acc: string): (r: Option<(string, string)>)
    ensures r.Some? ==> |r.value.1| < |s|
    decreases |s|
  {
    if |s| == 0 then None
    else if s[0] == '"' then Some((acc, s[1..]))
    else if s[0] == '\\' then
      if |s| < 2 then None
      else if s[1] == 'u' then
        if |s| < 6 then None
        else
          match HexUnit(s[2..6])
          case None => None
          case Some(u) =>
            if 0xD800 <= u < 0xDC00 then
              if |s| >= 12 && s[6] == '\\' && s[7] == 'u' then
                match HexUnit(s[8..12])
                case None => None
                case Some(l) =>
                  if 0xDC00 <= l < 0xE000 then
                    ParseChars(s[12..], acc + [(0x10000 + (u - 0xD800) * 0x400 + (l - 0xDC00)) as char])
                  else None
              else None
            else if 0xDC00 <= u < 0xE000 then None
            else ParseChars(s[6..], acc + [u as char])
      else
        match ShortEscape(s[1])
        case None => None
        case Some(c) => ParseChars(s[2..], acc + [c])
    else if (s[0] as int) < 0x20 then None
    else ParseChars(s[1..], acc + [s[0]])
  }

  /** One value, after optional leading whitespace. */
  function ParseValue(s: string): (r: Option<(Json, string)>)
    ensures r.Some? ==> |r.value.1| < |s| && WellFormed(r.value.0)
    decreases |s|, 1
  {
    ParseToken(SkipWs(s))
  }

  /** One value starting right at `t[0]`. */
  function ParseToken(t: string): (r: Option<(Json, string)>)
    ensures r.Some? ==> |r.value.1| < |t| && WellFormed(r.value.0)
    decreases |t|, 0
  {
    if |t| == 0 then None
    else if t[0] == '[' then ParseArrayRest(t[1..])
    else if t[0] == '{' then ParseObjectRest(t[1..])
    else ParseScalar(t)
  }

  /** A literal, a string or a number starting at `t[0]`. */
  function ParseScalar(t: string): (r: Option<(Json, string)>)
    requires |t| > 0
    ensures r.Some? ==> |r.value.1| < |t| && WellFormed(r.value.0)
  {
    if t[0] == 'n' then
      if |t| >= 4 && t[..4] == "null" then Some((JNull, t[4..])) else None
    else if t[0] == 't' then
      if |t| >= 4 && t[..4] == "true" then Some((JBool(true), t[4..])) else None
    else if t[0] == 'f' then
      if |t| >= 5 && t[..5] == "false" then Some((JBool(false), t[5..])) else None
    else if t[0] == '"' then
      match ParseChars(t[1..], "")
      case None => None
      case Some((str, rest)) => Some((JStr(str), rest))
    else
      match ScanNumeral(t)
      case None => None
      case Some(k) =>
        ScanNumeralPrefix(t, k);
        Some((JNum(t[..k]), t[k..]))
  }

  /** An array after its `[`. */
  function ParseArrayRest(s: string): (r: Option<(Json, string)>)
    ensures r.Some? ==> |r.value.1| < |s| && WellFormed(r.value.0)
    decreases |s|, 3
  {
    var t := SkipWs(s);
    if |t| > 0 && t[0] == ']' then Some((JArr([]), t[1..]))
    else ParseItems(s, [])
  }

  /** The members of a non-empty array after `[` or `,`; `acc` holds the members read so far. */
  function ParseItems(s: string, acc: seq<Json>): (r: Option<(Json, string)>)
    requires AllWellFormed(acc)
    ensures r.Some? ==> |r.value.1| < |s| && WellFormed(r.value.0)
    decreases |s|, 2
  {
    match ParseValue(s)
    case None => None
    case Some((v, rest)) =>
      var t := SkipWs(rest);
      PushWellFormed(acc, v);
      if |t| == 0 then None
      else if t[0] == ',' then ParseItems(t[1..], acc + [v])
      else if t[0] == ']' then Some((JArr(acc + [v]), t[1..]))
      else None
  }

  /** An object after its `{`. */
  function ParseObjectRest(s: string): (r: Option<(Json, string)>)
    ensures r.Some? ==> |r.value.1| < |s| && WellFormed(r.value.0)
    decreases |s|, 4
  {
    var t := SkipWs(s);
    if |t| > 0 && t[0] == '}' then Some((JObj([]), t[1..]))
    else ParseMembers(s, [])
  }

  /** One `"key": value` member, after optional leading whitespace. */
  function ParseMember(s: string): (r: Option<(Field, string)>)
    ensures r.Some? ==> |r.value.1| < |s| && WellFormed(r.value.0.value)
    decreases |s|, 2
  {
    var t := SkipWs(s);
    if |t| == 0 || t[0] != '"' then None
    else
      match ParseChars(t[1..], "")
      case None => None
      case Some((key, afterKey)) =>
        var u := SkipWs(afterKey);
        if |u| == 0 || u[0] != ':' then None
        else
          match ParseValue(u[1..])
          case None => None
          case Some((v, rest)) => Some((Field(key, v), rest))
  }

  /** The members of a non-empty object after `{` or `,`; `acc` holds the members read so far. */
  function ParseMembers(s: string, acc: seq<Field>): (r: Option<(Json, string)>)
    requires DistinctKeys(acc) && FieldsWellFormed(acc)
    ensures r.Some? ==> |r.value.1| < |s| && WellFormed(r.value.0)
    decreases |s|, 3
  {
    match ParseMember(s)
    case None => None
    case Some((f, rest)) =>
      var w := SkipWs(rest);
      InsertWellFormed(acc, f.key, f.value);
      var acc' := Insert(acc, f.key, f.value);
      if |w| == 0 then None
      else if w[0] == ',' then ParseMembers(w[1..], acc')
      else if w[0] == '}' then Some((JObj(acc'), w[1..]))
      else None
  }

  /** `JSON.parse(text)`: one value, surrounded by optional whitespace only. */
  function Parse(text: string): (r: Option<Json>)
    ensures r.Some? ==> WellFormed(r.value)
  {
    match ParseValue(text)
    case None => None
    case Some((v, rest)) => if SkipWs(rest) == [] then Some(v) else None
  }
}
