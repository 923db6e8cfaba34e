/**
  `JSON.stringify(value, null, gap)`: the compact form when `gap` is empty, and
  the indented form (one member per line, `gap` repeated once per nesting level,
  `": "` after keys) otherwise. Empty arrays and objects print as `[]` and `{}`.
 */
module JsonPrint {
  import opened Json

  /** The indentation JavaScript uses for `JSON.stringify(v, null, 2)`. */
  const Indent2: string := "  "

  /** A gap made only of spaces, as a numeric `space` argument produces. */
  predicate IsGap(gap: string) {
    forall i :: 0 <= i < |gap| ==> gap[i] == ' '
  }

  function Repeat(gap: string, n: nat): string {
    if n == 0 then "" else gap + Repeat(gap, n - 1)
  }

  /** What separates a bracket from a member at nesting level `depth`. */
  function Break(gap: string, depth: nat): string {
    if gap == "" then "" else "\n" + Repeat(gap, depth)
  }

  /** What separates a key from its value. */
  function Colon(gap: string): string {
    if gap == "" then ":" else ": "
  }

  function HexDigit(d: nat): char
    requires d < 16
  {
    "0123456789abcdef"[d]
  }

  /** How `JSON.stringify` writes one character of a string: quote and backslash
      are escaped, control characters get a short escape or a `\u00xx` escape,
      everything else is written as it is. */
  function EscapeChar(c: char): string {
    if c == '"' then "\\\""
    else if c == '\\' then "\\\\"
    else if c == 8 as char then "\\b"
    else if c == 12 as char then "\\f"
    else if c == '\n' then "\\n"
    else if c == '\r' then "\\r"
    else if c == '\t' then "\\t"
    else if (c as int) < 0x20 then "\\u00" + [HexDigit(c as int / 16), HexDigit(c as int % 16)]
    else [c]
  }

  function Escape(s: string): string {
    if |s| == 0 then "" else EscapeChar(s[0]) + Escape(s[1..])
  }

  function Quote(s: string): string {
    "\"" + Escape(s) + "\""
  }

  function Emit(v: Json, gap: string, depth: nat): string
    decreases v, 0
  {
    match v
    case JNull => "null"
    case JBool(b) => if b then "true" else "false"
    case JNum(n) => n
    case JStr(s) => Quote(s)
    case JArr(items) =>
      if |items| == 0 then "[]"
      else "[" + EmitItems(items, gap, depth + 1) + Break(gap, depth) + "]"
    case JObj(fields) =>
      if |fields| == 0 then "{}"
      else "{" + EmitFields(fields, gap, depth + 1) + Break(gap, depth) + "}"
  }

  /** The members of a non-empty array, each on its own line at `depth`, comma-separated. */
  function EmitItems(items: seq<Json>, gap: string, depth: nat): string
    decreases items, 1
  {
    if |items| == 0 then ""
    else
      Break(gap, depth) + Emit(items[0], gap, depth)
      + (if |items| == 1 then "" else "," + EmitItems(items[1..], gap, depth))
  }

  function EmitFields(fields: seq<Field>, gap: string, depth: nat): string
    decreases fields, 1
  {
    if |fields| == 0 then ""
    else
      Break(gap, depth) + Quote(fields[0].key) + Colon(gap) + Emit(fields[0].value, gap, depth)
      + (if |fields| == 1 then "" else "," + EmitFields(fields[1..], gap, depth))
  }

  /** `JSON.stringify(v, null, gap)`: a list is printed between brackets, an object
      between braces and a string between quotes. */
  function Stringify(v: Json, gap: string): (text: string)
    ensures v.JArr? ==> |text| >= 2 && text[0] == '[' && text[|text| - 1] == ']'
    ensures v.JObj? ==> |text| >= 2 && text[0] == '{' && text[|text| - 1] == '}'
    ensures v.JStr? ==> |text| >= 2 && text[0] == '"' && text[|text| - 1] == '"'
    ensures v == JArr([]) ==> text == "[]"
  {
    Emit(v, gap, 0)
  }
}
