/**
  JSON values as `JSON.parse` produces them and `JSON.stringify` consumes them,
  together with JavaScript truthiness of such values and the property lookup the
  handler performs on a parsed request body.

  A number is kept as its numeral (the text it was written as); the conversion to
  an IEEE double is not modelled. An object keeps its members in insertion order.
 */
module Json {
  import opened Optional
  import Text

  datatype Json =
    | JNull
    | JBool(b: bool)
    | JNum(numeral: string)
    | JStr(s: string)
    | JArr(items: seq<Json>)
    | JObj(fields: seq<Field>)

  datatype Field = Field(key: string, value: Json)

  /** The four whitespace characters JSON allows between tokens. */
  predicate IsWs(c: char) {
    c == ' ' || c == '\t' || c == '\n' || c == '\r'
  }

  /** Characters that can continue a numeral once its integer part is read. */
  predicate ContinuesNumeral(c: char) {
    Text.IsDigit(c) || c == '.' || c == 'e' || c == 'E'
  }

  /** The end of the longest run of digits in `s` starting at `i`. */
  function DigitsFrom(s: string, i: nat): (j: nat)
    requires i <= |s|
    ensures i <= j <= |s|
    ensures forall k :: i <= k < j ==> Text.IsDigit(s[k])
    ensures j < |s| ==> !Text.IsDigit(s[j])
    decreases |s| - i
  {
    if i < |s| && Text.IsDigit(s[i]) then DigitsFrom(s, i + 1) else i
  }

  /** Where the integer part of a numeral starting at 0 ends:
      `-`? then `0` or a non-zero digit followed by digits. */
  function ScanInt(s: string): Option<nat>
  {
    var a := if 0 < |s| && s[0] == '-' then 1 else 0;
    if a < |s| && s[a] == '0' then Some(a + 1)
    else if a < |s| && '1' <= s[a] <= '9' then Some(DigitsFrom(s, a + 1))
    else None
  }

  /** An optional fraction `.` digit+ starting at `b`. */
  function ScanFrac(s: string, b: nat): Option<nat>
    requires b <= |s|
  {
    if b < |s| && s[b] == '.' then
      var c := DigitsFrom(s, b + 1);
      if c == b + 1 then None else Some(c)
    else Some(b)
  }

  /** An optional exponent (`e`|`E`) (`+`|`-`)? digit+ starting at `c`. */
  function ScanExp(s: string, c: nat): Option<nat>
    requires c <= |s|
  {
    if c < |s| && (s[c] == 'e' || s[c] == 'E') then
      var d := if c + 1 < |s| && (s[c + 1] == '+' || s[c + 1] == '-') then c + 2 else c + 1;
      var e := DigitsFrom(s, d);
      if e == d then None else Some(e)
    else Some(c)
  }

  /** The length of the longest JSON numeral at the start of `s`, if any. */
  function ScanNumeral(s: string): (r: Option<nat>)
    ensures r.Some? ==> 0 < r.value <= |s|
  {
    match ScanInt(s)
    case None => None
    case Some(b) =>
      match ScanFrac(s, b)
      case None => None
      case Some(c) => ScanExp(s, c)
  }

  /** `n` is exactly one JSON numeral. */
  predicate ValidNumeral(n: string) {
    ScanNumeral(n) == Some(|n|)
  }

  /** Cutting the input right after a digit run does not change where the run ends. */
  lemma {:induction false} DigitsFromPrefix(s: string, m: nat, i: nat)
    requires i <= m <= |s| && DigitsFrom(s, i) <= m
    ensures DigitsFrom(s[..m], i) == DigitsFrom(s, i)
    decreases |s| - i
  {
    if i < m && Text.IsDigit(s[i]) {
      DigitsFromPrefix(s, m, i + 1);
    }
  }

  /** Text that does not start with a digit does not extend a digit run. */
  lemma {:induction false} DigitsFromExtend(n: string, rest: string, i: nat)
    requires i <= |n|
    requires rest == [] || !Text.IsDigit(rest[0])
    ensures DigitsFrom(n + rest, i) == DigitsFrom(n, i)
    decreases |n| - i
  {
    if i < |n| && Text.IsDigit(n[i]) {
      DigitsFromExtend(n, rest, i + 1);
    }
  }

  /** A numeral scanned off the front of `s` is a valid numeral on its own. */
  lemma ScanNumeralPrefix(s: string, k: nat)
    requires ScanNumeral(s) == Some(k)
    ensures ValidNumeral(s[..k])
  {
    var b := ScanInt(s).value;
    var c := ScanFrac(s, b).value;
    ScanIntPrefix(s, k);
    ScanFracPrefix(s, k, b);
    ScanExpPrefix(s, k, c);
  }

  lemma ScanIntPrefix(s: string, k: nat)
    requires ScanInt(s).Some? && ScanInt(s).value <= k <= |s|
    ensures ScanInt(s[..k]) == ScanInt(s)
  {
    var t := s[..k];
    var a := if 0 < |s| && s[0] == '-' then 1 else 0;
    assert t[0] == s[0];
    assert t[a] == s[a];
    if s[a] != '0' {
      DigitsFromPrefix(s, k, a + 1);
    }
  }

  lemma ScanFracPrefix(s: string, k: nat, b: nat)
    requires b <= |s| && ScanFrac(s, b).Some? && ScanFrac(s, b).value <= k <= |s|
    ensures ScanFrac(s[..k], b) == ScanFrac(s, b)
  {
    var t := s[..k];
    if b < |s| && s[b] == '.' {
      assert t[b] == '.';
      DigitsFromPrefix(s, k, b + 1);
    } else if b < k {
      assert t[b] == s[b];
    }
  }

  lemma ScanExpPrefix(s: string, k: nat, c: nat)
    requires c <= |s| && ScanExp(s, c).Some? && ScanExp(s, c).value <= k <= |s|
    ensures ScanExp(s[..k], c) == ScanExp(s, c)
  {
    var t := s[..k];
    if c < |s| && (s[c] == 'e' || s[c] == 'E') {
      var d := if c + 1 < |s| && (s[c + 1] == '+' || s[c + 1] == '-') then c + 2 else c + 1;
      assert t[c] == s[c];
      assert d < k;
      if c + 1 < |s| {
        assert t[c + 1] == s[c + 1];
      }
      DigitsFromPrefix(s, k, d);
    } else if c < k {
      assert t[c] == s[c];
    }
  }

  /** A valid numeral followed by text that cannot continue it scans to its own length. */
  lemma ScanNumeralExtend(n: string, rest: string)
    requires ValidNumeral(n)
    requires rest == [] || !ContinuesNumeral(rest[0])
    ensures ScanNumeral(n + rest) == Some(|n|)
  {
    var b := ScanInt(n).value;
    var c := ScanFrac(n, b).value;
    ScanIntExtend(n, rest);
    ScanFracExtend(n, rest, b);
    ScanExpExtend(n, rest, c);
  }

  lemma ScanIntExtend(n: string, rest: string)
    requires ScanInt(n).Some?
    requires rest == [] || !ContinuesNumeral(rest[0])
    ensures ScanInt(n + rest) == ScanInt(n)
  {
    var s := n + rest;
    var a := if 0 < |n| && n[0] == '-' then 1 else 0;
    assert s[0] == n[0];
    assert s[a] == n[a];
    if n[a] != '0' {
      DigitsFromExtend(n, rest, a + 1);
    }
  }

  lemma ScanFracExtend(n: string, rest: string, b: nat)
    requires b <= |n| && ScanFrac(n, b).Some?
    requires rest == [] || !ContinuesNumeral(rest[0])
    ensures ScanFrac(n + rest, b) == ScanFrac(n, b)
  {
    var s := n + rest;
    if b < |n| {
      assert s[b] == n[b];
      if n[b] == '.' {
        DigitsFromExtend(n, rest, b + 1);
      }
    } else if b < |s| {
      assert s[b] == rest[0];
    }
  }

  lemma ScanExpExtend(n: string, rest: string, c: nat)
    requires c <= |n| && ScanExp(n, c) == Some(|n|)
    requires rest == [] || !ContinuesNumeral(rest[0])
    ensures ScanExp(n + rest, c) == Some(|n|)
  {
    var s := n + rest;
    if c < |n| {
      assert s[c] == n[c];
      if n[c] == 'e' || n[c] == 'E' {
        var d := if c + 1 < |n| && (n[c + 1] == '+' || n[c + 1] == '-') then c + 2 else c + 1;
        assert c + 1 < |n|;
        assert s[c + 1] == n[c + 1];
        DigitsFromExtend(n, rest, d);
      }
    } else if c < |s| {
      assert s[c] == rest[0];
    }
  }

  /** Every digit before the exponent is `0`, so the number is zero (or minus zero). */
  predicate ZeroMantissa(n: string)
    decreases |n|
  {
    |n| == 0 || n[0] == 'e' || n[0] == 'E' || (!('1' <= n[0] <= '9') && ZeroMantissa(n[1..]))
  }

  /** Position `i` of the numeral `n` holds a non-zero digit of the mantissa: no
      exponent marker comes before it. */
  predicate MantissaDigitAt(n: string, i: nat) {
    i < |n| && '1' <= n[i] <= '9' && forall j :: 0 <= j < i ==> n[j] != 'e' && n[j] != 'E'
  }

  /** The mantissa is all zeros exactly when no position holds a non-zero mantissa digit. */
  lemma {:induction false} ZeroMantissaDigits(n: string)
    ensures ZeroMantissa(n) <==> !exists i :: 0 <= i < |n| && MantissaDigitAt(n, i)
    decreases |n|
  {
    if |n| > 0 {
      var t := n[1..];
      ZeroMantissaDigits(t);
      if n[0] == 'e' || n[0] == 'E' {
        forall i | 0 <= i < |n| ensures !MantissaDigitAt(n, i) {
          if 0 < i {
            assert !(n[0] != 'e' && n[0] != 'E');
          }
        }
      } else if '1' <= n[0] <= '9' {
        assert MantissaDigitAt(n, 0);
      } else {
        forall i | 0 <= i < |t| ensures MantissaDigitAt(n, i + 1) <==> MantissaDigitAt(t, i) {
          assert n[i + 1] == t[i];
          if MantissaDigitAt(t, i) {
            forall j | 0 <= j < i + 1 ensures n[j] != 'e' && n[j] != 'E' {
              if 0 < j {
                assert n[j] == t[j - 1];
              }
            }
          }
          if MantissaDigitAt(n, i + 1) {
            forall j | 0 <= j < i ensures t[j] != 'e' && t[j] != 'E' {
              assert t[j] == n[j + 1];
            }
          }
        }
        if exists i :: 0 <= i < |n| && MantissaDigitAt(n, i) {
          var i :| 0 <= i < |n| && MantissaDigitAt(n, i);
          assert i != 0;
          assert MantissaDigitAt(t, i - 1);
        }
        if exists i :: 0 <= i < |t| && MantissaDigitAt(t, i) {
          var i :| 0 <= i < |t| && MantissaDigitAt(t, i);
          assert MantissaDigitAt(n, i + 1);
        }
      }
    }
  }

  /** JavaScript truthiness: `null`, `false`, zero and the empty string are falsy. */
  predicate Truthy(v: Json)
    ensures v.JArr? || v.JObj? || v == JBool(true) ==> Truthy(v)
    ensures Truthy(v) ==> v != JNull && v != JBool(false) && v != JStr("")
    ensures v.JStr? && v.s != "" ==> Truthy(v)
    ensures v.JNum? ==> (Truthy(v) <==> exists i :: 0 <= i < |v.numeral| && MantissaDigitAt(v.numeral, i))
  {
    match v
    case JNull => false
    case JBool(b) => b
    case JNum(n) => ZeroMantissaDigits(n); !ZeroMantissa(n)
    case JStr(s) => s != ""
    case JArr(_) => true
    case JObj(_) => true
  }

  /** Without an exponent every digit belongs to the mantissa, so a numeral is
      truthy exactly when one of its digits is non-zero. */
  lemma ExponentFreeTruthy(n: string)
    requires 'e' !in n && 'E' !in n
    ensures Truthy(JNum(n)) <==> exists i :: 0 <= i < |n| && '1' <= n[i] <= '9'
  {
    if exists i :: 0 <= i < |n| && '1' <= n[i] <= '9' {
      var i :| 0 <= i < |n| && '1' <= n[i] <= '9';
      forall j | 0 <= j < i ensures n[j] != 'e' && n[j] != 'E' {
        assert n[j] in n;
      }
      assert MantissaDigitAt(n, i);
    }
  }

  /** A year given as the number `2024` is truthy, like the string `"2024"`. */
  lemma NumberYearTruthy()
    ensures Truthy(JNum("2024")) && Truthy(JStr("2024"))
  {
    assert MantissaDigitAt("2024", 0);
  }

  /** `x` as seen through `!x`: `undefined` (a missing member) is falsy too. */
  predicate Present(x: Option<Json>) {
    x.Some? && Truthy(x.value)
  }

  predicate HasKey(fields: seq<Field>, key: string) {
    exists i :: 0 <= i < |fields| && fields[i].key == key
  }

  predicate DistinctKeys(fields: seq<Field>) {
    forall i, j :: 0 <= i < j < |fields| ==> fields[i].key != fields[j].key
  }

  /** The position of the first member named `key`. */
  function KeyIndex(fields: seq<Field>, key: string): (r: Option<nat>)
    ensures r.Some? <==> HasKey(fields, key)
    ensures r.Some? ==> r.value < |fields| && fields[r.value].key == key
    ensures r.Some? ==> forall j :: 0 <= j < r.value ==> fields[j].key != key
  {
    if |fields| == 0 then None
    else if fields[0].key == key then Some(0)
    else
      match KeyIndex(fields[1..], key)
      case None => None
      case Some(i) => Some(i + 1)
  }

  /** The value stored under `key`, `None` when there is none. */
  function Lookup(fields: seq<Field>, key: string): (r: Option<Json>)
    ensures r.Some? <==> HasKey(fields, key)
  {
    match KeyIndex(fields, key)
    case None => None
    case Some(i) => Some(fields[i].value)
  }

  /** `body.name` for a parsed request body that is not `null`: only an object has
      the member; every other value (and an object without it) yields `undefined`. */
  function Member(body: Json, name: string): (r: Option<Json>)
    ensures r.Some? <==> body.JObj? && HasKey(body.fields, name)
    ensures body.JObj? && DistinctKeys(body.fields) ==>
      forall i :: 0 <= i < |body.fields| && body.fields[i].key == name ==> r == Some(body.fields[i].value)
  {
    match body
    case JObj(fields) => Lookup(fields, name)
    case _ => None
  }

  /** Defining `key` on an object as `JSON.parse` does: an existing member keeps
      its position and takes the new value; otherwise the member is appended. */
  function Insert(fields: seq<Field>, key: string, value: Json): (r: seq<Field>)
    ensures !HasKey(fields, key) ==> r == fields + [Field(key, value)]
    ensures HasKey(fields, key) ==> r == fields[KeyIndex(fields, key).value := Field(key, value)]
    ensures |r| >= |fields| && forall j :: 0 <= j < |fields| && fields[j].key != key ==> r[j] == fields[j]
    ensures DistinctKeys(fields) ==> DistinctKeys(r)
    ensures Lookup(r, key) == Some(value)
  {
    match KeyIndex(fields, key)
    case Some(i) =>
      var r := fields[i := Field(key, value)];
      assert forall j :: 0 <= j < |r| ==> r[j].key == fields[j].key;
      r
    case None =>
      KeyIndexAppend(fields, key, value);
      fields + [Field(key, value)]
  }

  lemma {:induction false} KeyIndexAppend(fields: seq<Field>, key: string, value: Json)
    requires !HasKey(fields, key)
    ensures KeyIndex(fields + [Field(key, value)], key) == Some(|fields|)
    decreases |fields|
  {
    if |fields| > 0 {
      assert (fields + [Field(key, value)])[1..] == fields[1..] + [Field(key, value)];
      KeyIndexAppend(fields[1..], key, value);
    }
  }

  /** `Insert` keeps every value well formed. */
  lemma InsertWellFormed(fields: seq<Field>, key: string, value: Json)
    requires FieldsWellFormed(fields) && WellFormed(value)
    ensures FieldsWellFormed(Insert(fields, key, value))
  {
  }

  /** The shape `JSON.parse` guarantees and `JSON.stringify` needs for a faithful
      round trip: every numeral is valid and no object repeats a key. */
  predicate WellFormed(v: Json)
    decreases v
  {
    match v
    case JNum(n) => ValidNumeral(n)
    case JArr(items) => forall i :: 0 <= i < |items| ==> WellFormed(items[i])
    case JObj(fields) => DistinctKeys(fields) && forall i :: 0 <= i < |fields| ==> WellFormed(fields[i].value)
    case _ => true
  }

  /** The items of a list, taken one by one, as the `JArr` case of `WellFormed` reads them. */
  predicate AllWellFormed(items: seq<Json>) {
    forall i :: 0 <= i < |items| ==> WellFormed(items[i])
  }

  /** The member values of an object, as the `JObj` case of `WellFormed` reads them. */
  predicate FieldsWellFormed(fields: seq<Field>) {
    forall i :: 0 <= i < |fields| ==> WellFormed(fields[i].value)
  }

  /** The two helpers are exactly the cases of `WellFormed` for lists and objects. */
  lemma WellFormedCases(items: seq<Json>, fields: seq<Field>)
    ensures WellFormed(JArr(items)) <==> AllWellFormed(items)
    ensures WellFormed(JObj(fields)) <==> DistinctKeys(fields) && FieldsWellFormed(fields)
  {
  }

  /** Pushing a well-formed value keeps a list well formed. */
  lemma PushWellFormed(items: seq<Json>, v: Json)
    requires AllWellFormed(items) && WellFormed(v)
    ensures AllWellFormed(items + [v])
  {
    var all := items + [v];
    forall i | 0 <= i < |all| ensures WellFormed(all[i]) {
      if i < |items| { assert all[i] == items[i]; }
    }
  }
}
