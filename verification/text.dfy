/**
  String helpers used by the upload handler: `String.prototype.split` on a
  one-character separator, the pieces the handler picks out of a split
  (`pop()` for the file extension, `[1]` for the data-URL payload), and the
  decimal rendering of a non-negative integer (`Number.prototype.toString`).
 */
module Text {
  import opened Optional

  /** Concatenates `parts`, putting `sep` between neighbours: the inverse of `Split`. */
  function Join(parts: seq<string>, sep: char): string
    requires |parts| > 0
  {
    if |parts| == 1 then parts[0] else parts[0] + [sep] + Join(parts[1..], sep)
  }

  /** `s.split(sep)` for a one-character separator: the maximal runs between separators. */
  function Split(s: string, sep: char): (parts: seq<string>)
    ensures |parts| > 0
    ensures forall i :: 0 <= i < |parts| ==> sep !in parts[i]
    ensures Join(parts, sep) == s
    decreases |s|
  {
    if |s| == 0 then [""]
    else
      var rest := Split(s[1..], sep);
      if s[0] == sep then [""] + rest
      else
        assert Join(rest, sep) == s[1..];
        [[s[0]] + rest[0]] + rest[1..]
  }

  /** Splitting a join of separator-free parts gives the parts back. */
  lemma {:induction false} SplitJoin(parts: seq<string>, sep: char)
    requires |parts| > 0
    requires forall i :: 0 <= i < |parts| ==> sep !in parts[i]
    ensures Split(Join(parts, sep), sep) == parts
    decreases |parts|
  {
    if |parts| == 1 {
      SplitNoSeparator(parts[0], sep);
    } else {
      SplitJoin(parts[1..], sep);
      SplitAfterFirst(parts[0], Join(parts[1..], sep), sep);
    }
  }

  /** A string without the separator splits into itself alone. */
  lemma {:induction false} SplitNoSeparator(s: string, sep: char)
    requires sep !in s
    ensures Split(s, sep) == [s]
    decreases |s|
  {
    if |s| > 0 {
      SplitNoSeparator(s[1..], sep);
    }
  }

  /** The first separator ends the first piece. */
  lemma {:induction false} SplitAfterFirst(p: string, t: string, sep: char)
    requires sep !in p
    ensures Split(p + [sep] + t, sep) == [p] + Split(t, sep)
    decreases |p|
  {
    if |p| == 0 {
      assert (p + [sep] + t)[1..] == t;
    } else {
      assert (p + [sep] + t)[1..] == p[1..] + [sep] + t;
      SplitAfterFirst(p[1..], t, sep);
      assert [p[0]] + p[1..] == p;
    }
  }

  /** `s.split(sep).pop()`: the text after the last separator, or all of `s` when it has none. */
  function LastPiece(s: string, sep: char): (r: string)
    ensures sep !in r
    ensures |r| <= |s| && r == s[|s| - |r|..]
    ensures sep in s <==> |r| < |s|
    ensures |r| < |s| ==> s[|s| - |r| - 1] == sep
  {
    var parts := Split(s, sep);
    LastPieceIsSuffix(s, sep);
    parts[|parts| - 1]
  }

  lemma {:induction false} LastPieceIsSuffix(s: string, sep: char)
    ensures var parts := Split(s, sep); var r := parts[|parts| - 1];
      && |r| <= |s| && r == s[|s| - |r|..]
      && (sep in s <==> |r| < |s|)
      && (|r| < |s| ==> s[|s| - |r| - 1] == sep)
    decreases |s|
  {
    if |s| > 0 {
      LastPieceIsSuffix(s[1..], sep);
    }
  }

  /** `s.split(sep)[1]`: the text between the first and the second separator
      (or the end of `s`); `None` (JavaScript's `undefined`) when `s` has no separator. */
  function SecondPiece(s: string, sep: char): Option<string>
  {
    var parts := Split(s, sep);
    if |parts| >= 2 then Some(parts[1]) else None
  }

  /** `SecondPiece` is defined exactly when the separator occurs, and then it is
      the run that follows the first separator, ended by the next one or by the end. */
  lemma {:induction false} SecondPieceSpec(s: string, sep: char, p: string, r: string, q: string)
    requires s == p + [sep] + r + q
    requires sep !in p && sep !in r
    requires q == [] || q[0] == sep
    ensures SecondPiece(s, sep) == Some(r)
  {
    assert s == p + [sep] + (r + q);
    SplitAfterFirst(p, r + q, sep);
    if q == [] {
      assert r + q == r;
      SplitNoSeparator(r, sep);
    } else {
      assert r + q == r + [sep] + q[1..];
      SplitAfterFirst(r, q[1..], sep);
    }
  }

  /** `SecondPiece` is undefined exactly when the separator does not occur. */
  lemma SecondPieceDefined(s: string, sep: char)
    ensures SecondPiece(s, sep).None? <==> sep !in s
  {
    var parts := Split(s, sep);
    if |parts| >= 2 {
      var q := JoinTail(parts, sep);
      assert s[|parts[0]|] == sep;
    } else {
      assert s == parts[0];
    }
  }

  /** Conversely to `SecondPieceSpec`, a defined `SecondPiece` is such a run. */
  lemma SecondPieceShape(s: string, sep: char) returns (p: string, q: string)
    requires SecondPiece(s, sep).Some?
    ensures s == p + [sep] + SecondPiece(s, sep).value + q
    ensures sep !in p && sep !in SecondPiece(s, sep).value
    ensures q == [] || q[0] == sep
  {
    var parts := Split(s, sep);
    p, q := parts[0], JoinTail(parts, sep);
  }

  /** The text that follows the second part of a join. */
  function JoinTail(parts: seq<string>, sep: char): (q: string)
    requires |parts| >= 2
    ensures Join(parts, sep) == parts[0] + [sep] + parts[1] + q
    ensures q == [] || q[0] == sep
  {
    var rest := parts[1..];
    if |parts| == 2 then
      assert Join(rest, sep) == parts[1];
      []
    else
      assert rest[1..] == parts[2..];
      [sep] + Join(parts[2..], sep)
  }

  /** The ASCII digit for `d`. */
  function DigitChar(d: nat): char
    requires d < 10
  {
    "0123456789"[d]
  }

  predicate IsDigit(c: char) {
    '0' <= c <= '9'
  }

  predicate AllDigits(s: string) {
    forall i :: 0 <= i < |s| ==> IsDigit(s[i])
  }

  /** `n.toString()` for a non-negative integer below 10^21, where JavaScript
      prints plain decimal: digits only, and no leading zero except "0" itself. */
  function Decimal(n: nat): (s: string)
    ensures |s| > 0 && AllDigits(s)
    ensures s[0] == '0' ==> s == "0"
  {
    if n < 10 then [DigitChar(n)] else Decimal(n / 10) + [DigitChar(n % 10)]
  }

  /** The value of a run of decimal digits, the partner of `Decimal`. */
  function DecimalValue(s: string): nat
    requires AllDigits(s)
  {
    if |s| == 0 then 0 else 10 * DecimalValue(s[..|s| - 1]) + (s[|s| - 1] as int - '0' as int)
  }

  lemma {:induction false} DecimalRoundTrip(n: nat)
    ensures DecimalValue(Decimal(n)) == n
  {
    if n >= 10 {
      DecimalRoundTrip(n / 10);
      var s := Decimal(n);
      assert s[..|s| - 1] == Decimal(n / 10);
    }
  }

  /** Distinct timestamps render differently. */
  lemma DecimalInjective(a: nat, b: nat)
    ensures Decimal(a) == Decimal(b) <==> a == b
  {
    if Decimal(a) == Decimal(b) {
      DecimalRoundTrip(a);
      DecimalRoundTrip(b);
    }
  }
}
