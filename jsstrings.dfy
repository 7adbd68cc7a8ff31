/**
 * The few JavaScript string operations the engine is built from, on
 * `string`, here a sequence of Unicode scalar values (JavaScript indexes
 * UTF-16 code units; the two differ only outside the Basic Multilingual
 * Plane, which no operation here relies on):
 * `split` with a one-character separator, `join`, `trim`, `startsWith`,
 * `indexOf`, `replace` with a string pattern, and the decimal text of
 * an integer.
 */
module JsStrings {

  /** `parts.join(sep)`. */
  function Join(parts: seq<string>, sep: char): string
  {
    if |parts| == 0 then ""
    else if |parts| == 1 then parts[0]
    else parts[0] + [sep] + Join(parts[1..], sep)
  }

  /** The index of the first `sep` in `s`, or `|s|` when there is none. */
  function SepIndex(s: string, sep: char): (i: nat)
    ensures i <= |s|
    decreases |s|
  {
    if |s| == 0 || s[0] == sep then 0 else 1 + SepIndex(s[1..], sep)
  }

  /** `SepIndex` stops at the first separator and passes over nothing else. */
  lemma {:induction false} SepIndexShape(s: string, sep: char)
    ensures SepIndex(s, sep) < |s| ==> s[SepIndex(s, sep)] == sep
    ensures forall j :: 0 <= j < SepIndex(s, sep) ==> s[j] != sep
    decreases |s|
  {
    if |s| > 0 && s[0] != sep {
      SepIndexShape(s[1..], sep);
      forall j | 0 <= j < SepIndex(s, sep) ensures s[j] != sep {
        if j > 0 {
          assert s[j] == s[1..][j - 1];
        }
      }
    }
  }

  /** A separator at `k` with none before it is the one `SepIndex` finds. */
  lemma {:induction false} SepIndexAt(s: string, sep: char, k: nat)
    requires k <= |s| && (k < |s| ==> s[k] == sep)
    requires forall j :: 0 <= j < k ==> s[j] != sep
    ensures SepIndex(s, sep) == k
    decreases |s|
  {
    if k > 0 {
      SepIndexAt(s[1..], sep, k - 1);
    }
  }

  /**
   * `s.split(sep)` for a one-character separator: the pieces between
   * separators, empty pieces included; never an empty list.
   */
  function Split(s: string, sep: char): (parts: seq<string>)
    ensures |parts| >= 1
    decreases |s|
  {
    var i := SepIndex(s, sep);
    if i == |s| then [s] else [s[..i]] + Split(s[i + 1..], sep)
  }

  /** There is more than one piece exactly when the separator occurs, and no piece holds it. */
  lemma {:induction false} SplitShape(s: string, sep: char)
    ensures |Split(s, sep)| == 1 <==> sep !in s
    ensures forall k :: 0 <= k < |Split(s, sep)| ==> sep !in Split(s, sep)[k]
    decreases |s|
  {
    var i := SepIndex(s, sep);
    SepIndexShape(s, sep);
    if i < |s| {
      SplitShape(s[i + 1..], sep);
      var parts := Split(s, sep);
      forall k | 0 <= k < |parts| ensures sep !in parts[k] {
        if k > 0 {
          assert parts[k] == Split(s[i + 1..], sep)[k - 1];
        }
      }
    }
  }

  /** Splitting and joining on the same separator gives back the input. */
  lemma {:induction false} JoinSplit(s: string, sep: char)
    ensures Join(Split(s, sep), sep) == s
    decreases |s|
  {
    var i := SepIndex(s, sep);
    SepIndexShape(s, sep);
    if i < |s| {
      var tail := s[i + 1..];
      var rest := Split(tail, sep);
      JoinSplit(tail, sep);
      var parts := [s[..i]] + rest;
      assert parts[1..] == rest;
      calc {
        Join(Split(s, sep), sep);
        Join(parts, sep);
        s[..i] + [sep] + Join(rest, sep);
        s[..i] + [sep] + tail;
        { assert s[i] == sep; }
        s;
      }
    }
  }

  lemma {:induction false} SplitNoSeparator(s: string, sep: char)
    requires sep !in s
    ensures Split(s, sep) == [s]
  {
    SepIndexShape(s, sep);
  }

  /** A piece free of the separator, then the separator: the piece comes off the front of the split. */
  lemma {:induction false} SplitCons(a: string, sep: char, b: string)
    requires sep !in a
    ensures Split(a + [sep] + b, sep) == [a] + Split(b, sep)
  {
    var s := a + [sep] + b;
    assert forall j :: 0 <= j < |a| ==> s[j] == a[j];
    SepIndexAt(s, sep, |a|);
    assert s[..|a|] == a && s[|a| + 1..] == b;
  }

  /** Joining pieces free of the separator and splitting again gives the pieces back. */
  lemma {:induction false} SplitJoin(parts: seq<string>, sep: char)
    requires |parts| >= 1
    requires forall i :: 0 <= i < |parts| ==> sep !in parts[i]
    ensures Split(Join(parts, sep), sep) == parts
    decreases |parts|
  {
    if |parts| == 1 {
      SplitNoSeparator(parts[0], sep);
    } else {
      SplitJoin(parts[1..], sep);
      SplitCons(parts[0], sep, Join(parts[1..], sep));
      assert [parts[0]] + parts[1..] == parts;
    }
  }

  /** The first piece of a split is a prefix of the input, followed by the separator unless it is all of it. */
  lemma SplitHead(s: string, sep: char)
    ensures var head := Split(s, sep)[0];
      sep !in head && (s == head || StartsWith(s, head + [sep]))
  {
    var i := SepIndex(s, sep);
    SepIndexShape(s, sep);
    if i < |s| {
      assert s[..i + 1] == s[..i] + [sep];
    }
  }

  /** `s.startsWith(prefix)`. */
  predicate StartsWith(s: string, prefix: string)
  {
    |prefix| <= |s| && s[..|prefix|] == prefix
  }

  /** Whether `pat` occurs in `s` at index `i`. */
  predicate OccursAt(s: string, pat: string, i: int)
  {
    0 <= i && i + |pat| <= |s| && s[i..i + |pat|] == pat
  }

  /** `s.indexOf(pat, from)`: the first occurrence at or after `from`, or -1. */
  function IndexOfFrom(s: string, pat: string, from: nat): (r: int)
    ensures r == -1 || (from <= r && OccursAt(s, pat, r))
    ensures forall j :: from <= j < (if r == -1 then |s| + 1 else r) ==> !OccursAt(s, pat, j)
    decreases |s| + 1 - from
  {
    if from + |pat| > |s| then -1
    else if s[from..from + |pat|] == pat then from
    else IndexOfFrom(s, pat, from + 1)
  }

  /** `s.indexOf(pat)`. */
  function IndexOf(s: string, pat: string): (r: int)
    ensures r == -1 || OccursAt(s, pat, r)
    ensures forall j :: 0 <= j < (if r == -1 then |s| + 1 else r) ==> !OccursAt(s, pat, j)
  {
    IndexOfFrom(s, pat, 0)
  }

  /** `s.replace(pat, repl)` with a string pattern: only the first occurrence is replaced. */
  function ReplaceFirst(s: string, pat: string, repl: string): string
  {
    var i := IndexOf(s, pat);
    if i == -1 then s else s[..i] + repl + s[i + |pat|..]
  }

  /** Unless the pattern sits at the very start, replacing it keeps the first character. */
  lemma ReplaceFirstKeepsHead(s: string, pat: string)
    ensures |s| > 0 && IndexOf(s, pat) != 0 ==>
      |ReplaceFirst(s, pat, "")| > 0 && ReplaceFirst(s, pat, "")[0] == s[0]
  {
    var i := IndexOf(s, pat);
    if |s| > 0 && i > 0 {
      assert ReplaceFirst(s, pat, "") == s[..i] + s[i + |pat|..];
    }
  }

  /**
   * The white space and line terminators `String.prototype.trim` strips:
   * tab, line feed, vertical tab, form feed, carriage return, the
   * space separators of Unicode, line and paragraph separators, and the
   * byte order mark.
   */
  predicate IsJsWhitespace(c: char)
  {
    c == '\t' || c == '\n' || c == '\U{000B}' || c == '\U{000C}' || c == '\r'
    || c == ' ' || c == '\U{00A0}' || c == '\U{1680}'
    || ('\U{2000}' <= c <= '\U{200A}')
    || c == '\U{2028}' || c == '\U{2029}' || c == '\U{202F}' || c == '\U{205F}'
    || c == '\U{3000}' || c == '\U{FEFF}'
  }

  /** `s.trimStart()`: drops the white space at the front. */
  function TrimStart(s: string): string
  {
    if |s| > 0 && IsJsWhitespace(s[0]) then TrimStart(s[1..]) else s
  }

  /** `s.trimEnd()`: drops the white space at the back. */
  function TrimEnd(s: string): string
  {
    if |s| > 0 && IsJsWhitespace(s[|s| - 1]) then TrimEnd(s[..|s| - 1]) else s
  }

  /** `s.trim()`. */
  function Trim(s: string): string
  {
    TrimEnd(TrimStart(s))
  }

  /**
   * `TrimStart` removes a suffix-closed run of white space: what remains is
   * a suffix of `s` that does not start with white space, and everything
   * removed is white space.
   */
  lemma {:induction false} TrimStartShape(s: string)
    ensures var r := TrimStart(s);
      |r| <= |s| && r == s[|s| - |r|..]
      && (r == [] || !IsJsWhitespace(r[0]))
      && forall i :: 0 <= i < |s| - |r| ==> IsJsWhitespace(s[i])
  {
    if |s| > 0 && IsJsWhitespace(s[0]) {
      TrimStartShape(s[1..]);
    }
  }

  /**
   * `TrimEnd` keeps a prefix of `s` that does not end with white space, and
   * everything removed is white space.
   */
  lemma {:induction false} TrimEndShape(s: string)
    ensures var r := TrimEnd(s);
      |r| <= |s| && r == s[..|r|]
      && (r == [] || !IsJsWhitespace(r[|r| - 1]))
      && forall i :: |r| <= i < |s| ==> IsJsWhitespace(s[i])
  {
    if |s| > 0 && IsJsWhitespace(s[|s| - 1]) {
      TrimEndShape(s[..|s| - 1]);
    }
  }

  /** Trimming a string with no white space at either end leaves it alone. */
  lemma TrimUntouched(s: string)
    requires s == [] || (!IsJsWhitespace(s[0]) && !IsJsWhitespace(s[|s| - 1]))
    ensures Trim(s) == s
  {
  }

  /** The trimmed string is empty exactly when the input is all white space. */
  lemma TrimEmpty(s: string)
    ensures Trim(s) == [] <==> forall i :: 0 <= i < |s| ==> IsJsWhitespace(s[i])
  {
    var t := TrimStart(s);
    TrimStartShape(s);
    TrimEndShape(t);
    if Trim(s) == [] {
      assert |t| == 0;
    }
    if forall i :: 0 <= i < |s| ==> IsJsWhitespace(s[i]) {
      AllWhitespaceTrimStart(s);
    }
  }

  lemma {:induction false} AllWhitespaceTrimStart(s: string)
    requires forall i :: 0 <= i < |s| ==> IsJsWhitespace(s[i])
    ensures TrimStart(s) == []
  {
    if |s| > 0 {
      AllWhitespaceTrimStart(s[1..]);
    }
  }

  //
  // Decimal digits
  //

  predicate IsDigit(c: char)
  {
    '0' <= c <= '9'
  }

  predicate AllDigits(s: string)
  {
    forall i :: 0 <= i < |s| ==> IsDigit(s[i])
  }

  function DigitChar(d: nat): (c: char)
    requires d < 10
    ensures IsDigit(c)
  {
    ('0' as int + d) as char
  }

  /** The value of a string of decimal digits, read most significant digit first. */
  function DigitsValue(s: string): nat
    requires AllDigits(s)
  {
    if |s| == 0 then 0
    else 10 * DigitsValue(s[..|s| - 1]) + (s[|s| - 1] as int - '0' as int)
  }

  /**
   * `String(n)` for a natural number: its decimal text, without
   * leading zeros, "0" for zero.
   */
  function NatToString(n: nat): (t: string)
    ensures |t| >= 1 && AllDigits(t)
    ensures t[0] == '0' ==> n == 0 && t == "0"
  {
    if n < 10 then [DigitChar(n)] else NatToString(n / 10) + [DigitChar(n % 10)]
  }

  /** Reading back the decimal text of `n` gives `n`. */
  lemma {:induction false} NatToStringValue(n: nat)
    ensures DigitsValue(NatToString(n)) == n
  {
    if n >= 10 {
      var t := NatToString(n);
      NatToStringValue(n / 10);
      assert t[..|t| - 1] == NatToString(n / 10);
    }
  }

  /** The longest prefix of `s` made of decimal digits. */
  function LeadingDigits(s: string): (d: string)
    ensures |d| <= |s| && d == s[..|d|] && AllDigits(d)
    ensures |d| < |s| ==> !IsDigit(s[|d|])
  {
    if |s| > 0 && IsDigit(s[0]) then [s[0]] + LeadingDigits(s[1..]) else ""
  }

  /** The leading digit run of a digit string followed by a non-digit is that string. */
  lemma {:induction false} LeadingDigitsOfConcat(d: string, u: string)
    requires AllDigits(d)
    requires u == [] || !IsDigit(u[0])
    ensures LeadingDigits(d + u) == d
    decreases |d|
  {
    if |d| > 0 {
      assert (d + u)[1..] == d[1..] + u;
      LeadingDigitsOfConcat(d[1..], u);
      assert [d[0]] + d[1..] == d;
    } else {
      assert d + u == u;
    }
  }
}
