/** String primitives of JavaScript that the resume code relies on: the
    character classes of regular expressions, `trim`, `toLowerCase`,
    `toUpperCase`, `includes`, `indexOf`, `split` on one character, `join`
    and the decimal rendering of a non-negative integer. Strings are
    sequences of Unicode scalar values. */
module Text {
  import opened Wrappers

  // ---------------------------------------------------------------------------
  // Character classes
  // ---------------------------------------------------------------------------

  /** The line terminators of ECMAScript: the characters `.` refuses to match
      and the places where a multiline `^` may match. */
  predicate IsLineTerminator(c: char) {
    c == '\n' || c == '\r' || c == '\U{2028}' || c == '\U{2029}'
  }

  /** The regular-expression class `\s` of ECMAScript (WhiteSpace plus
      LineTerminator); `String.prototype.trim` strips the same set. */
  predicate IsSpace(c: char) {
    || c == '\t' || c == '\n' || c == '\U{000B}' || c == '\U{000C}' || c == '\r'
    || c == ' ' || c == '\U{00A0}' || c == '\U{1680}'
    || ('\U{2000}' <= c <= '\U{200A}')
    || c == '\U{2028}' || c == '\U{2029}' || c == '\U{202F}' || c == '\U{205F}'
    || c == '\U{3000}' || c == '\U{FEFF}'
  }

  /** The regular-expression class `\d`: ASCII digits only. */
  predicate IsDigit(c: char) {
    '0' <= c <= '9'
  }

  // ---------------------------------------------------------------------------
  // Character runs of a regular-expression class
  // ---------------------------------------------------------------------------

  /** The character classes the regular expressions of the resume code
      repeat. */
  datatype CharClass =
    | Space            // \s
    | Digit            // \d
    | Hash             // #
    | Newline          // \n
    | NotBacktick      // [^`]
    | NotCloseBracket  // [^\]]
    | NotCloseParen    // [^\)]
    | NotTerminator    // .
    | NotStar          // [^*]
    | ColonOrSpace     // [:\s]

  predicate InClass(c: char, k: CharClass) {
    match k
    case Space => IsSpace(c)
    case Digit => IsDigit(c)
    case Hash => c == '#'
    case Newline => c == '\n'
    case NotBacktick => c != '`'
    case NotCloseBracket => c != ']'
    case NotCloseParen => c != ')'
    case NotTerminator => !IsLineTerminator(c)
    case NotStar => c != '*'
    case ColonOrSpace => c == ':' || IsSpace(c)
  }

  /** Length of the longest run of class `k` starting at `i`: what a greedy
      `k*` consumes there. */
  function Span(t: string, i: nat, k: CharClass): (n: nat)
    requires i <= |t|
    ensures i + n <= |t|
    ensures forall j | i <= j < i + n :: InClass(t[j], k)
    ensures i + n == |t| || !InClass(t[i + n], k)
    decreases |t| - i
  {
    if i == |t| || !InClass(t[i], k) then 0 else 1 + Span(t, i + 1, k)
  }

  /** A run of class `k` that cannot be extended is the greedy run. */
  lemma SpanIs(t: string, i: nat, k: CharClass, n: nat)
    requires i + n <= |t|
    requires forall j | i <= j < i + n :: InClass(t[j], k)
    requires i + n == |t| || !InClass(t[i + n], k)
    ensures Span(t, i, k) == n
  {
  }

  // ---------------------------------------------------------------------------
  // Case mapping (ASCII letters; every other character maps to itself)
  // ---------------------------------------------------------------------------

  function LowerChar(c: char): char {
    if 'A' <= c <= 'Z' then (c as int + 32) as char else c
  }

  function UpperChar(c: char): char {
    if 'a' <= c <= 'z' then (c as int - 32) as char else c
  }

  /** `s.toLowerCase()`. */
  function ToLower(s: string): (r: string)
    ensures |r| == |s|
    ensures forall i | 0 <= i < |s| :: r[i] == LowerChar(s[i])
  {
    if |s| == 0 then "" else [LowerChar(s[0])] + ToLower(s[1..])
  }

  /** `s.toUpperCase()`. */
  function ToUpper(s: string): (r: string)
    ensures |r| == |s|
    ensures forall i | 0 <= i < |s| :: r[i] == UpperChar(s[i])
  {
    if |s| == 0 then "" else [UpperChar(s[0])] + ToUpper(s[1..])
  }

  /** Lower-casing twice is lower-casing once, so a test on `ToLower(t)`
      gives the same answer for every spelling of `t` that differs only in
      case. */
  lemma ToLowerIdempotent(s: string)
    ensures ToLower(ToLower(s)) == ToLower(s)
  {
  }

  /** Upper-cased text has no lower-case ASCII letter left. */
  lemma ToUpperHasNoLowerCase(s: string)
    ensures forall i | 0 <= i < |ToUpper(s)| :: !('a' <= ToUpper(s)[i] <= 'z')
  {
  }

  // ---------------------------------------------------------------------------
  // Prefixes and occurrences
  // ---------------------------------------------------------------------------

  /** `s.startsWith(p)`. */
  predicate StartsWith(s: string, p: string) {
    |p| <= |s| && s[..|p|] == p
  }

  /** `p` occurs in `s` starting at index `i`. */
  predicate ContainsAt(s: string, p: string, i: nat) {
    i + |p| <= |s| && s[i..i + |p|] == p
  }

  /** An occurrence shown character by character. */
  lemma ContainsAtChars(s: string, p: string, i: nat)
    requires i + |p| <= |s|
    requires forall k | 0 <= k < |p| :: s[i + k] == p[k]
    ensures ContainsAt(s, p, i)
  {
    var piece := s[i..i + |p|];
    assert forall k | 0 <= k < |p| :: piece[k] == p[k];
  }

  /** `s.includes(p)`. */
  predicate Contains(s: string, p: string) {
    exists i | 0 <= i <= |s| :: ContainsAt(s, p, i)
  }

  /** `s.indexOf(p, from)`, with `None` for -1: the first occurrence of `p`
      at or after `from`. */
  function IndexOf(s: string, p: string, from: nat): (r: Option<nat>)
    ensures r.Some? ==> from <= r.value && ContainsAt(s, p, r.value)
    ensures r.Some? ==> forall j | from <= j < r.value :: !ContainsAt(s, p, j)
    ensures r.None? ==> forall j | from <= j :: !ContainsAt(s, p, j)
    decreases |s| - from
  {
    if |s| < from + |p| then None
    else if ContainsAt(s, p, from) then Some(from)
    else IndexOf(s, p, from + 1)
  }

  /** `includes` holds exactly when `indexOf` finds an occurrence. */
  lemma ContainsIffIndexOf(s: string, p: string)
    ensures Contains(s, p) <==> IndexOf(s, p, 0).Some?
  {
    if IndexOf(s, p, 0).Some? {
      assert ContainsAt(s, p, IndexOf(s, p, 0).value);
    }
  }

  /** The first index of character `c` in `s`. */
  function Find(s: string, c: char): (r: Option<nat>)
    ensures r.Some? ==> r.value < |s| && s[r.value] == c && c !in s[..r.value]
    ensures r.None? ==> c !in s
  {
    if |s| == 0 then None
    else if s[0] == c then Some(0)
    else match Find(s[1..], c)
      case None => None
      case Some(k) =>
        assert s[..k + 1] == [s[0]] + s[1..][..k];
        Some(k + 1)
  }

  /** `Find` returns the index of the first occurrence of `c`. */
  lemma FindFirst(s: string, c: char, k: nat)
    requires k < |s| && s[k] == c && c !in s[..k]
    ensures Find(s, c) == Some(k)
  {
    assert c in s;
  }

  // ---------------------------------------------------------------------------
  // trim
  // ---------------------------------------------------------------------------

  /** Number of leading `\s` characters. */
  function LeadingSpace(s: string): (n: nat)
    ensures n <= |s|
    ensures forall k | 0 <= k < n :: IsSpace(s[k])
    ensures n == |s| || !IsSpace(s[n])
  {
    if |s| == 0 || !IsSpace(s[0]) then 0 else 1 + LeadingSpace(s[1..])
  }

  /** Index where the trailing run of `\s` characters starts. */
  function TrailingSpace(s: string): (n: nat)
    ensures n <= |s|
    ensures forall k | n <= k < |s| :: IsSpace(s[k])
    ensures n == 0 || !IsSpace(s[n - 1])
  {
    if |s| == 0 || !IsSpace(s[|s| - 1]) then |s| else TrailingSpace(s[..|s| - 1])
  }

  /** `s.trim()`: what is left after stripping `\s` characters from both
      ends. The result is the slice of `s` starting at `LeadingSpace(s)`, it
      neither starts nor ends with a `\s` character, and everything cut off
      on either side was `\s`. */
  function Trim(s: string): (r: string)
    ensures |r| <= |s| - LeadingSpace(s)
    ensures r == s[LeadingSpace(s)..LeadingSpace(s) + |r|]
    ensures forall k | LeadingSpace(s) + |r| <= k < |s| :: IsSpace(s[k])
    ensures |r| == 0 || (!IsSpace(r[0]) && !IsSpace(r[|r| - 1]))
    ensures r == "" <==> forall k | 0 <= k < |s| :: IsSpace(s[k])
  {
    var a := LeadingSpace(s);
    var b := TrailingSpace(s);
    if b <= a then "" else s[a..b]
  }

  /** A string that neither starts nor ends with `\s` is its own trim. */
  lemma TrimNoEdgeSpace(s: string)
    requires s != "" && !IsSpace(s[0]) && !IsSpace(s[|s| - 1])
    ensures Trim(s) == s
  {
    assert LeadingSpace(s) == 0;
    assert TrailingSpace(s) == |s|;
  }

  /** Whitespace put in front of a string that does not start with `\s`
      is exactly its leading whitespace. */
  lemma {:induction false} LeadingSpacePadded(pad: string, s: string)
    requires forall k | 0 <= k < |pad| :: IsSpace(pad[k])
    requires s != "" && !IsSpace(s[0])
    ensures LeadingSpace(pad + s) == |pad|
    decreases |pad|
  {
    if |pad| == 0 {
      assert pad + s == s;
    } else {
      assert (pad + s)[0] == pad[0];
      assert (pad + s)[1..] == pad[1..] + s;
      LeadingSpacePadded(pad[1..], s);
    }
  }

  /** Whitespace put in front of a trimmed non-empty string is trimmed
      away again. */
  lemma TrimPadded(pad: string, s: string)
    requires forall k | 0 <= k < |pad| :: IsSpace(pad[k])
    requires s != "" && Trim(s) == s
    ensures Trim(pad + s) == s
  {
    var t := pad + s;
    assert !IsSpace(s[0]) && !IsSpace(s[|s| - 1]);
    LeadingSpacePadded(pad, s);
    assert t[|t| - 1] == s[|s| - 1];
    assert TrailingSpace(t) == |t|;
    assert t[|pad|..] == s;
  }

  /** Trimming a trimmed string changes nothing. */
  lemma TrimIdempotent(s: string)
    ensures Trim(Trim(s)) == Trim(s)
  {
    var t := Trim(s);
    if |t| > 0 {
      assert LeadingSpace(t) == 0;
      assert TrailingSpace(t) == |t|;
    }
  }

  // ---------------------------------------------------------------------------
  // split / join
  // ---------------------------------------------------------------------------

  /** `s.split(sep)` for a one-character separator: always at least one
      piece, and no piece holds the separator. */
  function Split(s: string, sep: char): (r: seq<string>)
    ensures |r| >= 1
    ensures forall k | 0 <= k < |r| :: sep !in r[k]
    decreases |s|
  {
    match Find(s, sep)
    case None => [s]
    case Some(k) => [s[..k]] + Split(s[k + 1..], sep)
  }

  /** `parts.join(sep)`. */
  function Join(parts: seq<string>, sep: string): string
  {
    if |parts| == 0 then ""
    else if |parts| == 1 then parts[0]
    else parts[0] + sep + Join(parts[1..], sep)
  }

  /** Splitting and joining back with the same separator restores the
      string. */
  lemma {:induction false} SplitJoin(s: string, sep: char)
    ensures Join(Split(s, sep), [sep]) == s
    decreases |s|
  {
    match Find(s, sep)
    case None =>
    case Some(k) =>
      var rest := Split(s[k + 1..], sep);
      SplitJoin(s[k + 1..], sep);
      assert Split(s, sep) == [s[..k]] + rest;
      assert (Split(s, sep))[1..] == rest;
      assert s == s[..k] + [sep] + s[k + 1..];
  }

  /** Split distributes over a separator placed between two strings. */
  lemma {:induction false} SplitAppend(a: string, b: string, sep: char)
    ensures Split(a + [sep] + b, sep) == Split(a, sep) + Split(b, sep)
    decreases |a|
  {
    var s := a + [sep] + b;
    match Find(a, sep)
    case None =>
      assert s[..|a|] == a;
      FindFirst(s, sep, |a|);
      assert s[|a| + 1..] == b;
    case Some(k) =>
      assert s[..k] == a[..k];
      FindFirst(s, sep, k);
      assert s[k + 1..] == a[k + 1..] + [sep] + b;
      SplitAppend(a[k + 1..], b, sep);
  }

  /** The strings of `parts` one after another. */
  function Concat(parts: seq<string>): (r: string)
    ensures |parts| == 1 ==> r == parts[0]
  {
    if |parts| == 0 then "" else parts[0] + Concat(parts[1..])
  }

  /** Part `i` sits between the parts before it and those after it. */
  lemma {:induction false} ConcatAt(parts: seq<string>, i: nat)
    requires i < |parts|
    ensures Concat(parts) == Concat(parts[..i]) + parts[i] + Concat(parts[i + 1..])
    decreases i
  {
    if i == 0 {
      assert Concat(parts[..0]) == "";
    } else {
      ConcatAt(parts[1..], i - 1);
      assert parts[1..][..i - 1] == parts[1..i] && parts[1..][i - 1] == parts[i] && parts[1..][i..] == parts[i + 1..];
      assert parts[..i][1..] == parts[1..i];
      calc {
        Concat(parts);
        parts[0] + Concat(parts[1..]);
        parts[0] + (Concat(parts[1..i]) + parts[i] + Concat(parts[i + 1..]));
        (parts[0] + Concat(parts[1..i])) + parts[i] + Concat(parts[i + 1..]);
        Concat(parts[..i]) + parts[i] + Concat(parts[i + 1..]);
      }
    }
  }

  // ---------------------------------------------------------------------------
  // Decimal rendering
  // ---------------------------------------------------------------------------

  function DigitChar(d: nat): char
    requires d < 10
  {
    ('0' as int + d) as char
  }

  /** The number a string of decimal digits denotes. */
  function DecimalValue(s: string): nat
    requires forall k | 0 <= k < |s| :: IsDigit(s[k])
  {
    if |s| == 0 then 0
    else
      assert IsDigit(s[|s| - 1]);
      DecimalValue(s[..|s| - 1]) * 10 + (s[|s| - 1] as int - '0' as int)
  }

  /** `String(n)` for a non-negative integer: a non-empty run of digits,
      without leading zero, that denotes `n`. */
  function NatToString(n: nat): (r: string)
    ensures |r| >= 1
    ensures forall k | 0 <= k < |r| :: IsDigit(r[k])
    ensures |r| > 1 ==> r[0] != '0'
    ensures DecimalValue(r) == n
  {
    if n < 10 then [DigitChar(n)]
    else
      var p := NatToString(n / 10);
      var r := p + [DigitChar(n % 10)];
      assert r[..|r| - 1] == p;
      r
  }
}
