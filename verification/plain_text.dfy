/** `parseMarkdownToPlainText`: the markdown-to-plain-text normaliser of the
    ATS PDF export.

    The source applies eleven global regular-expression replacements in a
    fixed order, then collapses blank-line runs and trims. Each replacement
    is modelled as `Apply(rule, t, lineStart)`: a left-to-right scan that,
    at every position, tries the rule's pattern; on a match it emits the
    replacement and resumes after the matched text, otherwise it copies one
    character and moves on. This is exactly how `String.prototype.replace`
    with a `g` flag proceeds (none of these patterns can match the empty
    string). `lineStart` says whether the previous character of the
    ORIGINAL input was a line terminator (or there was none), which is what a
    multiline `^` tests.

    Each `Match…` function decides one pattern at the start of the remaining
    input; its contract states what the pattern accepts once the engine's
    backtracking is taken into account. */
module PlainText {
  import opened Wrappers
  import opened Text

  // ---------------------------------------------------------------------------
  // The patterns
  // ---------------------------------------------------------------------------

  /** One replacement of `parseMarkdownToPlainText`, in source order. */
  datatype Rule =
    | FencedCode              //  /```[\s\S]*?```/g          -> ''
    | InlineCode              //  /`([^`]+)`/g               -> '$1'
    | Heading                 //  /#{1,6}\s+(.+)/g           -> '\n$1\n'
    | Emphasis(marker: string) // /M(.+?)M/g                 -> '$1'
    | Link                    //  /\[([^\]]+)\]\([^\)]+\)/g  -> '$1'
    | Bullet                  //  /^\s*[-*+]\s+/gm           -> '• '
    | Numbered                //  /^\s*\d+\.\s+/gm           -> ''
    | BlankRun                //  /\n{3,}/g                  -> '\n\n'

  /** A match at the start of the remaining input: how many characters it
      consumes and the text that replaces them. */
  datatype Match = Match(len: nat, replacement: string)

  /** The characters a match of `rule` can start with. */
  predicate Lead(rule: Rule, c: char) {
    match rule
    case FencedCode => c == '`'
    case InlineCode => c == '`'
    case Heading => c == '#'
    case Emphasis(m) => |m| > 0 && c == m[0]
    case Link => c == '['
    case Bullet => IsSpace(c) || c == '-' || c == '*' || c == '+'
    case Numbered => IsSpace(c) || IsDigit(c)
    case BlankRun => c == '\n'
  }

  /** `/```[\s\S]*?```/`: an opening fence and the FIRST fence after it; the
      whole block, delimiters included, is deleted. */
  function MatchFencedCode(t: string): (r: Option<Match>)
    ensures r.Some? <==> StartsWith(t, "```") && IndexOf(t, "```", 3).Some?
    ensures r.Some? ==> r.value.replacement == "" && 6 <= r.value.len <= |t|
    ensures r.Some? ==> ContainsAt(t, "```", r.value.len - 3)
    ensures r.Some? ==> forall j | 3 <= j < r.value.len - 3 :: !ContainsAt(t, "```", j)
  {
    if !StartsWith(t, "```") then None
    else match IndexOf(t, "```", 3)
      case None => None
      case Some(j) => Some(Match(j + 3, ""))
  }

  /** `` /`([^`]+)`/ ``: a backtick, a non-empty run without backticks and
      the next backtick; the run is kept. */
  function MatchInlineCode(t: string): (r: Option<Match>)
    ensures r.Some? <==> |t| > 0 && t[0] == '`' && Span(t, 1, NotBacktick) >= 1 && 1 + Span(t, 1, NotBacktick) < |t|
    ensures r.Some? ==> 3 <= r.value.len <= |t| && t[r.value.len - 1] == '`'
    ensures r.Some? ==> r.value.replacement == t[1..r.value.len - 1]
    ensures r.Some? ==> '`' !in r.value.replacement
  {
    if |t| == 0 || t[0] != '`' then None
    else
      var n := Span(t, 1, NotBacktick);
      if n >= 1 && 1 + n < |t| then Some(Match(n + 2, t[1..1 + n])) else None
  }

  /** A `.` can match at `p + k`: the character exists and is not a line
      terminator. */
  predicate DotAt(t: string, p: nat, k: nat) {
    p + k < |t| && !IsLineTerminator(t[p + k])
  }

  /** The largest `k` in `1..w` such that a `.` can match at `p + k`: where
      `\s+`, backtracking from its longest run `w`, lets a following `.+`
      start. */
  function BackOff(t: string, p: nat, w: nat): (r: Option<nat>)
    ensures r.Some? ==> 1 <= r.value <= w && DotAt(t, p, r.value)
    ensures r.Some? ==> forall k | r.value < k <= w :: !DotAt(t, p, k)
    ensures r.None? ==> forall k | 1 <= k <= w :: !DotAt(t, p, k)
  {
    if w == 0 then None
    else if DotAt(t, p, w) then Some(w)
    else BackOff(t, p, w - 1)
  }

  /** Index just past the line containing `i`: where a greedy `.+` stops. */
  function LineEnd(t: string, i: nat): (e: nat)
    requires i <= |t|
    ensures i <= e <= |t|
    ensures forall j | i <= j < e :: !IsLineTerminator(t[j])
    ensures e == |t| || IsLineTerminator(t[e])
  {
    i + Span(t, i, NotTerminator)
  }

  /** How many `#` the `#{1,6}` of a heading takes: the run of `#` at the
      start, capped at six. */
  function HashRun(t: string): (h: nat)
    ensures h <= 6 && h <= |t|
    ensures forall j | 0 <= j < h :: t[j] == '#'
    ensures h < 6 ==> h == |t| || t[h] != '#'
  {
    var run := Span(t, 0, Hash);
    if run > 6 then 6 else run
  }

  /** Where the `\s+` of a heading ends once the engine has backtracked: the
      offset after the `#` run at which the heading text starts. */
  function HeadingGap(t: string): Option<nat>
  {
    BackOff(t, HashRun(t), Span(t, HashRun(t), Space))
  }

  /** `/#{1,6}\s+(.+)/`: up to six `#` (more than six fails here, since the
      seventh is not whitespace), whitespace that may cross line breaks, then
      the rest of a line; the match becomes that text between two line
      breaks. The pattern is not anchored to the start of a line. */
  function MatchHeading(t: string): (r: Option<Match>)
    ensures r.Some? <==> HashRun(t) >= 1 && HeadingGap(t).Some?
    ensures r.Some? ==>
      var start := HashRun(t) + HeadingGap(t).value;
      && start < r.value.len <= |t|
      && r.value.replacement == "\n" + t[start..r.value.len] + "\n"
      && (forall j | start <= j < r.value.len :: !IsLineTerminator(t[j]))
      && (r.value.len == |t| || IsLineTerminator(t[r.value.len]))
  {
    var h := HashRun(t);
    if h == 0 then None
    else match HeadingGap(t)
      case None => None
      case Some(k) =>
        var e := LineEnd(t, h + k);
        Some(Match(e, "\n" + t[h + k..e] + "\n"))
  }

  /** The heading pattern is not anchored, so its text can itself be a
      heading: `# # x` becomes `\n# x\n`, and the `# x` left in it matches
      again, becoming `\nx\n`. A second conversion therefore changes what
      the first produced. */
  lemma HeadingNotIdempotent()
    ensures MatchHeading("# # x") == Some(Match(5, "\n# x\n"))
    ensures MatchHeading("# x") == Some(Match(3, "\nx\n"))
  {
    var t, u := "# # x", "# x";
    NestedHeadingParts();
    InnerHeadingParts();
    assert MatchHeading(t) == Some(Match(5, "\n" + t[2..5] + "\n"));
    assert t[2..5] == u;
    assert "\n" + t[2..5] + "\n" == "\n# x\n";
    assert MatchHeading(u) == Some(Match(3, "\n" + u[2..3] + "\n"));
    assert u[2..3] == "x";
    assert "\n" + u[2..3] + "\n" == "\nx\n";
  }

  /** The pieces of the outer heading match: one `#`, one space, then the
      rest of the line. */
  lemma NestedHeadingParts()
    ensures HashRun("# # x") == 1 && HeadingGap("# # x") == Some(1) && LineEnd("# # x", 2) == 5
  {
    var t := "# # x";
    SpanIs(t, 0, Hash, 1);
    SpanIs(t, 1, Space, 1);
    assert DotAt(t, 1, 1);
    SpanIs(t, 2, NotTerminator, 3);
  }

  /** The same pieces for the inner heading. */
  lemma InnerHeadingParts()
    ensures HashRun("# x") == 1 && HeadingGap("# x") == Some(1) && LineEnd("# x", 2) == 3
  {
    var u := "# x";
    SpanIs(u, 0, Hash, 1);
    SpanIs(u, 1, Space, 1);
    assert DotAt(u, 1, 1);
    SpanIs(u, 2, NotTerminator, 1);
  }

  /** The lazy `(.+?)` followed by `marker`: the FIRST index `j >= from`
      where `marker` occurs, provided no line terminator comes before it. */
  function LazyClose(t: string, marker: string, from: nat, j: nat): (r: Option<nat>)
    requires 1 <= from <= j
    requires forall q | from - 1 <= q < j - 1 && q < |t| :: !IsLineTerminator(t[q])
    requires forall q | from <= q < j :: !ContainsAt(t, marker, q)
    ensures r.Some? ==> from <= r.value && ContainsAt(t, marker, r.value)
    ensures r.Some? ==> forall q | from - 1 <= q < r.value :: !IsLineTerminator(t[q])
    ensures r.Some? ==> forall q | from <= q < r.value :: !ContainsAt(t, marker, q)
    decreases |t| - j
  {
    if |t| < j || IsLineTerminator(t[j - 1]) then None
    else if ContainsAt(t, marker, j) then Some(j)
    else LazyClose(t, marker, from, j + 1)
  }

  /** `/M(.+?)M/` for an emphasis marker `M`: the marker, the shortest
      non-empty text on the same line that is followed by the marker, and
      that marker; the text is kept. */
  function MatchEmphasis(t: string, marker: string): (r: Option<Match>)
    requires |marker| > 0
    ensures r.Some? ==> StartsWith(t, marker)
    ensures r.Some? ==>
      var inner := r.value.replacement;
      && r.value.len == |marker| + |inner| + |marker| <= |t|
      && |inner| >= 1
      && t[|marker|..|marker| + |inner|] == inner
      && ContainsAt(t, marker, |marker| + |inner|)
      && (forall q | 0 <= q < |inner| :: !IsLineTerminator(inner[q]))
      && (forall q | |marker| + 1 <= q < |marker| + |inner| :: !ContainsAt(t, marker, q))
  {
    if !StartsWith(t, marker) then None
    else match LazyClose(t, marker, |marker| + 1, |marker| + 1)
      case None => None
      case Some(j) => Some(Match(j + |marker|, t[|marker|..j]))
  }

  /** `/\[([^\]]+)\]\([^\)]+\)/`: `[text](url)` with non-empty text without
      `]` and non-empty url without `)`, both free to span lines; the text is
      kept. */
  function MatchLink(t: string): (r: Option<Match>)
    ensures r.Some? ==> |t| > 0 && t[0] == '['
    ensures r.Some? ==>
      var text := r.value.replacement;
      && 5 <= r.value.len <= |t|
      && |text| + 4 <= r.value.len
      && |text| >= 1
      && t[1..1 + |text|] == text
      && ']' !in text
      && t[1 + |text|] == ']' && t[2 + |text|] == '('
      && t[r.value.len - 1] == ')'
      && (forall q | 3 + |text| <= q < r.value.len - 1 :: t[q] != ')')
  {
    if |t| == 0 || t[0] != '[' then None
    else
      var n := Span(t, 1, NotCloseBracket);
      var k := 1 + n;
      if n == 0 || k + 1 >= |t| || t[k + 1] != '(' then None
      else
        var m := Span(t, k + 2, NotCloseParen);
        if m == 0 || k + 2 + m >= |t| then None
        else
          var text := t[1..k];
          assert forall q | 0 <= q < |text| :: text[q] == t[1 + q];
          Some(Match(k + 3 + m, text))
  }

  /** The lazy search succeeds whenever a closing marker `k` at or after
      `j` has no line terminator before it. */
  lemma {:induction false} LazyCloseFinds(t: string, marker: string, from: nat, j: nat, k: nat)
    requires 1 <= from <= j <= k
    requires forall q | from - 1 <= q < j - 1 && q < |t| :: !IsLineTerminator(t[q])
    requires forall q | from <= q < j :: !ContainsAt(t, marker, q)
    requires ContainsAt(t, marker, k)
    requires forall q | from - 1 <= q < k :: !IsLineTerminator(t[q])
    ensures LazyClose(t, marker, from, j).Some?
    decreases k - j
  {
    if !ContainsAt(t, marker, j) {
      LazyCloseFinds(t, marker, from, j + 1, k);
    }
  }

  /** Emphasis matches whenever the text opens with the marker and the
      marker occurs again later on the same line, at least one character
      on. With the contract of `MatchEmphasis`, the match ends at the first
      such closing marker. */
  lemma MatchEmphasisFinds(t: string, marker: string, k: nat)
    requires |marker| > 0 && StartsWith(t, marker)
    requires |marker| + 1 <= k && ContainsAt(t, marker, k)
    requires forall q | |marker| <= q < k :: !IsLineTerminator(t[q])
    ensures MatchEmphasis(t, marker).Some?
  {
    LazyCloseFinds(t, marker, |marker| + 1, |marker| + 1, k);
  }

  /** `[text](url)` with a non-empty `]`-free text and a non-empty `)`-free
      url is a link match over exactly those characters, replaced by the
      text. */
  lemma MatchLinkExact(t: string, n: nat, m: nat)
    requires 1 <= n && 1 <= m && n + m + 4 <= |t|
    requires t[0] == '[' && t[n + 1] == ']' && t[n + 2] == '(' && t[n + m + 3] == ')'
    requires forall q | 1 <= q <= n :: t[q] != ']'
    requires forall q | n + 3 <= q < n + m + 3 :: t[q] != ')'
    ensures MatchLink(t) == Some(Match(n + m + 4, t[1..n + 1]))
  {
    SpanIs(t, 1, NotCloseBracket, n);
    SpanIs(t, n + 3, NotCloseParen, m);
  }

  /** `/^\s*[-*+]\s+/m`: at the start of a line, optional whitespace (which
      may swallow preceding blank lines), a list marker and at least one
      whitespace character, all replaced by a bullet and a space. */
  function MatchBullet(t: string, lineStart: bool): (r: Option<Match>)
    ensures r.Some? <==>
      && lineStart
      && Span(t, 0, Space) < |t|
      && t[Span(t, 0, Space)] in "-*+"
      && Span(t, Span(t, 0, Space) + 1, Space) >= 1
    ensures r.Some? ==> r.value.replacement == "• " && 2 <= r.value.len <= |t|
    ensures r.Some? ==>
      var w := Span(t, 0, Space);
      && w + 2 <= r.value.len
      && forall q | w + 1 <= q < r.value.len :: IsSpace(t[q])
    ensures r.Some? ==> r.value.len == |t| || !IsSpace(t[r.value.len])
  {
    if !lineStart then None
    else
      var w := Span(t, 0, Space);
      if w == |t| || t[w] !in "-*+" then None
      else
        var w2 := Span(t, w + 1, Space);
        if w2 == 0 then None else Some(Match(w + 1 + w2, "• "))
  }

  /** `/^\s*\d+\.\s+/m`: at the start of a line, optional whitespace, digits,
      a dot and at least one whitespace character, all deleted. */
  function MatchNumbered(t: string, lineStart: bool): (r: Option<Match>)
    ensures r.Some? <==>
      var w := Span(t, 0, Space);
      var d := Span(t, w, Digit);
      && lineStart
      && d >= 1
      && w + d < |t| && t[w + d] == '.'
      && Span(t, w + d + 1, Space) >= 1
    ensures r.Some? ==> r.value.replacement == "" && 3 <= r.value.len <= |t|
  {
    if !lineStart then None
    else
      var w := Span(t, 0, Space);
      var d := Span(t, w, Digit);
      if d == 0 || w + d == |t| || t[w + d] != '.' then None
      else
        var w2 := Span(t, w + d + 1, Space);
        var e := w + d + 1 + w2;
        if w2 == 0 then None else Some(Match(e, ""))
  }

  /** A numbered-marker match takes the leading whitespace, the digits, the
      dot and the whole whitespace run after it, and nothing more. */
  lemma MatchNumberedLength(t: string, lineStart: bool)
    ensures var r := MatchNumbered(t, lineStart);
      r.Some? ==>
        var w := Span(t, 0, Space);
        var d := Span(t, w, Digit);
        && w + d + 2 <= r.value.len
        && (forall q | w + d + 1 <= q < r.value.len :: IsSpace(t[q]))
        && (r.value.len == |t| || !IsSpace(t[r.value.len]))
  {
  }

  /** `/\n{3,}/`: a run of three or more line feeds, taken whole, becomes
      exactly two. */
  function MatchBlankRun(t: string): (r: Option<Match>)
    ensures r.Some? <==> Span(t, 0, Newline) >= 3
    ensures r.Some? ==> r.value == Match(Span(t, 0, Newline), "\n\n")
  {
    var n := Span(t, 0, Newline);
    if n >= 3 then Some(Match(n, "\n\n")) else None
  }

  /** The pattern of `rule` tried at the start of `t`. */
  function MatchAt(rule: Rule, t: string, lineStart: bool): (r: Option<Match>)
    ensures r.Some? ==> 1 <= r.value.len <= |t| && Lead(rule, t[0])
  {
    match rule
    case FencedCode => MatchFencedCode(t)
    case InlineCode => MatchInlineCode(t)
    case Heading => MatchHeading(t)
    case Emphasis(m) => if |m| == 0 then None else MatchEmphasis(t, m)
    case Link => MatchLink(t)
    case Bullet =>
      var r := MatchBullet(t, lineStart);
      assert r.Some? ==> Span(t, 0, Space) == 0 || IsSpace(t[0]);
      r
    case Numbered =>
      var r := MatchNumbered(t, lineStart);
      assert r.Some? ==> Span(t, 0, Space) == 0 || IsSpace(t[0]);
      r
    case BlankRun => MatchBlankRun(t)
  }

  // ---------------------------------------------------------------------------
  // The global replacement
  // ---------------------------------------------------------------------------

  /** A matcher as a value: the match at the start of the remaining input,
      given whether that input starts a line. */
  type Matcher = (string, bool) -> Option<Match>

  /** Every match the matcher reports consumes at least one character and at
      most the whole remaining input. */
  ghost predicate Advances(f: Matcher) {
    forall t: string, b: bool :: f(t, b).Some? ==> 1 <= f(t, b).value.len <= |t|
  }

  /** The global replacement driven by `f`: on a match emit its replacement
      and resume after the matched text, otherwise copy one character. */
  function Scan(f: Matcher, t: string, lineStart: bool): string
    requires Advances(f)
    decreases |t|
  {
    if |t| == 0 then ""
    else match f(t, lineStart)
      case Some(m) => m.replacement + Scan(f, t[m.len..], IsLineTerminator(t[m.len - 1]))
      case None => [t[0]] + Scan(f, t[1..], IsLineTerminator(t[0]))
  }

  /** Where `f` does not match, the scan copies one character and goes on
      after it. */
  lemma ScanCopy(f: Matcher, t: string, lineStart: bool)
    requires Advances(f)
    requires |t| > 0 && f(t, lineStart).None?
    ensures Scan(f, t, lineStart) == [t[0]] + Scan(f, t[1..], IsLineTerminator(t[0]))
  {
  }

  /** A prefix at none of whose positions `f` matches is copied through, and
      the scan carries on after it as if it had started there. */
  lemma {:induction false} ScanSkip(f: Matcher, u: string, v: string, lineStart: bool)
    requires Advances(f)
    requires forall k, b | 0 <= k < |u| :: f(u[k..] + v, b).None?
    ensures Scan(f, u + v, lineStart)
         == u + Scan(f, v, if |u| == 0 then lineStart else IsLineTerminator(u[|u| - 1]))
    decreases |u|
  {
    if |u| == 0 {
      assert u + v == v;
    } else {
      var t, w := u + v, u[1..];
      var next := IsLineTerminator(u[0]);
      assert u[0..] == u;
      assert f(t, lineStart).None?;
      assert t[0] == u[0] && t[1..] == w + v;
      ScanCopy(f, t, lineStart);
      forall k, b | 0 <= k < |w| ensures f(w[k..] + v, b).None? {
        assert w[k..] == u[k + 1..];
      }
      ScanSkip(f, w, v, next);
      var last := if |w| == 0 then next else IsLineTerminator(w[|w| - 1]);
      assert last == IsLineTerminator(u[|u| - 1]) by {
        if |w| > 0 {
          assert w[|w| - 1] == u[|u| - 1];
        }
      }
      ConsRest(u, Scan(f, v, last));
    }
  }

  /** Putting the head back in front of the rest. */
  lemma ConsRest<T>(u: seq<T>, x: seq<T>)
    requires |u| > 0
    ensures [u[0]] + (u[1..] + x) == u + x
  {
    assert u == [u[0]] + u[1..];
  }

  /** `rule`'s pattern as a matcher. */
  function MatcherOf(rule: Rule): (f: Matcher)
    ensures Advances(f)
    ensures forall t, b :: f(t, b) == MatchAt(rule, t, b)
  {
    (t: string, lineStart: bool) => MatchAt(rule, t, lineStart)
  }

  /** `t.replace(pattern, replacement)` with the `g` flag, scanning the
      remaining input `t`; text where the pattern does not start is copied
      unchanged. */
  function Apply(rule: Rule, t: string, lineStart: bool): string
  {
    Scan(MatcherOf(rule), t, lineStart)
  }

  /** Text in which the pattern of `rule` cannot start is copied through,
      and the scan carries on after it as if it had started there. */
  lemma ApplySkip(rule: Rule, u: string, v: string, lineStart: bool)
    requires forall k | 0 <= k < |u| :: !Lead(rule, u[k])
    ensures Apply(rule, u + v, lineStart)
         == u + Apply(rule, v, if |u| == 0 then lineStart else IsLineTerminator(u[|u| - 1]))
  {
    var f := MatcherOf(rule);
    forall k, b | 0 <= k < |u| ensures f(u[k..] + v, b).None? {
      assert (u[k..] + v)[0] == u[k];
    }
    ScanSkip(f, u, v, lineStart);
  }

  /** A match over the whole remaining input leaves just its
      replacement. */
  lemma ScanWhole(f: Matcher, t: string, lineStart: bool, y: string)
    requires Advances(f)
    requires |t| > 0 && f(t, lineStart) == Some(Match(|t|, y))
    ensures Scan(f, t, lineStart) == y
  {
    assert t[|t|..] == [];
  }

  /** `replace(/\[([^\]]+)\]\([^\)]+\)/g, '$1')` turns `[x](u)` into `x`
      when `x` has no `]` and `u` no `)`. */
  lemma LinkUnwrapped(x: string, u: string, lineStart: bool)
    requires |x| >= 1 && ']' !in x
    requires |u| >= 1 && ')' !in u
    ensures Apply(Link, "[" + x + "](" + u + ")", lineStart) == x
  {
    var t := "[" + x + "](" + u + ")";
    var n, m := |x|, |u|;
    assert |t| == n + m + 4;
    assert forall q | 1 <= q <= n :: t[q] == x[q - 1];
    assert forall q | n + 3 <= q < n + m + 3 :: t[q] == u[q - n - 3];
    assert t[0] == '[' && t[n + 1] == ']' && t[n + 2] == '(' && t[n + m + 3] == ')';
    MatchLinkExact(t, n, m);
    assert t[1..n + 1] == x;
    ScanWhole(MatcherOf(Link), t, lineStart, x);
  }

  /** `replace(/M(.+?)M/g, '$1')` turns `M + x + M` into `x` when `x` is a
      non-empty single line without the marker's first character. */
  lemma EmphasisUnwrapped(marker: string, x: string, lineStart: bool)
    requires |marker| > 0 && |x| > 0 && marker[0] !in x
    requires forall q | 0 <= q < |x| :: !IsLineTerminator(x[q])
    ensures Apply(Emphasis(marker), marker + x + marker, lineStart) == x
  {
    var t := marker + x + marker;
    MatchEmphasisWrapped(marker, x);
    ScanWhole(MatcherOf(Emphasis(marker)), t, lineStart, x);
  }

  /** The emphasis match over `M + x + M` is the whole text, and keeps
      `x`. */
  lemma MatchEmphasisWrapped(marker: string, x: string)
    requires |marker| > 0 && |x| > 0 && marker[0] !in x
    requires forall q | 0 <= q < |x| :: !IsLineTerminator(x[q])
    ensures MatchEmphasis(marker + x + marker, marker) == Some(Match(|marker| + |x| + |marker|, x))
  {
    var t := marker + x + marker;
    var k := |marker| + |x|;
    WrappedFacts(marker, x);
    MatchEmphasisFinds(t, marker, k);
    var inner := MatchEmphasis(t, marker).value.replacement;
    assert |marker| + |inner| == k;
    assert inner == t[|marker|..k];
  }

  /** In `M + x + M`: it opens with `M`, `M` occurs again right after `x`
      and nowhere inside it, and there is no line terminator before that. */
  lemma WrappedFacts(marker: string, x: string)
    requires |marker| > 0 && |x| > 0 && marker[0] !in x
    requires forall q | 0 <= q < |x| :: !IsLineTerminator(x[q])
    ensures var t, k := marker + x + marker, |marker| + |x|;
      && StartsWith(t, marker)
      && ContainsAt(t, marker, k)
      && t[|marker|..k] == x
      && (forall q | |marker| <= q < k :: !IsLineTerminator(t[q]))
      && (forall q | |marker| + 1 <= q < k :: !ContainsAt(t, marker, q))
  {
    var t, k := marker + x + marker, |marker| + |x|;
    assert t[..|marker|] == marker;
    assert t[k..k + |marker|] == marker;
    assert t[|marker|..k] == x;
    assert forall q | |marker| <= q < k :: t[q] == x[q - |marker|];
    forall q | |marker| + 1 <= q < k ensures !ContainsAt(t, marker, q) {
      assert t[q] == x[q - |marker|];
    }
  }

  // ---------------------------------------------------------------------------
  // No run of three line feeds
  // ---------------------------------------------------------------------------

  /** Three line feeds start at index `k` of `s`. */
  predicate TripleAt(s: string, k: nat) {
    k + 3 <= |s| && s[k] == '\n' && s[k + 1] == '\n' && s[k + 2] == '\n'
  }

  /** `s` holds no three consecutive line feeds. */
  predicate NoTripleNewline(s: string) {
    forall k: nat | k < |s| :: !TripleAt(s, k)
  }

  /** Number of line feeds `s` starts with. */
  function LeadingNewlines(s: string): nat
  {
    Span(s, 0, Newline)
  }

  /** `n` is the number of leading line feeds once the run is seen to stop
      there. */
  lemma LeadingNewlinesExact(s: string, n: nat)
    requires n <= |s|
    requires forall j | 0 <= j < n :: s[j] == '\n'
    requires n == |s| || s[n] != '\n'
    ensures LeadingNewlines(s) == n
  {
  }

  /** Joining two strings creates no triple line feed when the pieces have
      none and at most two line feeds meet at the seam. */
  lemma ConcatNoTriple(a: string, b: string)
    requires NoTripleNewline(b)
    requires |a| <= 2
    requires forall j | 0 <= j < |a| :: a[j] == '\n'
    requires |a| + LeadingNewlines(b) <= 2
    ensures NoTripleNewline(a + b)
  {
    var s := a + b;
    forall k: nat ensures !TripleAt(s, k) {
      if k >= |a| {
        assert !TripleAt(b, k - |a|);
      } else if k + 3 <= |s| {
        var n := LeadingNewlines(b);
        assert s[|a| + n] == b[n];
      }
    }
  }

  /** A character other than a line feed, followed by a string without a
      triple line feed, makes a string without one either. */
  lemma ConcatNoTripleAfterChar(c: char, b: string)
    requires c != '\n' && NoTripleNewline(b)
    ensures NoTripleNewline([c] + b)
  {
    var s := [c] + b;
    forall k: nat ensures !TripleAt(s, k) {
      if k >= 1 {
        assert !TripleAt(b, k - 1);
      }
    }
  }

  /** The blank-run replacement leaves no triple line feed, and its output
      starts with at most two line feeds: exactly as many as the input, capped
      at two. */
  lemma {:induction false} BlankRunOutput(t: string, lineStart: bool)
    ensures NoTripleNewline(Apply(BlankRun, t, lineStart))
    ensures LeadingNewlines(Apply(BlankRun, t, lineStart))
         == if LeadingNewlines(t) > 2 then 2 else LeadingNewlines(t)
    decreases |t|
  {
    var out := Apply(BlankRun, t, lineStart);
    if |t| == 0 {
      assert out == "";
    } else {
      var n := Span(t, 0, Newline);
      match MatchAt(BlankRun, t, lineStart)
      case Some(m) =>
        var rest := Apply(BlankRun, t[n..], IsLineTerminator(t[n - 1]));
        BlankRunOutput(t[n..], IsLineTerminator(t[n - 1]));
        assert LeadingNewlines(t[n..]) == 0 by {
          assert n == |t| || t[n] != '\n';
        }
        assert out == "\n\n" + rest;
        ConcatNoTriple("\n\n", rest);
        assert |rest| == 0 || rest[0] != '\n';
        LeadingNewlinesExact(out, 2);
      case None =>
        var rest := Apply(BlankRun, t[1..], IsLineTerminator(t[0]));
        BlankRunOutput(t[1..], IsLineTerminator(t[0]));
        assert out == [t[0]] + rest;
        if t[0] == '\n' {
          assert n <= 2;
          assert LeadingNewlines(t[1..]) == n - 1 by {
            assert forall j | 1 <= j < n :: t[1..][j - 1] == t[j];
            assert n == |t| || t[n] != '\n';
          }
          ConcatNoTriple("\n", rest);
          assert forall j | 1 <= j < 1 + LeadingNewlines(rest) :: out[j] == rest[j - 1];
          assert 1 + LeadingNewlines(rest) == |out| || out[1 + LeadingNewlines(rest)] != '\n';
        } else {
          ConcatNoTripleAfterChar(t[0], rest);
        }
    }
  }

  /** A slice of a string without a triple line feed has none either. */
  lemma SliceNoTriple(s: string, a: nat, b: nat)
    requires a <= b <= |s| && NoTripleNewline(s)
    ensures NoTripleNewline(s[a..b])
  {
    var u := s[a..b];
    forall k: nat ensures !TripleAt(u, k) {
      assert !TripleAt(s, a + k);
    }
  }

  // ---------------------------------------------------------------------------
  // parseMarkdownToPlainText
  // ---------------------------------------------------------------------------

  /** The last replacement, `/\n{3,}/g -> '\n\n'`: afterwards no three line
      feeds follow one another. */
  function CollapseBlankRuns(t: string): (r: string)
    ensures NoTripleNewline(r)
  {
    BlankRunOutput(t, true);
    Apply(BlankRun, t, true)
  }

  /** `parseMarkdownToPlainText(markdown)`: empty input gives empty output;
      otherwise the replacements run in source order (fences, inline code,
      headings, emphasis longest marker first, links, bullets, numbered
      markers, blank runs) and the result is trimmed. The result never holds
      three consecutive line feeds and neither starts nor ends with
      whitespace. */
  function Normalize(markdown: string): (r: string)
    ensures markdown == "" ==> r == ""
    ensures NoTripleNewline(r)
    ensures r == "" || (!IsSpace(r[0]) && !IsSpace(r[|r| - 1]))
  {
    if markdown == "" then ""
    else
      var t := CollapseBlankRuns(ApplyAll(Passes, markdown));
      var r := Trim(t);
      SliceNoTriple(t, LeadingSpace(t), LeadingSpace(t) + |r|);
      r
  }

  /** The replacements before the blank-run collapse, in source order:
      fences, inline code, headings, emphasis (longest marker first), links,
      bullets, numbered-list markers. */
  const Passes: seq<Rule> := [
    FencedCode, InlineCode, Heading,
    Emphasis("***"), Emphasis("**"), Emphasis("*"),
    Emphasis("___"), Emphasis("__"), Emphasis("_"),
    Link, Bullet, Numbered]

  /** Runs the replacements of `rules` one after the other, each over the
      whole output of the previous one. */
  function ApplyAll(rules: seq<Rule>, t: string): string
  {
    if |rules| == 0 then t else ApplyAll(rules[1..], Apply(rules[0], t, true))
  }

  // ---------------------------------------------------------------------------
  // Plain text passes through
  // ---------------------------------------------------------------------------

  /** Letters, digits, commas, spaces and line feeds: characters none of the
      markdown patterns is built from. */
  predicate PlainChar(c: char) {
    ('a' <= c <= 'z') || ('A' <= c <= 'Z') || IsDigit(c) || c == ' ' || c == ',' || c == '\n'
  }

  /** Text made of plain characters only, with no run of three line feeds. */
  predicate Plain(t: string) {
    && (forall k | 0 <= k < |t| :: PlainChar(t[k]))
    && NoTripleNewline(t)
  }

  /** None of the patterns matches at the start of plain text, whether or
      not it starts a line. */
  lemma PlainNoMatch(rule: Rule, s: string, b: bool)
    requires rule in Passes || rule == BlankRun
    requires Plain(s)
    ensures MatchAt(rule, s, b).None?
  {
    if rule == Bullet {
      PlainNoBullet(s, b);
    } else if rule == Numbered {
      PlainNoNumbered(s, b);
    } else if rule == BlankRun {
      assert Span(s, 0, Newline) >= 3 ==> TripleAt(s, 0);
    } else {
      PlainNoLead(rule, s, b);
    }
  }

  /** The other patterns start with a character plain text does not hold. */
  lemma PlainNoLead(rule: Rule, s: string, b: bool)
    requires rule in Passes && rule != Bullet && rule != Numbered
    requires Plain(s)
    ensures MatchAt(rule, s, b).None?
  {
    if |s| > 0 {
      assert PlainChar(s[0]);
      assert !Lead(rule, s[0]);
    }
  }

  /** After its leading whitespace, plain text goes on with no list marker. */
  lemma PlainNoBullet(s: string, b: bool)
    requires Plain(s)
    ensures MatchBullet(s, b).None?
  {
    var w := Span(s, 0, Space);
    assert w < |s| ==> !IsSpace(s[w]) && PlainChar(s[w]);
  }

  /** Plain text holds no `.`, so no digits in it end in one. */
  lemma PlainNoNumbered(s: string, b: bool)
    requires Plain(s)
    ensures MatchNumbered(s, b).None?
  {
    var w := Span(s, 0, Space);
    var d := Span(s, w, Digit);
    assert w + d < |s| ==> PlainChar(s[w + d]);
  }

  /** A suffix of plain text is plain. */
  lemma PlainSuffix(t: string, k: nat)
    requires Plain(t) && k <= |t|
    ensures Plain(t[k..])
  {
    SliceNoTriple(t, k, |t|);
    assert t[k..|t|] == t[k..];
  }

  /** Each pass copies plain text unchanged. */
  lemma PlainPassKeeps(rule: Rule, t: string)
    requires rule in Passes || rule == BlankRun
    requires Plain(t)
    ensures Apply(rule, t, true) == t
  {
    var f := MatcherOf(rule);
    forall k, b | 0 <= k < |t| ensures f(t[k..] + "", b).None? {
      assert t[k..] + "" == t[k..];
      PlainSuffix(t, k);
      PlainNoMatch(rule, t[k..], b);
    }
    ScanSkip(f, t, "", true);
    assert t + "" == t;
  }

  /** A run of passes copies plain text unchanged. */
  lemma {:induction false} PlainPassesKeep(rules: seq<Rule>, t: string)
    requires forall i | 0 <= i < |rules| :: rules[i] in Passes
    requires Plain(t)
    ensures ApplyAll(rules, t) == t
    decreases |rules|
  {
    if |rules| > 0 {
      PlainPassKeeps(rules[0], t);
      PlainPassesKeep(rules[1..], t);
    }
  }

  /** The conversion removes formatting but keeps the text: plain text (words,
      digits, commas, spaces and line breaks, no three line feeds in a row)
      that neither starts nor ends with whitespace comes back unchanged. */
  lemma NormalizeKeepsPlain(t: string)
    requires t != "" && Plain(t)
    requires !IsSpace(t[0]) && !IsSpace(t[|t| - 1])
    ensures Normalize(t) == t
  {
    PlainPassesKeep(Passes, t);
    PlainPassKeeps(BlankRun, t);
    TrimNoEdgeSpace(t);
  }
}
