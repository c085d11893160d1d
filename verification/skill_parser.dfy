/** `parseSkills` and `getAllSkills` (`src/lib/skillParser.js`): skill
    groups read off the markdown of a skills section.

    The content is split on `\n` and every line yields at most one group. A
    line the pattern `/\*\s+\*\*([^*]+)\*\*[:\s]+(.+)/` matches anywhere in it
    gives the trimmed text between the bold markers as the category and the
    comma-separated, trimmed, non-empty items after the separator as the
    skills. Any other line whose trimmed form starts with `*` or `-` gives a
    one-skill group `General`, unless what is left after the bullet is empty
    or holds `**`. */
module SkillParser {
  import opened Wrappers
  import opened Text

  datatype SkillGroup = SkillGroup(category: string, skills: seq<string>)

  /** A skill as the parser emits it: non-empty, with no `\s` at either
      end. */
  predicate Clean(s: string) {
    s != "" && Trim(s) == s
  }

  /** Every skill of every group is clean. */
  predicate CleanGroups(gs: seq<SkillGroup>) {
    forall i, j | 0 <= i < |gs| && 0 <= j < |gs[i].skills| :: Clean(gs[i].skills[j])
  }

  // ---------------------------------------------------------------------------
  // The category pattern
  // ---------------------------------------------------------------------------

  /** A match of the category pattern: where it starts, its first group (the
      text between the bold markers) and its second group (the rest of the
      line after the separator). */
  datatype SkillMatch = SkillMatch(at: nat, category: string, list: string)

  /** `(.+)` can start `j` characters after `f`: there is a character there
      and it is not a line terminator. */
  predicate ListCanStart(line: string, f: nat, j: nat) {
    f + j < |line| && !IsLineTerminator(line[f + j])
  }

  /** Where `(.+)` starts after the separator run of length `k` that begins
      at `f`: `[:\s]+` is greedy, so the engine tries the longest separator
      first and gives characters back until `.` can match the next one (a
      `:` or a space that is not a line terminator). */
  function ListStart(line: string, f: nat, k: nat): (r: Option<nat>)
    ensures r.Some? ==> 1 <= r.value <= k && ListCanStart(line, f, r.value)
    ensures r.Some? ==> forall j | r.value < j <= k :: !ListCanStart(line, f, j)
    ensures r.None? ==> forall j | 1 <= j <= k :: !ListCanStart(line, f, j)
  {
    if k == 0 then None
    else if ListCanStart(line, f, k) then Some(k)
    else ListStart(line, f, k - 1)
  }

  /** Where `(.+)` starts after the separator `[:\s]+` that begins at
      `f`, counted from `f`. */
  function ListAfter(line: string, f: nat): (r: Option<nat>)
    requires f <= |line|
    ensures r.Some? ==> 1 <= r.value && ListCanStart(line, f, r.value)
  {
    ListStart(line, f, Span(line, f, ColonOrSpace))
  }

  /** The opening of the pattern at `p`: `*`, the whole run of `\s` after it
      (at least one; `\s+` cannot give any back, since a `*` must follow),
      and `**`. The result is where the category starts. */
  function OpenAt(line: string, p: nat): (r: Option<nat>)
    ensures r.Some? ==>
      && p < |line| && line[p] == '*'
      && p + 4 <= r.value <= |line|
      && line[r.value - 2] == '*' && line[r.value - 1] == '*'
      && forall i | p < i < r.value - 2 :: IsSpace(line[i])
  {
    if p >= |line| || line[p] != '*' then None
    else
      var w := Span(line, p + 1, Space);
      var q := p + 1 + w;
      if w == 0 || !(q + 2 <= |line| && line[q] == '*' && line[q + 1] == '*') then None
      else Some(q + 2)
  }

  /** The category from `s` on: the whole run of `[^*]` there (at least one
      character) followed by `**`. The result is where the category ends. */
  function CloseAt(line: string, s: nat): (r: Option<nat>)
    requires s <= |line|
    ensures r.Some? ==>
      && s < r.value && r.value + 2 <= |line|
      && '*' !in line[s..r.value]
      && line[r.value] == '*' && line[r.value + 1] == '*'
  {
    var c := Span(line, s, NotStar);
    var e := s + c;
    if c == 0 || !(e + 2 <= |line| && line[e] == '*' && line[e + 1] == '*') then None
    else
      assert forall i | 0 <= i < c :: line[s..e][i] == line[s + i];
      Some(e)
  }

  /** The category pattern tried at position `p` of the line: the opening,
      the category, the separator and the list, which is the longest run of
      non-line-terminators from where `ListStart` puts it. */
  function MatchCategoryAt(line: string, p: nat): (r: Option<SkillMatch>)
    ensures r.Some? ==>
      && p < |line| && line[p] == '*'
      && r.value.at == p
      && |r.value.category| > 0 && '*' !in r.value.category
      && |r.value.list| > 0
      && forall i | 0 <= i < |r.value.list| :: !IsLineTerminator(r.value.list[i])
    ensures r.Some? ==>
      && OpenAt(line, p).Some?
      && CloseAt(line, OpenAt(line, p).value).Some?
      && var s := OpenAt(line, p).value;
         var e := CloseAt(line, s).value;
         ListAfter(line, e + 2).Some? && r.value == Captures(line, p, s, e, ListAfter(line, e + 2).value)
  {
    var open := OpenAt(line, p);
    if open.None? then None
    else
      var close := CloseAt(line, open.value);
      if close.None? then None
      else
        var start := ListAfter(line, close.value + 2);
        if start.None? then None
        else Some(Captures(line, p, open.value, close.value, start.value))
  }

  /** The captures once the parts are found: the category `line[s..e]`,
      and the list, which is the longest run of non-line-terminators from
      `j` characters after the closing `**` at `e` (non-empty when `.` can
      match there). */
  function Captures(line: string, p: nat, s: nat, e: nat, j: nat): (m: SkillMatch)
    requires s <= e && e + 2 + j <= |line|
    ensures m.at == p && m.category == line[s..e]
    ensures var g := e + 2 + j;
      && g + |m.list| <= |line| && m.list == line[g..g + |m.list|]
      && (g + |m.list| == |line| || IsLineTerminator(line[g + |m.list|]))
    ensures forall i | 0 <= i < |m.list| :: !IsLineTerminator(m.list[i])
    ensures ListCanStart(line, e + 2, j) ==> |m.list| > 0
  {
    var g := e + 2 + j;
    var n := Span(line, g, NotTerminator);
    var list := line[g..g + n];
    assert forall i | 0 <= i < n :: list[i] == line[g + i];
    SkillMatch(p, line[s..e], list)
  }

  /** A match exists exactly when its three parts do: the opening at `p`,
      the category with its closing `**`, and a place for the list after the
      separator. */
  lemma MatchCategoryParts(line: string, p: nat)
    ensures MatchCategoryAt(line, p).Some? <==>
      && OpenAt(line, p).Some?
      && CloseAt(line, OpenAt(line, p).value).Some?
      && var e := CloseAt(line, OpenAt(line, p).value).value;
         ListAfter(line, e + 2).Some?
  {
  }

  /** The leftmost position at or after `from` where `at` finds a match. */
  function Leftmost(at: (string, nat) -> Option<SkillMatch>, line: string, from: nat): (r: Option<nat>)
    ensures r.Some? ==> from <= r.value < |line| && at(line, r.value).Some?
    ensures r.Some? ==> forall p | from <= p < r.value :: at(line, p).None?
    ensures r.None? ==> forall p | from <= p < |line| :: at(line, p).None?
    decreases |line| - from
  {
    if from >= |line| then None
    else if at(line, from).Some? then Some(from)
    else Leftmost(at, line, from + 1)
  }

  /** `line.match(pattern)`: the match at the leftmost position where the
      pattern matches, or none when it matches nowhere. */
  function FindCategory(line: string): (r: Option<SkillMatch>)
    ensures r.Some? ==> r.value.at < |line| && MatchCategoryAt(line, r.value.at) == r
    ensures r.Some? ==> forall p | 0 <= p < r.value.at :: MatchCategoryAt(line, p).None?
    ensures r.None? ==> forall p | 0 <= p < |line| :: MatchCategoryAt(line, p).None?
  {
    match Leftmost(MatchCategoryAt, line, 0)
    case Some(p) => MatchCategoryAt(line, p)
    case None => None
  }

  // ---------------------------------------------------------------------------
  // Skill lists
  // ---------------------------------------------------------------------------

  /** `.map(s => s.trim()).filter(s => s.length > 0)`. */
  function KeepTrimmed(parts: seq<string>): (r: seq<string>)
    ensures |r| <= |parts|
    ensures forall i | 0 <= i < |r| :: Clean(r[i])
  {
    if |parts| == 0 then []
    else
      TrimIdempotent(parts[0]);
      (if Trim(parts[0]) == "" then [] else [Trim(parts[0])]) + KeepTrimmed(parts[1..])
  }

  /** `x` is the trim of some item of `parts`. */
  predicate TrimOfSome(parts: seq<string>, x: string) {
    exists i | 0 <= i < |parts| :: Trim(parts[i]) == x
  }

  lemma TrimOfSomeCons(parts: seq<string>, x: string)
    requires |parts| > 0
    ensures TrimOfSome(parts, x) <==> Trim(parts[0]) == x || TrimOfSome(parts[1..], x)
  {
    if TrimOfSome(parts, x) && Trim(parts[0]) != x {
      var i :| 0 <= i < |parts| && Trim(parts[i]) == x;
      assert parts[1..][i - 1] == parts[i];
    }
    if TrimOfSome(parts[1..], x) {
      var i :| 0 <= i < |parts[1..]| && Trim(parts[1..][i]) == x;
      assert parts[i + 1] == parts[1..][i];
    }
  }

  /** What the filter keeps: a string is kept exactly when it is the
      non-empty trim of some item. */
  lemma {:induction false} KeepTrimmedMember(parts: seq<string>)
    ensures forall x :: x in KeepTrimmed(parts) <==> x != "" && TrimOfSome(parts, x)
    decreases |parts|
  {
    if |parts| > 0 {
      KeepTrimmedMember(parts[1..]);
      var head := if Trim(parts[0]) == "" then [] else [Trim(parts[0])];
      assert KeepTrimmed(parts) == head + KeepTrimmed(parts[1..]);
      forall x ensures x in KeepTrimmed(parts) <==> x != "" && TrimOfSome(parts, x) {
        TrimOfSomeCons(parts, x);
      }
    }
  }

  /** The filter works item by item: the kept items of two lists are those
      of the first followed by those of the second. */
  lemma {:induction false} KeepTrimmedAppend(a: seq<string>, b: seq<string>)
    ensures KeepTrimmed(a + b) == KeepTrimmed(a) + KeepTrimmed(b)
    decreases |a|
  {
    if |a| == 0 {
      assert a + b == b;
    } else {
      assert (a + b)[0] == a[0] && (a + b)[1..] == a[1..] + b;
      KeepTrimmedUnfold(a + b);
      KeepTrimmedUnfold(a);
      KeepTrimmedAppend(a[1..], b);
      SeqAssoc(KeptItem(a[0]), KeepTrimmed(a[1..]), KeepTrimmed(b));
    }
  }

  /** The item an element contributes to the filter: its trim, or nothing
      when that is blank. */
  function KeptItem(x: string): seq<string>
  {
    if Trim(x) == "" then [] else [Trim(x)]
  }

  lemma SeqAssoc<T>(x: seq<T>, y: seq<T>, z: seq<T>)
    ensures x + (y + z) == (x + y) + z
  {
  }

  lemma KeepTrimmedUnfold(xs: seq<string>)
    requires |xs| > 0
    ensures KeepTrimmed(xs) == KeptItem(xs[0]) + KeepTrimmed(xs[1..])
  {
  }


  /** When no item is blank, nothing is dropped: the result is the items,
      each trimmed. */
  lemma {:induction false} KeepTrimmedNoBlank(parts: seq<string>)
    requires forall i | 0 <= i < |parts| :: Trim(parts[i]) != ""
    ensures |KeepTrimmed(parts)| == |parts|
    ensures forall i | 0 <= i < |parts| :: KeepTrimmed(parts)[i] == Trim(parts[i])
    decreases |parts|
  {
    if |parts| > 0 {
      KeepTrimmedNoBlank(parts[1..]);
    }
  }

  /** The skills of a category line: its list split on `,`, trimmed, blanks
      dropped. */
  function SplitSkills(list: string): (r: seq<string>)
    ensures |r| <= |Split(list, ',')|
    ensures forall i | 0 <= i < |r| :: Clean(r[i]) && ',' !in r[i]
    ensures forall x :: x in r <==> x != "" && TrimOfSome(Split(list, ','), x)
  {
    var r := KeepTrimmed(Split(list, ','));
    KeepTrimmedMember(Split(list, ','));
    forall i | 0 <= i < |r| ensures ',' !in r[i] {
      assert r[i] in r;
      var k :| 0 <= k < |Split(list, ',')| && Trim(Split(list, ',')[k]) == r[i];
      TrimKeepsOut(Split(list, ',')[k], ',');
    }
    r
  }

  /** Trimming only removes characters. */
  lemma TrimKeepsOut(s: string, c: char)
    requires c !in s
    ensures c !in Trim(s)
  {
  }

  // ---------------------------------------------------------------------------
  // Lines
  // ---------------------------------------------------------------------------

  /** `line.replace(/^[\*\-]\s+/, '')`: a bullet at the very start of the
      line (not after indentation) is removed with the whitespace after
      it. */
  function StripBullet(line: string): (r: string)
    ensures |line| > 0 && (line[0] == '*' || line[0] == '-') && |line| > 1 && IsSpace(line[1]) ==>
      && |r| < |line| - 1 && r == line[|line| - |r|..] && (r == "" || !IsSpace(r[0]))
      && forall k | 1 <= k < |line| - |r| :: IsSpace(line[k])
    ensures !(|line| > 1 && (line[0] == '*' || line[0] == '-') && IsSpace(line[1])) ==> r == line
  {
    if |line| > 0 && (line[0] == '*' || line[0] == '-') && Span(line, 1, Space) > 0 then
      line[1 + Span(line, 1, Space)..]
    else line
  }

  /** What one line contributes: a category group, a `General` group, or
      nothing. Every skill it holds is clean. */
  function ParseLine(line: string): (r: Option<SkillGroup>)
    ensures r.Some? ==> forall i | 0 <= i < |r.value.skills| :: Clean(r.value.skills[i])
    ensures FindCategory(line).Some? ==>
      var m := FindCategory(line).value;
      r == Some(SkillGroup(Trim(m.category), SplitSkills(m.list)))
    ensures FindCategory(line).None? ==>
      var t, s := Trim(line), Trim(StripBullet(line));
      && (r.Some? <==> |t| > 0 && (t[0] == '*' || t[0] == '-') && s != "" && !Contains(s, "**"))
      && (r.Some? ==> r.value == SkillGroup("General", [s]))
  {
    match FindCategory(line)
    case Some(m) => Some(SkillGroup(Trim(m.category), SplitSkills(m.list)))
    case None =>
      var t := Trim(line);
      if |t| > 0 && (t[0] == '*' || t[0] == '-') then
        var skill := Trim(StripBullet(line));
        TrimIdempotent(StripBullet(line));
        if skill != "" && !Contains(skill, "**") then Some(SkillGroup("General", [skill])) else None
      else None
  }

  /** The values `f` gives for the elements of `xs`, in order, skipping
      those it gives none for. */
  function Collect<A, B>(f: A -> Option<B>, xs: seq<A>): (r: seq<B>)
    ensures |r| <= |xs|
  {
    if |xs| == 0 then []
    else (match f(xs[0]) case Some(y) => [y] case None => []) + Collect(f, xs[1..])
  }

  lemma {:induction false} CollectAppend<A, B>(f: A -> Option<B>, a: seq<A>, b: seq<A>)
    ensures Collect(f, a + b) == Collect(f, a) + Collect(f, b)
    decreases |a|
  {
    if |a| == 0 {
      assert a + b == b;
    } else {
      assert (a + b)[0] == a[0] && (a + b)[1..] == a[1..] + b;
      CollectAppend(f, a[1..], b);
    }
  }

  /** The groups of the lines, in line order. */
  function ParseLines(lines: seq<string>): (r: seq<SkillGroup>)
    ensures |r| <= |lines|
    ensures CleanGroups(r)
  {
    CollectClean(lines);
    Collect(ParseLine, lines)
  }

  lemma {:induction false} CollectClean(lines: seq<string>)
    ensures CleanGroups(Collect(ParseLine, lines))
    decreases |lines|
  {
    if |lines| > 0 {
      CollectClean(lines[1..]);
      var head := match ParseLine(lines[0]) case Some(g) => [g] case None => [];
      var rest := Collect(ParseLine, lines[1..]);
      assert CleanGroups(head);
      CleanGroupsAppend(head, rest);
    }
  }

  lemma CleanGroupsAppend(a: seq<SkillGroup>, b: seq<SkillGroup>)
    requires CleanGroups(a) && CleanGroups(b)
    ensures CleanGroups(a + b)
  {
    forall i, j | 0 <= i < |a + b| && 0 <= j < |(a + b)[i].skills| ensures Clean((a + b)[i].skills[j]) {
      if i >= |a| {
        assert (a + b)[i] == b[i - |a|];
      }
    }
  }

  lemma ParseLinesAppend(a: seq<string>, b: seq<string>)
    ensures ParseLines(a + b) == ParseLines(a) + ParseLines(b)
  {
    CollectAppend(ParseLine, a, b);
  }

  // ---------------------------------------------------------------------------
  // parseSkills / getAllSkills
  // ---------------------------------------------------------------------------

  /** `parseSkills(markdownContent)`: nothing for empty content; otherwise at
      most one group per line, every skill clean. */
  function ParseSkills(content: string): (r: seq<SkillGroup>)
    ensures content == "" ==> r == []
    ensures |r| <= |Split(content, '\n')|
    ensures CleanGroups(r)
  {
    if content == "" then [] else ParseLines(Split(content, '\n'))
  }

  /** The empty content yields what its one empty line would: the early
      return changes no result. */
  lemma ParseSkillsIsParseLines(content: string)
    ensures ParseSkills(content) == ParseLines(Split(content, '\n'))
  {
    if content == "" {
      assert Split(content, '\n') == [""];
      assert FindCategory("").None?;
      assert ParseLine("").None?;
    }
  }

  /** Lines are independent: the groups of two texts joined by a newline are
      the groups of the first followed by those of the second. */
  lemma ParseSkillsLines(a: string, b: string)
    ensures ParseSkills(a + "\n" + b) == ParseSkills(a) + ParseSkills(b)
  {
    ParseSkillsIsParseLines(a + "\n" + b);
    ParseSkillsIsParseLines(a);
    ParseSkillsIsParseLines(b);
    SplitAppend(a, b, '\n');
    ParseLinesAppend(Split(a, '\n'), Split(b, '\n'));
  }

  /** Every group's skills, in order. */
  function Flatten(gs: seq<SkillGroup>): (r: seq<string>)
    ensures forall x :: x in r <==> exists i | 0 <= i < |gs| :: x in gs[i].skills
    ensures CleanGroups(gs) ==> forall k | 0 <= k < |r| :: Clean(r[k])
  {
    if |gs| == 0 then []
    else
      var rest := Flatten(gs[1..]);
      forall x | x in rest ensures exists i | 0 <= i < |gs| :: x in gs[i].skills {
        var i :| 0 <= i < |gs[1..]| && x in gs[1..][i].skills;
        assert gs[1..][i] == gs[i + 1];
      }
      forall x, i | 1 <= i < |gs| && x in gs[i].skills ensures x in rest {
        assert gs[1..][i - 1] == gs[i];
      }
      gs[0].skills + rest
  }

  lemma {:induction false} FlattenAppend(a: seq<SkillGroup>, b: seq<SkillGroup>)
    ensures Flatten(a + b) == Flatten(a) + Flatten(b)
    decreases |a|
  {
    if |a| == 0 {
      assert a + b == b;
    } else {
      assert (a + b)[0] == a[0] && (a + b)[1..] == a[1..] + b;
      FlattenAppend(a[1..], b);
    }
  }

  /** One group flattens to its own skills. */
  lemma FlattenOne(g: SkillGroup)
    ensures Flatten([g]) == g.skills
  {
    assert [g][1..] == [];
  }

  /** How many skills the groups hold together. */
  function SkillCount(gs: seq<SkillGroup>): nat
  {
    if |gs| == 0 then 0 else |gs[0].skills| + SkillCount(gs[1..])
  }

  /** `r` is the groups' skills laid end to end: it holds as many skills as
      the groups together, and skill `j` of group `i` sits right after the
      skills of the groups before `i`. */
  predicate EndToEnd(r: seq<string>, gs: seq<SkillGroup>) {
    && |r| == SkillCount(gs)
    && forall i, j | 0 <= i < |gs| && 0 <= j < |gs[i].skills| ::
         SkillCount(gs[..i]) + j < |r| && r[SkillCount(gs[..i]) + j] == gs[i].skills[j]
  }

  /** Flattening lays the groups' skills end to end, in group order. */
  lemma {:induction false} FlattenAt(gs: seq<SkillGroup>)
    ensures EndToEnd(Flatten(gs), gs)
    decreases |gs|
  {
    if |gs| == 0 {
      assert Flatten(gs) == [];
    } else {
      FlattenAt(gs[1..]);
      EndToEndCons(gs[0], gs[1..], Flatten(gs[1..]));
      assert [gs[0]] + gs[1..] == gs;
    }
  }

  /** Putting a group's skills in front of a flat list puts the group in
      front of the groups it lays out. */
  lemma EndToEndCons(g: SkillGroup, t: seq<SkillGroup>, f: seq<string>)
    requires EndToEnd(f, t)
    ensures EndToEnd(g.skills + f, [g] + t)
  {
    var gs, r := [g] + t, g.skills + f;
    assert gs[1..] == t;
    forall i, j | 0 <= i < |gs| && 0 <= j < |gs[i].skills|
      ensures SkillCount(gs[..i]) + j < |r| && r[SkillCount(gs[..i]) + j] == gs[i].skills[j]
    {
      if i == 0 {
        assert gs[..0] == [];
      } else {
        assert gs[..i][1..] == t[..i - 1];
        assert gs[..i][0] == g;
        assert gs[i] == t[i - 1];
        var k := SkillCount(t[..i - 1]) + j;
        assert k < |f| && f[k] == t[i - 1].skills[j];
        assert SkillCount(gs[..i]) + j == |g.skills| + k;
      }
    }
  }

  /** `getAllSkills(markdownContent)`: the skills of every group, laid end
      to end in group order, duplicates kept; a string is in it exactly when
      some group lists it. */
  function GetAllSkills(content: string): (r: seq<string>)
    ensures EndToEnd(r, ParseSkills(content))
    ensures forall x :: x in r <==> exists i | 0 <= i < |ParseSkills(content)| :: x in ParseSkills(content)[i].skills
    ensures forall i | 0 <= i < |r| :: Clean(r[i])
  {
    FlattenAt(ParseSkills(content));
    Flatten(ParseSkills(content))
  }

  /** The flat list of two texts joined by a newline is the flat list of the
      first followed by that of the second. */
  lemma GetAllSkillsLines(a: string, b: string)
    ensures GetAllSkills(a + "\n" + b) == GetAllSkills(a) + GetAllSkills(b)
  {
    ParseSkillsLines(a, b);
    FlattenAppend(ParseSkills(a), ParseSkills(b));
  }

  // ---------------------------------------------------------------------------
  // Round trip
  // ---------------------------------------------------------------------------

  /** A skill line written the way the skills sections are written:
      `* **Category** skill, skill, ...`. */
  function RenderSkillLine(category: string, skills: seq<string>): string
  {
    "* **" + category + "** " + Join(skills, ", ")
  }

  /** A category and skills that survive a trip through a skill line: the
      category is clean and has no `*`, every skill is clean and holds no
      comma and no line terminator, and the first skill does not start with
      a `:` (which the separator would take). */
  predicate Renderable(category: string, skills: seq<string>) {
    && Clean(category) && '*' !in category
    && (forall i | 0 <= i < |skills| ::
         && Clean(skills[i]) && ',' !in skills[i]
         && forall k | 0 <= k < |skills[i]| :: !IsLineTerminator(skills[i][k]))
    && |skills| > 0 && skills[0] != "" && skills[0][0] != ':'
  }

  /** Parsing a rendered skill line gives back its category and skills. */
  lemma ParseRenderedLine(category: string, skills: seq<string>)
    requires Renderable(category, skills)
    ensures ParseLine(RenderSkillLine(category, skills)) == Some(SkillGroup(category, skills))
  {
    var j := Join(skills, ", ");
    JoinNoTerminator(skills);
    JoinStart(skills);
    RenderedMatch(category, j);
    ItemsRoundTrip(skills, "");
    assert "" + j == j;
  }

  /** The category pattern matches a rendered line at its first character,
      with the category and the joined skills as its groups. */
  lemma RenderedMatch(category: string, j: string)
    requires category != "" && '*' !in category
    requires j != "" && j[0] != ':' && !IsSpace(j[0])
    requires forall k | 0 <= k < |j| :: !IsLineTerminator(j[k])
    ensures FindCategory("* **" + category + "** " + j) == Some(SkillMatch(0, category, j))
  {
    var line := "* **" + category + "** " + j;
    var c := |category|;
    Parts("* **", category, "** ", j);
    var sep := line[4 + c..7 + c];
    assert line[4 + c] == sep[0] && line[5 + c] == sep[1] && line[6 + c] == sep[2];
    assert line[7 + c] == line[7 + c..][0];
    RenderedOpen(line);
    RenderedClose(line, c);
    assert forall i | 7 + c <= i < |line| :: line[i] == line[7 + c..][i - (7 + c)];
    RenderedList(line, 6 + c);
    MatchAtStart(line, c, |j|);
  }

  /** The four pieces of a concatenation, read back by position. */
  lemma Parts(a: string, b: string, c: string, d: string)
    ensures
      var l := a + b + c + d;
      && |l| == |a| + |b| + |c| + |d|
      && l[..|a|] == a
      && l[|a|..|a| + |b|] == b
      && l[|a| + |b|..|a| + |b| + |c|] == c
      && l[|a| + |b| + |c|..] == d
  {
  }

  /** The pattern at position 0 once its three stages are known. */
  lemma MatchAtStart(line: string, c: nat, n: nat)
    requires 7 + c + n == |line|
    requires OpenAt(line, 0) == Some(4) && CloseAt(line, 4) == Some(4 + c)
    requires ListStart(line, 6 + c, Span(line, 6 + c, ColonOrSpace)) == Some(1)
    requires Span(line, 7 + c, NotTerminator) == n
    ensures MatchCategoryAt(line, 0) == Some(SkillMatch(0, line[4..4 + c], line[7 + c..]))
  {
    assert line[7 + c..7 + c + n] == line[7 + c..];
  }

  lemma RenderedOpen(line: string)
    requires |line| >= 4 && line[..4] == "* **"
    ensures OpenAt(line, 0) == Some(4)
  {
    assert line[1] == ' ' && line[2] == '*';
    SpanIs(line, 1, Space, 1);
  }

  lemma RenderedClose(line: string, c: nat)
    requires 0 < c && 4 + c + 2 <= |line|
    requires '*' !in line[4..4 + c]
    requires line[4 + c] == '*' && line[5 + c] == '*'
    ensures CloseAt(line, 4) == Some(4 + c)
  {
    assert forall i | 4 <= i < 4 + c :: line[i] == line[4..4 + c][i - 4];
    SpanIs(line, 4, NotStar, c);
  }

  lemma RenderedList(line: string, f: nat)
    requires f + 1 < |line| && line[f] == ' '
    requires line[f + 1] != ':' && !IsSpace(line[f + 1])
    requires forall i | f + 1 <= i < |line| :: !IsLineTerminator(line[i])
    ensures ListStart(line, f, Span(line, f, ColonOrSpace)) == Some(1)
    ensures Span(line, f + 1, NotTerminator) == |line| - (f + 1)
  {
    SpanIs(line, f, ColonOrSpace, 1);
    SpanIs(line, f + 1, NotTerminator, |line| - (f + 1));
  }

  /** The joined skills hold no line terminator. */
  lemma {:induction false} JoinNoTerminator(skills: seq<string>)
    requires forall i | 0 <= i < |skills| :: forall k | 0 <= k < |skills[i]| :: !IsLineTerminator(skills[i][k])
    ensures forall k | 0 <= k < |Join(skills, ", ")| :: !IsLineTerminator(Join(skills, ", ")[k])
    decreases |skills|
  {
    if |skills| > 1 {
      JoinNoTerminator(skills[1..]);
      var a, b := skills[0] + ", ", Join(skills[1..], ", ");
      assert Join(skills, ", ") == a + b;
      assert forall k | 0 <= k < |a| :: !IsLineTerminator(a[k]);
    }
  }

  /** The joined skills start with the first skill. */
  lemma JoinStart(skills: seq<string>)
    requires |skills| > 0 && |skills[0]| > 0
    ensures |Join(skills, ", ")| > 0 && Join(skills, ", ")[0] == skills[0][0]
  {
    if |skills| > 1 {
      assert Join(skills, ", ") == skills[0] + ", " + Join(skills[1..], ", ");
    }
  }

  /** Splitting the joined skills on `,` and trimming the items gives the
      skills back, whatever whitespace precedes the first one. */
  lemma {:induction false} ItemsRoundTrip(skills: seq<string>, pad: string)
    requires |skills| > 0
    requires forall k | 0 <= k < |pad| :: IsSpace(pad[k])
    requires forall i | 0 <= i < |skills| :: Clean(skills[i]) && ',' !in skills[i]
    ensures KeepTrimmed(Split(pad + Join(skills, ", "), ',')) == skills
    decreases |skills|
  {
    if |skills| == 1 {
      ItemsSingle(skills[0], pad);
      assert pad + Join(skills, ", ") == pad + skills[0];
    } else {
      var tail := skills[1..];
      assert forall i | 0 <= i < |tail| :: tail[i] == skills[i + 1];
      ItemsRoundTrip(tail, " ");
      ItemsStep(skills, pad);
    }
  }

  /** A single skill after the padding comes back alone. */
  lemma ItemsSingle(s0: string, pad: string)
    requires forall k | 0 <= k < |pad| :: IsSpace(pad[k])
    requires Clean(s0) && ',' !in s0
    ensures KeepTrimmed(Split(pad + s0, ',')) == [s0]
  {
    var first := pad + s0;
    NoCommaPadded(pad, s0);
    TrimPadded(pad, s0);
    SplitFirstItem(first, []);
    KeepTrimmedCons(first, []);
  }

  /** Padding adds no comma. */
  lemma NoCommaPadded(pad: string, s: string)
    requires forall k | 0 <= k < |pad| :: IsSpace(pad[k])
    requires ',' !in s
    ensures ',' !in pad + s
  {
    assert !IsSpace(',');
  }

  /** The first skill after the padding, then the other skills as they come
      back from the rest of the joined text. */
  lemma ItemsStep(skills: seq<string>, pad: string)
    requires |skills| > 1
    requires forall k | 0 <= k < |pad| :: IsSpace(pad[k])
    requires Clean(skills[0]) && ',' !in skills[0]
    requires KeepTrimmed(Split(" " + Join(skills[1..], ", "), ',')) == skills[1..]
    ensures KeepTrimmed(Split(pad + Join(skills, ", "), ',')) == skills
  {
    var first := pad + skills[0];
    NoCommaPadded(pad, skills[0]);
    TrimPadded(pad, skills[0]);
    JoinCommaSpace(pad, skills);
    ItemsCons(first, " " + Join(skills[1..], ", "), skills);
  }

  /** A first item without a comma that trims to the first skill, a comma,
      then items that come back as the other skills. */
  lemma ItemsCons(first: string, rest: string, skills: seq<string>)
    requires |skills| > 0 && ',' !in first && Trim(first) == skills[0] != "" && rest != []
    requires KeepTrimmed(Split(rest, ',')) == skills[1..]
    ensures KeepTrimmed(Split(first + [','] + rest, ',')) == skills
  {
    SplitFirstItem(first, rest);
    KeepTrimmedCons(first, Split(rest, ','));
    assert skills == [skills[0]] + skills[1..];
  }

  lemma JoinCommaSpace(pad: string, skills: seq<string>)
    requires |skills| > 1
    ensures pad + Join(skills, ", ") == (pad + skills[0]) + [','] + (" " + Join(skills[1..], ", "))
  {
    var j := Join(skills[1..], ", ");
    assert Join(skills, ", ") == skills[0] + ", " + j;
    calc {
      pad + Join(skills, ", ");
      pad + (skills[0] + ", " + j);
      (pad + skills[0]) + (", " + j);
      { assert ", " + j == [','] + (" " + j); }
      (pad + skills[0]) + ([','] + (" " + j));
      (pad + skills[0]) + [','] + (" " + j);
    }
  }

  /** A first item without a comma is split off whole. */
  lemma SplitFirstItem(first: string, rest: string)
    requires ',' !in first
    ensures rest == [] ==> Split(first, ',') == [first]
    ensures rest != [] ==> Split(first + [','] + rest, ',') == [first] + Split(rest, ',')
  {
    assert Find(first, ',').None?;
    if rest != [] {
      SplitAppend(first, rest, ',');
    }
  }

  lemma KeepTrimmedCons(x: string, ys: seq<string>)
    requires Trim(x) != ""
    ensures KeepTrimmed([x] + ys) == [Trim(x)] + KeepTrimmed(ys)
  {
    assert ([x] + ys)[0] == x && ([x] + ys)[1..] == ys;
  }

  /** The skills line of the sample configuration: the colon stays in the
      category, and the four skills come out in order. */
  lemma SampleSkillLine()
    ensures ParseLine(RenderSkillLine("Technical Skills:", ["Skill 1", "Skill 2", "Skill 3", "Skill 4"]))
         == Some(SkillGroup("Technical Skills:", ["Skill 1", "Skill 2", "Skill 3", "Skill 4"]))
  {
    var skills := ["Skill 1", "Skill 2", "Skill 3", "Skill 4"];
    SampleItem("Technical Skills:");
    forall i | 0 <= i < 4
      ensures Clean(skills[i]) && ',' !in skills[i]
      ensures forall k | 0 <= k < |skills[i]| :: !IsLineTerminator(skills[i][k])
    {
      SampleItem(skills[i]);
    }
    ParseRenderedLine("Technical Skills:", skills);
  }

  /** A word of letters, digits, spaces and colons that starts and ends with
      a non-space is clean and holds no `*`, `,` or line terminator. */
  lemma SampleItem(s: string)
    requires s != "" && s[0] != ' ' && s[|s| - 1] != ' '
    requires forall k | 0 <= k < |s| :: s[k] == ' ' || s[k] == ':' || 'A' <= s[k] <= 'z' || '0' <= s[k] <= '9'
    ensures Clean(s) && '*' !in s && ',' !in s
    ensures forall k | 0 <= k < |s| :: !IsLineTerminator(s[k])
  {
    TrimNoEdgeSpace(s);
  }
}
