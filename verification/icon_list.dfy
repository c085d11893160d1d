/** The section icons of `src/lib/iconList.js`: the catalogue the admin
    panel offers, and the default icon for a section title, chosen by a
    priority-ordered list of case-insensitive keyword tests. */
module IconList {
  import opened Text

  /** One entry of `AVAILABLE_ICONS`: the stored key and the caption shown beside it. */
  datatype IconOption = IconOption(value: string, caption: string)

  const AvailableIcons: seq<IconOption> := [
    IconOption("briefcase", "Briefcase (Work/Experience)"),
    IconOption("graduation-cap", "Graduation Cap (Education)"),
    IconOption("code", "Code (Skills/Technical)"),
    IconOption("award", "Award (Recognition)"),
    IconOption("file-code", "File Code (Projects)"),
    IconOption("book-open", "Book (Publications)"),
    IconOption("lightbulb", "Lightbulb (Ideas/Summary)"),
    IconOption("users", "Users (Team/Volunteer)"),
    IconOption("file-text", "Document (General)"),
    IconOption("target", "Target (Goals/Objectives)"),
    IconOption("star", "Star (Highlights)"),
    IconOption("trending-up", "Trending Up (Growth/Metrics)"),
    IconOption("git-branch", "Git Branch (Development)"),
    IconOption("database", "Database (Data/Backend)"),
    IconOption("globe", "Globe (Global/Languages)"),
    IconOption("heart", "Heart (Passion/Interests)"),
    IconOption("zap", "Lightning (Fast/Performance)"),
    IconOption("shield", "Shield (Security)"),
    IconOption("tool", "Tool (Technical Tools)"),
    IconOption("rocket", "Rocket (Launch/Innovation)")
  ]

  /** `key` is the value of some catalogue entry. */
  predicate InCatalogue(key: string) {
    exists i | 0 <= i < |AvailableIcons| :: AvailableIcons[i].value == key
  }

  /** The catalogue has twenty entries and no key is offered twice. */
  lemma CatalogueDistinct()
    ensures |AvailableIcons| == 20
    ensures forall i, j | 0 <= i < j < |AvailableIcons| :: AvailableIcons[i].value != AvailableIcons[j].value
  {
  }

  /** One rule of `getDefaultIconForTitle`: if the lower-cased title contains
      any of the keywords, the icon is `icon`. */
  datatype Rule = Rule(keywords: seq<string>, icon: string)

  /** The rules in the order they are tried. */
  const Rules: seq<Rule> := [
    Rule(["experience", "work"], "briefcase"),
    Rule(["education"], "graduation-cap"),
    Rule(["skill"], "code"),
    Rule(["award", "recognition"], "award"),
    Rule(["project"], "file-code"),
    Rule(["publication", "speaking"], "book-open"),
    Rule(["summary", "about"], "lightbulb"),
    Rule(["volunteer"], "users"),
    Rule(["language"], "globe")
  ]

  /** The icon of a title no rule matches. */
  const DefaultIcon: string := "file-text"

  predicate Fires(t: string, rule: Rule) {
    exists w | w in rule.keywords :: Contains(t, w)
  }

  /** The index of the first rule from `i` on that fires on `t`, or
      `|rules|` when none does. */
  function FirstFiring(t: string, rules: seq<Rule>, i: nat): (k: nat)
    requires i <= |rules|
    ensures i <= k <= |rules|
    ensures k < |rules| ==> Fires(t, rules[k])
    ensures forall n | i <= n < k :: !Fires(t, rules[n])
    decreases |rules| - i
  {
    if i == |rules| || Fires(t, rules[i]) then i
    else FirstFiring(t, rules, i + 1)
  }

  /** `getDefaultIconForTitle(title)`: the icon of the first rule that fires
      on the lower-cased title, and `file-text` when none does. */
  function DefaultIconForTitle(title: string): (r: string)
    ensures forall n | 0 <= n < |Rules| && Fires(ToLower(title), Rules[n]) ::
      (forall m | 0 <= m < n :: !Fires(ToLower(title), Rules[m])) ==> r == Rules[n].icon
    ensures (forall n | 0 <= n < |Rules| :: !Fires(ToLower(title), Rules[n])) ==> r == DefaultIcon
  {
    var k := FirstFiring(ToLower(title), Rules, 0);
    if k < |Rules| then Rules[k].icon else DefaultIcon
  }

  /** Every icon the classifier can give is offered by the catalogue. */
  lemma DefaultIconInCatalogue(title: string)
    ensures InCatalogue(DefaultIconForTitle(title))
  {
    var k := FirstFiring(ToLower(title), Rules, 0);
    if k < |Rules| {
      RuleIconInCatalogue(k);
    } else {
      assert AvailableIcons[8].value == DefaultIcon;
    }
  }

  /** Each rule's icon is a catalogue key. */
  lemma RuleIconInCatalogue(k: nat)
    requires k < |Rules|
    ensures InCatalogue(Rules[k].icon)
  {
    var at := [0, 1, 2, 3, 4, 5, 6, 7, 14];
    assert AvailableIcons[at[k]].value == Rules[k].icon;
  }

  /** The classification ignores case: a title and its lower-cased form get
      the same icon. */
  lemma DefaultIconIgnoresCase(title: string)
    ensures DefaultIconForTitle(ToLower(title)) == DefaultIconForTitle(title)
  {
    ToLowerIdempotent(title);
  }

  /** A title mentioning experience or work gets the briefcase, whatever else
      it mentions: that rule is tried first. */
  lemma ExperienceFirst(title: string)
    requires Contains(ToLower(title), "experience") || Contains(ToLower(title), "work")
    ensures DefaultIconForTitle(title) == "briefcase"
  {
    var t := ToLower(title);
    assert Rules[0].keywords == ["experience", "work"];
    assert Fires(t, Rules[0]) by {
      if Contains(t, "experience") {
        assert "experience" in Rules[0].keywords;
      } else {
        assert "work" in Rules[0].keywords;
      }
    }
  }

  /** "Volunteer Experience" gets the briefcase rather than the users
      icon. */
  lemma VolunteerExperience()
    ensures DefaultIconForTitle("Volunteer Experience") == "briefcase"
  {
    var title := "Volunteer Experience";
    assert title[10..] == "Experience";
    LowerWord(title, 10, "experience");
    ExperienceFirst(title);
  }

  /** "Work Skills" gets the briefcase rather than the code icon. */
  lemma WorkSkills()
    ensures DefaultIconForTitle("Work Skills") == "briefcase"
  {
    var title := "Work Skills";
    assert title[..4] == "Work";
    LowerWord(title, 0, "work");
    ExperienceFirst(title);
  }

  /** A word found in a title, letter for letter up to case. */
  lemma LowerWord(title: string, at: nat, word: string)
    requires at + |word| <= |title|
    requires forall i | 0 <= i < |word| :: LowerChar(title[at + i]) == word[i]
    ensures Contains(ToLower(title), word)
  {
    var t := ToLower(title);
    assert forall i | 0 <= i < |word| :: t[at + i] == word[i];
    ContainsAtChars(t, word, at);
  }
}
