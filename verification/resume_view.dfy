/** The public page of `src/components/ModernResumeView.jsx`: which of the two
    columns each section goes to, the icon each section card shows, when a
    sidebar card shows skill tags instead of markdown, and what the header
    shows in place of a missing picture. */
module ResumeView {
  import opened Wrappers
  import opened Text
  import opened Resume
  import opened IconList
  import opened SkillParser
  import opened AdminEdits

  // ---------------------------------------------------------------------------
  // The two columns
  // ---------------------------------------------------------------------------

  /** `isSidebarSection(title)`: the lower-cased title mentions skills, an
      about or summary text, languages or certifications. */
  predicate IsSidebarSection(title: string) {
    var t := ToLower(title);
    Contains(t, "skill") || Contains(t, "about") || Contains(t, "summary")
      || Contains(t, "language") || Contains(t, "certification")
  }

  /** `isSidebarSection` applied to a section's title. */
  predicate InSidebar(x: Section) {
    IsSidebarSection(x.title)
  }

  /** The sections of `s` for which `test` gives `side`, in their order in
      `s` (`Array.prototype.filter`). */
  function Keep(test: Section -> bool, side: bool, s: seq<Section>): (r: seq<Section>)
    ensures |r| <= |s|
    ensures forall x | x in r :: x in s && test(x) == side
    ensures forall x | x in s && test(x) == side :: x in r
  {
    if |s| == 0 then []
    else
      var s', x := s[..|s| - 1], s[|s| - 1];
      assert s == s' + [x];
      Keep(test, side, s') + (if test(x) == side then [x] else [])
  }

  /** Every section passes exactly one of the two filters: together they
      hold each section of `s` as often as `s` does. */
  lemma {:induction false} KeepSplits(test: Section -> bool, s: seq<Section>)
    ensures multiset(Keep(test, false, s)) + multiset(Keep(test, true, s)) == multiset(s)
  {
    if |s| > 0 {
      var s', x := s[..|s| - 1], s[|s| - 1];
      assert s == s' + [x];
      KeepSplits(test, s');
    }
  }

  /** The columns of the page: main first, sidebar second. */
  datatype Columns = Columns(main: seq<Section>, sidebar: seq<Section>)

  /** `mainSections` and `sidebarSections`: each filtered by the sidebar test
      and sorted by `order`; a document without a section list has two empty
      columns. */
  function Layout(doc: Document): (r: Columns)
    ensures doc.sections.None? ==> r == Columns([], [])
    ensures doc.sections.Some? ==>
      multiset(r.main) + multiset(r.sidebar) == multiset(doc.sections.value)
    ensures forall x | x in r.main :: !InSidebar(x)
    ensures forall x | x in r.sidebar :: InSidebar(x)
    ensures SortedByOrder(r.main) && SortedByOrder(r.sidebar)
  {
    if doc.sections.None? then Columns([], [])
    else
      var s := doc.sections.value;
      KeepSplits(InSidebar, s);
      Columns(Column(s, false), Column(s, true))
  }

  /** One column: the filtered sections, sorted by `order`. */
  function Column(s: seq<Section>, side: bool): (r: seq<Section>)
    ensures multiset(r) == multiset(Keep(InSidebar, side, s))
    ensures forall x | x in r :: InSidebar(x) == side
    ensures SortedByOrder(r)
  {
    var kept := Keep(InSidebar, side, s);
    var r := SortByOrder(kept);
    assert forall x | x in r :: x in multiset(kept);
    r
  }

  /** Splitting the sorted page by the sidebar test gives the two columns:
      each column shows its sections in the order the whole page (and both
      exports) would, ties included. */
  lemma ColumnsFollowPageOrder(doc: Document)
    ensures Layout(doc).main == Keep(InSidebar, false, SortedSections(doc))
    ensures Layout(doc).sidebar == Keep(InSidebar, true, SortedSections(doc))
  {
    if doc.sections.Some? {
      FilterThenSort(InSidebar, false, doc.sections.value);
      FilterThenSort(InSidebar, true, doc.sections.value);
    }
  }

  /** Filtering commutes with the stable sort. */
  lemma FilterThenSort(test: Section -> bool, side: bool, s: seq<Section>)
    ensures Keep(test, side, SortByOrder(s)) == SortByOrder(Keep(test, side, s))
  {
    var r := Keep(test, side, SortByOrder(s));
    KeepSorted(test, side, SortByOrder(s));
    forall k ensures WithOrder(r, k) == WithOrder(Keep(test, side, s), k) {
      KeepWithOrder(test, side, SortByOrder(s), k);
      SortByOrderStable(s, k);
      KeepWithOrder(test, side, s, k);
    }
    StableSortUnique(Keep(test, side, s), r);
  }

  /** A filtered ascending list is ascending. */
  lemma {:induction false} KeepSorted(test: Section -> bool, side: bool, s: seq<Section>)
    requires SortedByOrder(s)
    ensures SortedByOrder(Keep(test, side, s))
  {
    if |s| > 0 {
      var s', x := s[..|s| - 1], s[|s| - 1];
      assert SortedByOrder(s');
      KeepSorted(test, side, s');
      assert forall y | y in Keep(test, side, s') :: y.order <= x.order;
    }
  }

  /** Taking the sections of one order and filtering can be done in either
      sequence. */
  lemma {:induction false} KeepWithOrder(test: Section -> bool, side: bool, s: seq<Section>, k: int)
    ensures WithOrder(Keep(test, side, s), k) == Keep(test, side, WithOrder(s, k))
  {
    if |s| > 0 {
      var s', x := s[..|s| - 1], s[|s| - 1];
      assert s == s' + [x];
      KeepWithOrder(test, side, s', k);
      var a, w := Keep(test, side, s'), WithOrder(s', k);
      KeepSnoc(test, side, s', x);
      WithOrderAppend(s', x, k);
      if test(x) == side {
        assert Keep(test, side, s) == a + [x];
        WithOrderAppend(a, x, k);
        if x.order == k {
          assert WithOrder(s, k) == w + [x];
          KeepSnoc(test, side, w, x);
        } else {
          assert WithOrder(s, k) == w;
        }
      } else {
        assert Keep(test, side, s) == a;
        if x.order == k {
          assert WithOrder(s, k) == w + [x];
          KeepSnoc(test, side, w, x);
          assert Keep(test, side, w + [x]) == Keep(test, side, w);
        } else {
          assert WithOrder(s, k) == w;
        }
      }
    }
  }

  lemma KeepSnoc(test: Section -> bool, side: bool, s: seq<Section>, x: Section)
    ensures Keep(test, side, s + [x]) == Keep(test, side, s) + (if test(x) == side then [x] else [])
  {
    assert (s + [x])[..|s|] == s;
  }

  /** A title that mentions skills puts its section in the sidebar, the only
      column that can show skill tags. */
  lemma SkillsInSidebar(doc: Document, x: Section)
    requires doc.sections.Some? && x in doc.sections.value
    requires Contains(ToLower(x.title), "skill")
    ensures x in Layout(doc).sidebar && x !in Layout(doc).main
  {
    var s := doc.sections.value;
    assert x in Keep(InSidebar, true, s);
    assert x in multiset(Column(s, true));
  }

  // ---------------------------------------------------------------------------
  // Section cards
  // ---------------------------------------------------------------------------

  /** `getSectionIcon(section)`, as the key of the glyph shown: the section's
      own icon when it is set and non-empty, otherwise the default for its
      title; a key the icon table lacks shows the document glyph. The icon
      table has exactly the catalogue's keys. */
  function SectionGlyph(section: Section): (r: string)
    ensures InCatalogue(r)
    ensures Truthy(section.icon) && InCatalogue(section.icon.value) ==> r == section.icon.value
    ensures Truthy(section.icon) && !InCatalogue(section.icon.value) ==> r == DefaultIcon
    ensures !Truthy(section.icon) ==> r == DefaultIconForTitle(section.title)
  {
    var key := OrElse(section.icon, DefaultIconForTitle(section.title));
    DefaultIconInCatalogue(section.title);
    assert AvailableIcons[8].value == DefaultIcon;
    if InCatalogue(key) then key else DefaultIcon
  }

  /** An icon picked from the catalogue in the admin panel is the glyph the
      page shows for every section with that id. */
  lemma PickedIconShown(ss: seq<Section>, id: string, i: nat, j: nat)
    requires i < |AvailableIcons| && j < |ss| && ss[j].id == id
    ensures SectionGlyph(UpdateSectionIcon(ss, id, AvailableIcons[i].value)[j]) == AvailableIcons[i].value
  {
    assert AvailableIcons[i].value != "";
  }

  /** What a sidebar card shows below its title. */
  datatype Body = Tags(groups: seq<SkillGroup>) | Markdown(content: string)

  /** A sidebar card shows skill tags when its title mentions skills and its
      content parses to at least one skill group; otherwise its markdown. */
  function SidebarBody(section: Section): (r: Body)
    ensures r.Tags? <==> Contains(ToLower(section.title), "skill") && |ParseSkills(section.content)| > 0
    ensures r.Tags? ==> r.groups == ParseSkills(section.content) && CleanGroups(r.groups)
    ensures r.Markdown? ==> r.content == section.content
  {
    if Contains(ToLower(section.title), "skill") then
      var groups := ParseSkills(section.content);
      if |groups| > 0 then Tags(groups) else Markdown(section.content)
    else Markdown(section.content)
  }

  /** A skills section whose content has no category line still shows its
      markdown, so no card is left blank. */
  lemma EmptySkillsShowMarkdown(section: Section)
    requires section.content == ""
    ensures SidebarBody(section) == Markdown("")
  {
  }

  // ---------------------------------------------------------------------------
  // Header picture
  // ---------------------------------------------------------------------------

  /** What the header shows in the picture's place. */
  datatype Portrait = Picture(url: string) | Initial(letter: string)

  /** The picture when `profilePicture` is set and non-empty; otherwise the
      first character of the name, or `U` when the name is missing or empty
      (`name?.charAt(0) || 'U'`). */
  function HeaderPortrait(h: Header): (r: Portrait)
    ensures r.Picture? <==> Truthy(h.profilePicture)
    ensures r.Picture? ==> r.url == h.profilePicture.value
    ensures r.Initial? ==> |r.letter| == 1
    ensures r.Initial? && Truthy(h.name) ==> StartsWith(h.name.value, r.letter)
    ensures r.Initial? && !Truthy(h.name) ==> r.letter == "U"
  {
    if Truthy(h.profilePicture) then Picture(h.profilePicture.value)
    else
      var first := if h.name.Some? && |h.name.value| > 0 then h.name.value[..1] else "";
      Initial(if first != "" then first else "U")
  }
}
