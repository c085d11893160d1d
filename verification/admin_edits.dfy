/** The editing operations of the admin dashboard
    (`src/components/AdminDashboard.jsx`), as pure updates of the resume.

    Each React `setResume(prev => ...)` update becomes a function from the
    old resume (or its section list) to the new one. Header edits replace one
    field; section edits replace, add or remove sections; `moveSection`
    sorts the list, swaps one neighbouring pair and renumbers `order` to the
    list positions. The confirmation dialog, `Date.now()` and the template
    catalogue are parameters. */
module AdminEdits {
  import opened Wrappers
  import opened Text
  import opened Resume

  // ---------------------------------------------------------------------------
  // Header
  // ---------------------------------------------------------------------------

  /** The header fields the dashboard edits with `updateHeader`. */
  datatype HeaderField = NameField | TitleField | PhoneField | EmailField | LocationField | PictureField

  /** A header with nothing set: what `{ ...undefined }` spreads. */
  const EmptyHeader: Header := Header(None, None, None, None, None, None, None)

  function Field(h: Header, f: HeaderField): Option<string> {
    match f
    case NameField => h.name
    case TitleField => h.title
    case PhoneField => h.phone
    case EmailField => h.email
    case LocationField => h.location
    case PictureField => h.profilePicture
  }

  /** `updateHeader(field, value)`: the header (or an empty one when the
      resume has none) with `field` set to `value`; every other field, the
      social links and the sections stay as they were. */
  function UpdateHeader(doc: Document, f: HeaderField, value: string): (r: Document)
    ensures r.sections == doc.sections && r.header.Some?
    ensures Field(r.header.value, f) == Some(value)
    ensures forall g | g != f :: Field(r.header.value, g) == Field(doc.header.GetOr(EmptyHeader), g)
    ensures r.header.value.socialLinks == doc.header.GetOr(EmptyHeader).socialLinks
  {
    var h := doc.header.GetOr(EmptyHeader);
    var h' := match f
      case NameField => h.(name := Some(value))
      case TitleField => h.(title := Some(value))
      case PhoneField => h.(phone := Some(value))
      case EmailField => h.(email := Some(value))
      case LocationField => h.(location := Some(value))
      case PictureField => h.(profilePicture := Some(value));
    doc.(header := Some(h'))
  }

  /** Setting a field twice keeps the second value: the first update leaves
      no trace. */
  lemma UpdateHeaderTwice(doc: Document, f: HeaderField, v1: string, v2: string)
    ensures UpdateHeader(UpdateHeader(doc, f, v1), f, v2) == UpdateHeader(doc, f, v2)
  {
  }

  /** Updates of two different fields commute. */
  lemma UpdateHeaderCommutes(doc: Document, f: HeaderField, g: HeaderField, v: string, w: string)
    requires f != g
    ensures UpdateHeader(UpdateHeader(doc, f, v), g, w) == UpdateHeader(UpdateHeader(doc, g, w), f, v)
  {
  }

  /** The social platforms `updateSocialLink` edits. */
  datatype Platform = GitHub | LinkedIn | Twitter | Website

  const NoLinks: SocialLinks := SocialLinks(None, None, None, None)

  function Link(l: SocialLinks, p: Platform): Option<string> {
    match p
    case GitHub => l.github
    case LinkedIn => l.linkedin
    case Twitter => l.twitter
    case Website => l.website
  }

  /** `updateSocialLink(platform, value)`: the links (or none when the header
      has none) with `platform` set to `value`; the other links, the other
      header fields and the sections stay as they were. Reading the links of
      a missing header throws, which is `None` here. */
  function UpdateSocialLink(doc: Document, p: Platform, value: string): (r: Option<Document>)
    ensures doc.header.None? <==> r.None?
    ensures r.Some? ==>
      && r.value.sections == doc.sections && r.value.header.Some?
      && r.value.header.value.socialLinks.Some?
      && r.value.header.value == doc.header.value.(socialLinks := r.value.header.value.socialLinks)
      && Link(r.value.header.value.socialLinks.value, p) == Some(value)
      && forall q | q != p :: Link(r.value.header.value.socialLinks.value, q)
                              == Link(doc.header.value.socialLinks.GetOr(NoLinks), q)
  {
    match doc.header
    case None => None
    case Some(h) =>
      var l := h.socialLinks.GetOr(NoLinks);
      var l' := match p
        case GitHub => l.(github := Some(value))
        case LinkedIn => l.(linkedin := Some(value))
        case Twitter => l.(twitter := Some(value))
        case Website => l.(website := Some(value));
      Some(doc.(header := Some(h.(socialLinks := Some(l')))))
  }

  // ---------------------------------------------------------------------------
  // Section edits
  // ---------------------------------------------------------------------------

  /** The section fields the editor changes with `updateSection`. */
  datatype SectionField = TitleOf | ContentOf

  function SectionText(s: Section, f: SectionField): string {
    match f
    case TitleOf => s.title
    case ContentOf => s.content
  }

  function SetSectionText(s: Section, f: SectionField, value: string): (r: Section)
    ensures SectionText(r, f) == value
    ensures r.id == s.id && r.order == s.order && r.icon == s.icon
    ensures forall g | g != f :: SectionText(r, g) == SectionText(s, g)
  {
    match f
    case TitleOf => s.(title := value)
    case ContentOf => s.(content := value)
  }

  /** `updateSection(id, field, value)`: every section with that id gets the
      new text in that field; the list keeps its length and order, and the
      other sections are untouched. */
  function UpdateSection(ss: seq<Section>, id: string, f: SectionField, value: string): (r: seq<Section>)
    ensures |r| == |ss|
    ensures forall i | 0 <= i < |ss| && ss[i].id != id :: r[i] == ss[i]
    ensures forall i | 0 <= i < |ss| && ss[i].id == id ::
      && SectionText(r[i], f) == value
      && r[i].id == id && r[i].order == ss[i].order && r[i].icon == ss[i].icon
      && forall g | g != f :: SectionText(r[i], g) == SectionText(ss[i], g)
  {
    seq(|ss|, i requires 0 <= i < |ss| => if ss[i].id == id then SetSectionText(ss[i], f, value) else ss[i])
  }

  /** The second of two edits of the same field wins. */
  lemma UpdateSectionTwice(ss: seq<Section>, id: string, f: SectionField, v1: string, v2: string)
    ensures UpdateSection(UpdateSection(ss, id, f, v1), id, f, v2) == UpdateSection(ss, id, f, v2)
  {
    var a := UpdateSection(UpdateSection(ss, id, f, v1), id, f, v2);
    var b := UpdateSection(ss, id, f, v2);
    forall i | 0 <= i < |ss| ensures a[i] == b[i] {
      if ss[i].id == id {
        assert f == TitleOf || f == ContentOf;
      }
    }
  }

  /** `updateSectionIcon(sectionId, iconValue)`: every section with that id
      gets the icon; nothing else changes. */
  function UpdateSectionIcon(ss: seq<Section>, id: string, icon: string): (r: seq<Section>)
    ensures |r| == |ss|
    ensures forall i | 0 <= i < |ss| && ss[i].id != id :: r[i] == ss[i]
    ensures forall i | 0 <= i < |ss| && ss[i].id == id :: r[i] == ss[i].(icon := Some(icon))
  {
    seq(|ss|, i requires 0 <= i < |ss| => if ss[i].id == id then ss[i].(icon := Some(icon)) else ss[i])
  }

  /** The icon picked last is the one that stays. */
  lemma UpdateSectionIconTwice(ss: seq<Section>, id: string, a: string, b: string)
    ensures UpdateSectionIcon(UpdateSectionIcon(ss, id, a), id, b) == UpdateSectionIcon(ss, id, b)
  {
  }

  /** `sections.filter(section => section.id !== id)`. */
  function RemoveId(ss: seq<Section>, id: string): (r: seq<Section>)
    ensures |r| <= |ss|
    ensures forall x :: x in r <==> x in ss && x.id != id
  {
    if |ss| == 0 then []
    else (if ss[0].id == id then [] else [ss[0]]) + RemoveId(ss[1..], id)
  }

  /** `deleteSection(id)` after the confirmation dialog: when confirmed,
      exactly the sections with that id are removed; when not, nothing
      changes. */
  function DeleteSection(ss: seq<Section>, id: string, confirmed: bool): (r: seq<Section>)
    ensures !confirmed ==> r == ss
    ensures confirmed ==> forall x :: x in r <==> x in ss && x.id != id
  {
    if confirmed then RemoveId(ss, id) else ss
  }

  /** The filter keeps the remaining sections in their order: it works on
      each part of a list separately. */
  lemma {:induction false} RemoveIdAppend(a: seq<Section>, b: seq<Section>, id: string)
    ensures RemoveId(a + b, id) == RemoveId(a, id) + RemoveId(b, id)
    decreases |a|
  {
    if |a| == 0 {
      assert a + b == b;
    } else {
      assert (a + b)[0] == a[0] && (a + b)[1..] == a[1..] + b;
      RemoveIdAppend(a[1..], b, id);
    }
  }

  /** Deleting an id no section carries changes nothing. */
  lemma {:induction false} RemoveAbsentId(ss: seq<Section>, id: string)
    requires forall i | 0 <= i < |ss| :: ss[i].id != id
    ensures RemoveId(ss, id) == ss
    decreases |ss|
  {
    if |ss| > 0 {
      RemoveAbsentId(ss[1..], id);
      assert ss == [ss[0]] + ss[1..];
    }
  }

  /** `getTemplate(templateType)`: the title and content a new section starts
      with. */
  datatype Template = Template(title: string, content: string)

  /** The id of a section added at time `now` (milliseconds):
      `section-<now>`. */
  function NewSectionId(now: nat): (r: string)
    ensures StartsWith(r, "section-")
    ensures |r| > |"section-"| && r[|"section-"|..] == NatToString(now)
  {
    "section-" + NatToString(now)
  }

  /** Sections added at different times get different ids, and the time
      can be read back from the id's digits. */
  lemma NewSectionIdInjective(a: nat, b: nat)
    ensures NewSectionId(a) == NewSectionId(b) <==> a == b
    ensures DecimalValue(NewSectionId(a)[|"section-"|..]) == a
  {
    if NewSectionId(a) == NewSectionId(b) {
      assert NatToString(a) == NewSectionId(a)[|"section-"|..];
    }
  }

  /** `addSection(templateType)`: the list with one section appended, whose
      id is built from the time, whose title and content come from the
      template, whose `order` is the old length and which has no icon. */
  function AddSection(ss: seq<Section>, t: Template, now: nat): (r: seq<Section>)
    ensures |r| == |ss| + 1 && r[..|ss|] == ss
    ensures r[|ss|] == Section(NewSectionId(now), t.title, t.content, |ss|, None)
  {
    ss + [Section(NewSectionId(now), t.title, t.content, |ss|, None)]
  }

  /** When every order is below the list's length (as after a move, which
      numbers the sections 0 to n-1), the added section is shown last and the
      others keep their places. */
  lemma AddSectionSortsLast(ss: seq<Section>, t: Template, now: nat)
    requires forall i | 0 <= i < |ss| :: ss[i].order <= |ss|
    ensures SortByOrder(AddSection(ss, t, now)) == SortByOrder(ss) + [AddSection(ss, t, now)[|ss|]]
  {
    var r := AddSection(ss, t, now);
    var x := r[|ss|];
    var sorted := SortByOrder(ss);
    assert r[..|r| - 1] == ss;
    if |sorted| > 0 {
      var last := sorted[|sorted| - 1];
      assert last in multiset(ss);
    }
    InsertAtEnd(sorted, x);
  }

  // ---------------------------------------------------------------------------
  // moveSection
  // ---------------------------------------------------------------------------

  datatype Direction = Up | Down

  /** `sections.findIndex(s => s.id === id)`: the first position holding the
      id, or -1. */
  function FindIndex(s: seq<Section>, id: string): (k: int)
    ensures -1 <= k < |s|
    ensures k >= 0 ==> s[k].id == id && forall j | 0 <= j < k :: s[j].id != id
    ensures k == -1 ==> forall j | 0 <= j < |s| :: s[j].id != id
  {
    if |s| == 0 then -1
    else if s[0].id == id then 0
    else
      var k := FindIndex(s[1..], id);
      if k == -1 then -1 else k + 1
  }

  /** Positions `i` and `i + 1` exchanged. */
  function Swap<T>(s: seq<T>, i: nat): (r: seq<T>)
    requires i + 1 < |s|
    ensures |r| == |s| && r[i] == s[i + 1] && r[i + 1] == s[i]
    ensures forall j | 0 <= j < |s| && j != i && j != i + 1 :: r[j] == s[j]
    ensures multiset(r) == multiset(s)
  {
    var r := s[i := s[i + 1]][i + 1 := s[i]];
    assert s == s[..i] + [s[i], s[i + 1]] + s[i + 2..];
    assert r == s[..i] + [s[i + 1], s[i]] + s[i + 2..];
    r
  }

  /** `sections.map((section, idx) => ({ ...section, order: idx }))`. */
  function Renumber(s: seq<Section>): (r: seq<Section>)
    ensures |r| == |s|
    ensures forall i | 0 <= i < |s| :: r[i] == s[i].(order := i)
  {
    seq(|s|, i requires 0 <= i < |s| => s[i].(order := i))
  }

  /** `r` is the sorted list `s`, whose section with the id sits at `k` (-1
      for none), with that section exchanged with its predecessor (up) or its
      successor (down) when there is one, and every `order` set to the
      position. */
  predicate SwapsOnce(r: seq<Section>, s: seq<Section>, k: int, dir: Direction)
    requires |r| == |s| && -1 <= k < |s|
  {
    && (dir == Up && k > 0 ==>
         && r[k - 1] == s[k].(order := k - 1) && r[k] == s[k - 1].(order := k)
         && forall i | 0 <= i < |s| && i != k - 1 && i != k :: r[i] == s[i].(order := i))
    && (dir == Down && 0 <= k < |s| - 1 ==>
         && r[k] == s[k + 1].(order := k) && r[k + 1] == s[k].(order := k + 1)
         && forall i | 0 <= i < |s| && i != k && i != k + 1 :: r[i] == s[i].(order := i))
    && (!(dir == Up && k > 0) && !(dir == Down && 0 <= k < |s| - 1) ==>
         forall i | 0 <= i < |s| :: r[i] == s[i].(order := i))
  }

  /** The swap of `moveSection` on the sorted list, before renumbering: a
      rearrangement of the same sections. */
  function Swapped(s: seq<Section>, k: int, dir: Direction): (t: seq<Section>)
    requires -1 <= k < |s|
    ensures |t| == |s| && multiset(t) == multiset(s)
  {
    if dir == Up && k > 0 then Swap(s, k - 1)
    else if dir == Down && 0 <= k < |s| - 1 then Swap(s, k)
    else s
  }

  /** The swap and renumbering of `moveSection` on the sorted list. */
  function MoveAt(s: seq<Section>, k: int, dir: Direction): (r: seq<Section>)
    requires -1 <= k < |s|
    ensures |r| == |s|
    ensures forall i | 0 <= i < |r| :: r[i].order == i
    ensures SwapsOnce(r, s, k, dir)
  {
    Renumber(Swapped(s, k, dir))
  }

  /** `moveSection(id, direction)`: the sections sorted by `order`, the one
      with the id moved one place up or down when it has a neighbour there,
      and the orders renumbered 0 to n-1. An unknown id moves nothing. */
  function MoveSection(ss: seq<Section>, id: string, dir: Direction): (r: seq<Section>)
    ensures |r| == |ss|
    ensures forall i | 0 <= i < |r| :: r[i].order == i
    ensures SwapsOnce(r, SortByOrder(ss), FindIndex(SortByOrder(ss), id), dir)
  {
    var s := SortByOrder(ss);
    MoveAt(s, FindIndex(s, id), dir)
  }

  /** A move only rearranges the sections and renumbers them: the list
      before renumbering holds exactly the sections of the original list. */
  lemma MoveSectionPermutes(ss: seq<Section>, id: string, dir: Direction)
    ensures var s := SortByOrder(ss);
      var t := Swapped(s, FindIndex(s, id), dir);
      multiset(t) == multiset(ss) && MoveSection(ss, id, dir) == Renumber(t)
  {
  }

  /** After a move the orders are 0 to n-1, so the list is already sorted
      and a second sort leaves it alone. */
  lemma MoveSectionSorted(ss: seq<Section>, id: string, dir: Direction)
    ensures SortedByOrder(MoveSection(ss, id, dir))
    ensures SortByOrder(MoveSection(ss, id, dir)) == MoveSection(ss, id, dir)
  {
    PositionsSorted(MoveSection(ss, id, dir));
    SortSortedIsIdentity(MoveSection(ss, id, dir));
  }

  predicate DistinctIds(s: seq<Section>) {
    forall i, j | 0 <= i < j < |s| :: s[i].id != s[j].id
  }

  /** Moving a section up and then down again gives the sorted, renumbered
      list back, when ids are unique. */
  lemma MoveUpThenDown(ss: seq<Section>, id: string)
    requires DistinctIds(SortByOrder(ss))
    requires FindIndex(SortByOrder(ss), id) > 0
    ensures MoveSection(MoveSection(ss, id, Up), id, Down) == Renumber(SortByOrder(ss))
  {
    var s := SortByOrder(ss);
    var m := MoveSection(ss, id, Up);
    assert m == MoveAt(s, FindIndex(s, id), Up);
    PositionsSorted(m);
    MoveSectionOfSorted(m, id, Down);
    UpThenDownSorted(s, FindIndex(s, id), id);
  }

  /** The same on the sorted list: moving the section at `k` up and then
      moving it down gives the list back, renumbered. */
  lemma UpThenDownSorted(s: seq<Section>, k: int, id: string)
    requires DistinctIds(s) && 0 < k < |s| && FindIndex(s, id) == k
    ensures MoveAt(MoveAt(s, k, Up), FindIndex(MoveAt(s, k, Up), id), Down) == Renumber(s)
  {
    MovedIndex(s, k, id);
    MoveAtUpDown(s, k);
  }

  /** Orders equal to positions are ascending. */
  lemma PositionsSorted(t: seq<Section>)
    requires forall i | 0 <= i < |t| :: t[i].order == i
    ensures SortedByOrder(t)
  {
  }

  /** On a list already in ascending order the sort does nothing, so the move
      works on the list as it is. */
  lemma MoveSectionOfSorted(t: seq<Section>, id: string, dir: Direction)
    requires SortedByOrder(t)
    ensures MoveSection(t, id, dir) == MoveAt(t, FindIndex(t, id), dir)
  {
    SortSortedIsIdentity(t);
  }

  /** After moving up the section at `k`, its id is first found at `k - 1`. */
  lemma MovedIndex(s: seq<Section>, k: int, id: string)
    requires DistinctIds(s) && 0 < k < |s| && FindIndex(s, id) == k
    ensures FindIndex(MoveAt(s, k, Up), id) == k - 1
  {
    var m := MoveAt(s, k, Up);
    assert SwapsOnce(m, s, k, Up);
    forall j | 0 <= j < k - 1 ensures m[j].id != id {
      assert m[j].id == s[j].id;
    }
  }

  /** Up at `k` and then down at `k - 1` undo each other. */
  lemma MoveAtUpDown(s: seq<Section>, k: int)
    requires 0 < k < |s|
    ensures MoveAt(MoveAt(s, k, Up), k - 1, Down) == Renumber(s)
  {
    var m := MoveAt(s, k, Up);
    var r := MoveAt(m, k - 1, Down);
    assert SwapsOnce(m, s, k, Up) && SwapsOnce(r, m, k - 1, Down);
    forall i | 0 <= i < |s| ensures r[i] == s[i].(order := i) {
      if i == k - 1 {
        assert r[i] == m[k].(order := k - 1);
      } else if i == k {
        assert r[i] == m[k - 1].(order := k);
      } else {
        assert r[i] == m[i].(order := i);
      }
    }
  }

  // ---------------------------------------------------------------------------
  // moveSection as written, for an unknown id moved down
  // ---------------------------------------------------------------------------

  /** A slot of the JavaScript array during `moveSection`: a section, the
      `undefined` a bad swap leaves, or the `{ order: idx }` object the
      renumbering spreads from `undefined`. */
  datatype Slot = Placed(section: Section) | Hole | OrderOnly(order: int)

  function Slots(s: seq<Section>): (r: seq<Slot>)
    ensures |r| == |s| && forall i | 0 <= i < |s| :: r[i] == Placed(s[i])
  {
    seq(|s|, i requires 0 <= i < |s| => Placed(s[i]))
  }

  /** The renumbering `map` on slots: a section gets its position as
      `order`; spreading `undefined` gives an object with `order` alone. */
  function RenumberSlots(t: seq<Slot>): (r: seq<Slot>)
    ensures |r| == |t|
    ensures forall i | 0 <= i < |t| && t[i].Placed? :: r[i] == Placed(t[i].section.(order := i))
    ensures forall i | 0 <= i < |t| && !t[i].Placed? :: r[i] == OrderOnly(i)
  {
    seq(|t|, i requires 0 <= i < |t| => if t[i].Placed? then Placed(t[i].section.(order := i)) else OrderOnly(i))
  }

  /** The swap of `moveSection` exactly as written, on the sorted list with
      the `findIndex` result `k`. For an id not in the list `k` is -1, which
      passes the down guard `index < sections.length - 1` whenever the list
      is not empty; the destructuring swap then stores the first section
      under the key `-1` (not an array element) and `undefined` at index 0. */
  function MoveAtAsWritten(s: seq<Section>, k: int, dir: Direction): (r: seq<Slot>)
    requires -1 <= k < |s|
    ensures |r| == |s|
  {
    var slots := Slots(s);
    var t := if dir == Up && k > 0 then Swap(slots, k - 1)
             else if dir == Down && k < |s| - 1 then
               (if k >= 0 then Swap(slots, k) else slots[0 := Hole])
             else slots;
    RenumberSlots(t)
  }

  /** `moveSection` as written, on the section list. */
  function MoveSectionAsWritten(ss: seq<Section>, id: string, dir: Direction): (r: seq<Slot>)
    ensures |r| == |ss|
  {
    var s := SortByOrder(ss);
    MoveAtAsWritten(s, FindIndex(s, id), dir)
  }

  /** Moving an unknown id down in a non-empty list drops the section shown
      first: its slot holds only `order: 0`. */
  lemma MoveUnknownDownLosesFirst(ss: seq<Section>, id: string)
    requires |ss| > 0
    requires forall i | 0 <= i < |ss| :: ss[i].id != id
    ensures MoveSectionAsWritten(ss, id, Down)[0] == OrderOnly(0)
  {
    var s := SortByOrder(ss);
    AbsentAfterSort(ss, id);
    assert FindIndex(s, id) == -1;
  }

  /** An id no section carries is absent from the sorted list too. */
  lemma AbsentAfterSort(ss: seq<Section>, id: string)
    requires forall i | 0 <= i < |ss| :: ss[i].id != id
    ensures forall j | 0 <= j < |SortByOrder(ss)| :: SortByOrder(ss)[j].id != id
  {
    var s := SortByOrder(ss);
    forall j | 0 <= j < |s| ensures s[j].id != id {
      assert s[j] in multiset(ss);
    }
  }

  /** The corrected move leaves a list alone (apart from renumbering) when
      the id is unknown, in either direction. */
  lemma MoveUnknownKeepsOrder(ss: seq<Section>, id: string, dir: Direction)
    requires forall i | 0 <= i < |ss| :: ss[i].id != id
    ensures MoveSection(ss, id, dir) == Renumber(SortByOrder(ss))
  {
    var s := SortByOrder(ss);
    AbsentAfterSort(ss, id);
    assert FindIndex(s, id) == -1;
    assert SwapsOnce(MoveSection(ss, id, dir), s, -1, dir);
  }

  /** Everywhere else the written move and the corrected one agree. */
  lemma MoveSectionAsWrittenAgrees(ss: seq<Section>, id: string, dir: Direction)
    requires !(dir == Down && FindIndex(SortByOrder(ss), id) == -1 && |ss| > 0)
    ensures MoveSectionAsWritten(ss, id, dir) == Slots(MoveSection(ss, id, dir))
  {
    var s := SortByOrder(ss);
    MoveAtAgrees(s, FindIndex(s, id), dir);
  }

  lemma MoveAtAgrees(s: seq<Section>, k: int, dir: Direction)
    requires -1 <= k < |s|
    requires !(dir == Down && k == -1 && |s| > 0)
    ensures MoveAtAsWritten(s, k, dir) == Slots(MoveAt(s, k, dir))
  {
    var t := Swapped(s, k, dir);
    if dir == Up && k > 0 {
      SwapSlots(s, k - 1);
    } else if dir == Down && 0 <= k < |s| - 1 {
      SwapSlots(s, k);
    }
    RenumberPlaced(t);
  }

  lemma SwapSlots(s: seq<Section>, i: nat)
    requires i + 1 < |s|
    ensures Swap(Slots(s), i) == Slots(Swap(s, i))
  {
  }

  lemma RenumberPlaced(t: seq<Section>)
    ensures RenumberSlots(Slots(t)) == Slots(Renumber(t))
  {
  }
}
