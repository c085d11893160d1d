/** `exportToMarkdown`: the markdown file of a resume
    (`src/lib/markdownExport.js`).

    The text is built by appending: the header block when there is a header
    (name, the present contact fields, the social links, a blank line), then
    every section in ascending `order` as a level-one heading followed by its
    content exactly as stored. The download itself (Blob, object URL, link
    click) is outside the model; the file name is. */
module MarkdownExport {
  import opened Wrappers
  import opened Text
  import opened Resume

  // ---------------------------------------------------------------------------
  // Lines
  // ---------------------------------------------------------------------------

  /** Every line followed by a newline. */
  function Lines(ls: seq<string>): string
  {
    if |ls| == 0 then "" else ls[0] + "\n" + Lines(ls[1..])
  }

  predicate NoNewline(s: string) {
    '\n' !in s
  }

  /** Newline-terminated lines that hold no newline of their own split back
      into those lines, with the empty text after the last newline. */
  lemma {:induction false} SplitLines(ls: seq<string>)
    requires forall i | 0 <= i < |ls| :: NoNewline(ls[i])
    ensures Split(Lines(ls), '\n') == ls + [""]
    decreases |ls|
  {
    if |ls| > 0 {
      SplitLines(ls[1..]);
      SplitLinesStep(ls);
    }
  }

  lemma SplitLinesStep(ls: seq<string>)
    requires |ls| > 0 && NoNewline(ls[0])
    requires Split(Lines(ls[1..]), '\n') == ls[1..] + [""]
    ensures Split(Lines(ls), '\n') == ls + [""]
  {
    var rest := Lines(ls[1..]);
    SplitAppend(ls[0], rest, '\n');
    SplitWithout(ls[0], '\n');
    ConsSnoc(ls, "");
  }

  /** A string without the separator is a single piece. */
  lemma SplitWithout(s: string, sep: char)
    requires sep !in s
    ensures Split(s, sep) == [s]
  {
    assert Find(s, sep).None?;
  }

  lemma ConsSnoc<T>(xs: seq<T>, x: T)
    requires |xs| > 0
    ensures [xs[0]] + (xs[1..] + [x]) == xs + [x]
  {
  }

  // ---------------------------------------------------------------------------
  // Header
  // ---------------------------------------------------------------------------

  /** `${name}` in a template literal: an absent name is written as
      `undefined`. */
  function Interpolate(o: Option<string>): (r: string)
    ensures o.Some? ==> r == o.value
    ensures o.None? ==> r == "undefined"
  {
    if o.Some? then o.value else "undefined"
  }

  /** The header's own lines, without their newlines: the bold name (always),
      then the italic title, the phone, the email and the location, each only
      when present and non-empty, in that order. The first four carry the two
      trailing spaces of a markdown hard break; the location does not. */
  function HeaderLineList(h: Header): (r: seq<string>)
    ensures |r| == 1 + (if Truthy(h.title) then 1 else 0) + (if Truthy(h.phone) then 1 else 0)
                     + (if Truthy(h.email) then 1 else 0) + (if Truthy(h.location) then 1 else 0)
    ensures r[0] == "**" + Interpolate(h.name) + "**  "
    ensures Truthy(h.title) ==> r[1] == "_" + h.title.value + "_  "
    ensures Truthy(h.phone) ==> r[if Truthy(h.title) then 2 else 1] == h.phone.value + "  "
    ensures Truthy(h.email) ==> r[|r| - (if Truthy(h.location) then 2 else 1)] == h.email.value + "  "
    ensures Truthy(h.location) ==> r[|r| - 1] == h.location.value
  {
    ["**" + Interpolate(h.name) + "**  "]
    + (if Truthy(h.title) then ["_" + h.title.value + "_  "] else [])
    + (if Truthy(h.phone) then [h.phone.value + "  "] else [])
    + (if Truthy(h.email) then [h.email.value + "  "] else [])
    + (if Truthy(h.location) then [h.location.value] else [])
  }

  /** A header whose fields hold no newline. */
  predicate SingleLineFields(h: Header) {
    && (h.name.Some? ==> NoNewline(h.name.value))
    && (h.title.Some? ==> NoNewline(h.title.value))
    && (h.phone.Some? ==> NoNewline(h.phone.value))
    && (h.email.Some? ==> NoNewline(h.email.value))
    && (h.location.Some? ==> NoNewline(h.location.value))
  }

  /** The `[Label](url)` link of every social platform present, in the order
      GitHub, LinkedIn, Twitter, Website. */
  function LinkItems(l: SocialLinks): (r: seq<string>)
    ensures |r| == (if Truthy(l.github) then 1 else 0) + (if Truthy(l.linkedin) then 1 else 0)
                 + (if Truthy(l.twitter) then 1 else 0) + (if Truthy(l.website) then 1 else 0)
    ensures Truthy(l.github) ==> r[0] == "[GitHub](" + l.github.value + ")"
    ensures Truthy(l.linkedin) ==> r[if Truthy(l.github) then 1 else 0] == "[LinkedIn](" + l.linkedin.value + ")"
    ensures Truthy(l.twitter) ==> r[|r| - (if Truthy(l.website) then 2 else 1)] == "[Twitter](" + l.twitter.value + ")"
    ensures Truthy(l.website) ==> r[|r| - 1] == "[Website](" + l.website.value + ")"
  {
    (if Truthy(l.github) then ["[GitHub](" + l.github.value + ")"] else [])
    + (if Truthy(l.linkedin) then ["[LinkedIn](" + l.linkedin.value + ")"] else [])
    + (if Truthy(l.twitter) then ["[Twitter](" + l.twitter.value + ")"] else [])
    + (if Truthy(l.website) then ["[Website](" + l.website.value + ")"] else [])
  }

  /** The social-links line: the links joined by `' | '` between two
      newlines, or nothing at all when there is no link object or no link in
      it. */
  function LinksLine(o: Option<SocialLinks>): (r: string)
    ensures r == "" <==> o.None? || LinkItems(o.value) == []
    ensures r != "" ==> |r| >= 2 && r[0] == '\n' && r[|r| - 1] == '\n'
    ensures r != "" ==> r[1..|r| - 1] == Join(LinkItems(o.value), " | ")
  {
    if o.Some? && |LinkItems(o.value)| > 0 then "\n" + Join(LinkItems(o.value), " | ") + "\n" else ""
  }

  /** The whole header block: its lines, the links line, one more newline. */
  function HeaderBlock(h: Header): (r: string)
  {
    Lines(HeaderLineList(h)) + LinksLine(h.socialLinks) + "\n"
  }

  /** The header block starts with the header's lines, in order, and ends
      with a blank line; without links it is exactly those lines and one
      more newline. */
  lemma HeaderBlockLines(h: Header)
    requires SingleLineFields(h)
    ensures var r := HeaderBlock(h);
      var ls := HeaderLineList(h);
      && StartsWith(r, Lines(ls))
      && r[|r| - 1] == '\n'
      && (LinksLine(h.socialLinks) == "" ==> Split(r, '\n') == ls + ["", ""])
  {
    var ls := HeaderLineList(h);
    var r := HeaderBlock(h);
    assert r[..|Lines(ls)|] == Lines(ls);
    if LinksLine(h.socialLinks) == "" {
      forall i | 0 <= i < |ls| ensures NoNewline(ls[i]) {
        HeaderLineNoNewline(h, i);
      }
      SplitLines(ls + [""]);
      LinesSnoc(ls, "");
    }
  }

  lemma HeaderLineNoNewline(h: Header, i: nat)
    requires SingleLineFields(h) && i < |HeaderLineList(h)|
    ensures NoNewline(HeaderLineList(h)[i])
  {
    var ls := HeaderLineList(h);
    var parts := [ls[0]]
      + (if Truthy(h.title) then ["_" + h.title.value + "_  "] else [])
      + (if Truthy(h.phone) then [h.phone.value + "  "] else [])
      + (if Truthy(h.email) then [h.email.value + "  "] else [])
      + (if Truthy(h.location) then [h.location.value] else []);
    assert ls == parts;
  }

  lemma {:induction false} LinesSnoc(ls: seq<string>, x: string)
    ensures Lines(ls + [x]) == Lines(ls) + x + "\n"
    decreases |ls|
  {
    if |ls| == 0 {
      assert ls + [x] == [x];
    } else {
      assert (ls + [x])[1..] == ls[1..] + [x];
      LinesSnoc(ls[1..], x);
    }
  }

  // ---------------------------------------------------------------------------
  // Sections
  // ---------------------------------------------------------------------------

  /** One section: `# title`, a blank line, the content verbatim, a blank
      line. */
  function SectionBlock(s: Section): string
  {
    "# " + s.title + "\n\n" + s.content + "\n\n"
  }

  /** The block of every section, in the order given. */
  function SectionBlocks(ss: seq<Section>): (r: seq<string>)
    ensures |r| == |ss|
    ensures forall i | 0 <= i < |ss| :: r[i] == SectionBlock(ss[i])
  {
    seq(|ss|, i requires 0 <= i < |ss| => SectionBlock(ss[i]))
  }

  /** The sections' blocks one after another, in the order given. */
  function SectionsText(ss: seq<Section>): string
  {
    Concat(SectionBlocks(ss))
  }

  /** Section `i`'s block sits between the blocks of the sections before it
      and those after it. */
  lemma SectionsTextAt(ss: seq<Section>, i: nat)
    requires i < |ss|
    ensures SectionsText(ss) == SectionsText(ss[..i]) + SectionBlock(ss[i]) + SectionsText(ss[i + 1..])
  {
    var bs := SectionBlocks(ss);
    ConcatAt(bs, i);
    assert bs[..i] == SectionBlocks(ss[..i]);
    assert bs[i + 1..] == SectionBlocks(ss[i + 1..]);
  }

  // ---------------------------------------------------------------------------
  // The export
  // ---------------------------------------------------------------------------

  /** The header part of the file: the header block, or nothing without a
      header. */
  function HeaderText(doc: Document): (r: string)
    ensures doc.header.None? <==> r == ""
  {
    if doc.header.Some? then HeaderBlock(doc.header.value) else ""
  }

  /** `exportToMarkdown(resumeData)`: the text of the file. Without sections
      it is the header block alone, and with neither header nor sections it
      is empty. */
  function ExportMarkdown(doc: Document): (r: string)
    ensures SortedSections(doc) == [] ==> r == HeaderText(doc)
    ensures doc.header.None? && doc.sections.None? ==> r == ""
    ensures StartsWith(r, HeaderText(doc))
  {
    var r := HeaderText(doc) + SectionsText(SortedSections(doc));
    assert r[..|HeaderText(doc)|] == HeaderText(doc);
    r
  }

  /** Every section contributes exactly its block, at its place in ascending
      `order`: after the header and the blocks of the sections sorted before
      it, before the blocks of those sorted after it. */
  lemma ExportMarkdownSectionAt(doc: Document, i: nat)
    requires i < |SortedSections(doc)|
    ensures var s := SortedSections(doc);
      ExportMarkdown(doc)
        == HeaderText(doc) + SectionsText(s[..i]) + SectionBlock(s[i]) + SectionsText(s[i + 1..])
  {
    var s := SortedSections(doc);
    var h, a, b, c := HeaderText(doc), SectionsText(s[..i]), SectionBlock(s[i]), SectionsText(s[i + 1..]);
    assert ExportMarkdown(doc) == h + SectionsText(s);
    SectionsTextAt(s, i);
    JoinAssoc(h, a, b, c);
  }

  /** Regrouping four joined pieces. */
  lemma JoinAssoc(h: string, a: string, b: string, c: string)
    ensures h + (a + b + c) == h + a + b + c
  {
  }

  /** The file depends on the sections only through their orders and the
      relative order of sections sharing an order: two documents with the
      same header whose section lists have the same groups of equal orders
      export the same text. */
  lemma ExportMarkdownOrderIndependent(d1: Document, d2: Document)
    requires d1.header == d2.header
    requires d1.sections.Some? && d2.sections.Some?
    requires forall k :: WithOrder(d1.sections.value, k) == WithOrder(d2.sections.value, k)
    ensures ExportMarkdown(d1) == ExportMarkdown(d2)
  {
    SameGroupsSameSort(d1.sections.value, d2.sections.value);
  }

  /** The download name: `<name or 'Resume'> - Resume.md`. */
  function MarkdownFileName(doc: Document): (r: string)
    ensures doc.header.Some? && Truthy(doc.header.value.name) ==>
      r == doc.header.value.name.value + " - Resume.md"
    ensures !(doc.header.Some? && Truthy(doc.header.value.name)) ==> r == "Resume - Resume.md"
  {
    FileStem(doc) + " - Resume.md"
  }
  /** A header with a name, a phone and an email (and no title, location or
      links) and a single section: the phone line comes before the email
      line, each ends in a hard break, and one blank line separates the
      header from the section. */
  lemma NamePhoneEmailExport(name: string, phone: string, email: string, x: Section)
    requires phone != "" && email != ""
    ensures ExportMarkdown(Document(
        Some(Header(Some(name), None, Some(phone), Some(email), None, None, None)), Some([x])))
      == ("**" + name + "**  \n" + phone + "  \n" + email + "  \n\n")
         + ("# " + x.title + "\n\n" + x.content + "\n\n")
  {
    var h := Header(Some(name), None, Some(phone), Some(email), None, None, None);
    var doc := Document(Some(h), Some([x]));
    assert SortedSections(doc) == [x];
    assert SectionsText([x]) == SectionBlock(x) by {
      assert SectionBlocks([x]) == [SectionBlock(x)];
    }
    NamePhoneEmailHeader(name, phone, email);
    assert ExportMarkdown(doc) == HeaderBlock(h) + SectionBlock(x);
  }

  /** The header block of a name, a phone and an email. */
  lemma NamePhoneEmailHeader(name: string, phone: string, email: string)
    requires phone != "" && email != ""
    ensures HeaderBlock(Header(Some(name), None, Some(phone), Some(email), None, None, None))
      == "**" + name + "**  \n" + phone + "  \n" + email + "  \n\n"
  {
    var h := Header(Some(name), None, Some(phone), Some(email), None, None, None);
    var a, b, c := "**" + name + "**  ", phone + "  ", email + "  ";
    assert HeaderLineList(h) == [a, b, c];
    ThreeLines(a, b, c);
    var a', b', c' := "**" + name + "**  \n", phone + "  \n", email + "  \n\n";
    assert a + "\n" == a' && b + "\n" == b' && c + "\n" + "\n" == c';
    assert HeaderBlock(h) == a' + b' + c';
  }

  /** Three lines, each followed by a newline. */
  lemma ThreeLines(a: string, b: string, c: string)
    ensures Lines([a, b, c]) == a + "\n" + b + "\n" + c + "\n"
  {
    assert [a, b, c][1..] == [b, c] && [b, c][1..] == [c] && [c][1..] == [];
    assert Lines([c]) == c + "\n" + "";
    assert Lines([b, c]) == b + "\n" + (c + "\n");
  }
}
