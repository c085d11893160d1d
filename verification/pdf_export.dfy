/** `exportToPDF`: the ATS PDF of a resume (`src/lib/pdfExport.js`).

    The header comes first (name, optional title, contact line, divider),
    then every section in ascending `order`: a page-break check for 50
    points, the upper-cased title, an underline, the section content turned
    into plain text and wrapped, and a gap. The file is saved as
    `<name or 'Resume'> - Resume.pdf`. */
module PdfExport {
  import opened Wrappers
  import opened Text
  import opened Resume
  import opened PlainText
  import opened PdfLayout

  // ---------------------------------------------------------------------------
  // Header
  // ---------------------------------------------------------------------------

  /** `[email, phone, location].filter(Boolean)`: the contact fields that are
      present and non-empty, in that order. */
  function ContactParts(h: Header): (r: seq<string>)
    ensures |r| == (if Truthy(h.email) then 1 else 0) + (if Truthy(h.phone) then 1 else 0)
                 + (if Truthy(h.location) then 1 else 0)
    ensures forall i | 0 <= i < |r| :: r[i] != ""
    ensures Truthy(h.email) ==> r[0] == h.email.value
    ensures Truthy(h.location) ==> r[|r| - 1] == h.location.value
    ensures Truthy(h.phone) ==> r[if Truthy(h.email) then 1 else 0] == h.phone.value
  {
    (if Truthy(h.email) then [h.email.value] else [])
    + (if Truthy(h.phone) then [h.phone.value] else [])
    + (if Truthy(h.location) then [h.location.value] else [])
  }

  /** The contact line: the parts joined by `' • '`. */
  function ContactLine(h: Header): string
  {
    Join(ContactParts(h), " • ")
  }

  /** With every contact field filled in, the line reads
      `email • phone • location`; with none, it is empty (and is still
      drawn). */
  lemma ContactLineCases(h: Header)
    ensures Truthy(h.email) && Truthy(h.phone) && Truthy(h.location) ==>
      ContactLine(h) == h.email.value + " • " + h.phone.value + " • " + h.location.value
    ensures !Truthy(h.email) && !Truthy(h.phone) && !Truthy(h.location) ==> ContactLine(h) == ""
  {
    var r := ContactParts(h);
    if Truthy(h.email) && Truthy(h.phone) && Truthy(h.location) {
      assert r == [h.email.value, h.phone.value, h.location.value];
      assert r[1..] == [h.phone.value, h.location.value];
      assert r[1..][1..] == [h.location.value];
      assert Join(r[1..], " • ") == h.phone.value + " • " + h.location.value;
    }
  }

  /** Cursor advance of the header block: 22 after the name, 18 after the
      title when there is one, 25 after the contact line, 20 after the
      divider. */
  function HeaderHeight(h: Header): int
  {
    22 + (if Truthy(h.title) then 18 else 0) + 25 + 20
  }

  /** The header block, drawn from the cursor without any page-break check:
      the name (empty when absent) centred in 22-point bold, the title in
      12-point italic only when it is present and non-empty, the contact line
      in 10-point normal, and a divider across the content width. */
  function DrawHeader(p: Pdf, h: Header): (r: Pdf)
    ensures r.page == p.page
    ensures r.y == p.y + HeaderHeight(h)
    ensures |r.marks| == |p.marks| + (if Truthy(h.title) then 4 else 3)
    ensures r.marks[..|p.marks|] == p.marks
    ensures r.marks[|p.marks|] == Text(OrElse(h.name, ""), Centered, p.y, p.page, 22, Bold)
    ensures Truthy(h.title) ==>
      r.marks[|p.marks| + 1] == Text(h.title.value, Centered, p.y + 22, p.page, 12, Italic)
    ensures
      var c := |p.marks| + (if Truthy(h.title) then 2 else 1);
      var cy := p.y + 22 + (if Truthy(h.title) then 18 else 0);
      && r.marks[c] == Text(ContactLine(h), Centered, cy, p.page, 10, Normal)
      && r.marks[c + 1] == Line(Margin, PageWidth - Margin, cy + 25, p.page)
  {
    var m0 := Text(OrElse(h.name, ""), Centered, p.y, p.page, 22, Bold);
    var p1 := p.(y := p.y + 22, marks := p.marks + [m0]);
    var p2 :=
      if Truthy(h.title) then
        p1.(y := p1.y + 18, marks := p1.marks + [Text(h.title.value, Centered, p1.y, p1.page, 12, Italic)])
      else p1;
    var p3 := p2.(y := p2.y + 25, marks := p2.marks + [Text(ContactLine(h), Centered, p2.y, p2.page, 10, Normal)]);
    p3.(y := p3.y + 20, marks := p3.marks + [Line(Margin, PageWidth - Margin, p3.y, p3.page)])
  }

  // ---------------------------------------------------------------------------
  // Sections
  // ---------------------------------------------------------------------------

  /** Section titles are the only 12-point bold texts the export draws. */
  predicate IsHeading(m: Mark) {
    m.Text? && m.size == 12 && m.style == Bold
  }

  /** The section titles among `ms`, in drawing order. */
  function Headings(ms: seq<Mark>): seq<string>
  {
    if |ms| == 0 then []
    else Headings(ms[..|ms| - 1]) + (if IsHeading(ms[|ms| - 1]) then [ms[|ms| - 1].text] else [])
  }

  lemma {:induction false} HeadingsAppend(a: seq<Mark>, b: seq<Mark>)
    ensures Headings(a + b) == Headings(a) + Headings(b)
    decreases |b|
  {
    if |b| == 0 {
      assert a + b == a;
    } else {
      var b' := b[..|b| - 1];
      assert a + b == (a + b') + [b[|b| - 1]];
      assert (a + b)[..|a + b| - 1] == a + b';
      HeadingsAppend(a, b');
    }
  }

  lemma {:induction false} NoHeadings(ms: seq<Mark>)
    requires forall i | 0 <= i < |ms| :: !IsHeading(ms[i])
    ensures Headings(ms) == []
    decreases |ms|
  {
    if |ms| > 0 {
      NoHeadings(ms[..|ms| - 1]);
    }
  }

  /** A section as the PDF draws it: its title and its content already
      turned into plain text. */
  datatype Block = Block(title: string, text: string)

  /** `parseMarkdownToPlainText(section.content)` for every section, in
      order. */
  function ToBlocks(secs: seq<Section>): (r: seq<Block>)
    ensures |r| == |secs|
    ensures forall i | 0 <= i < |secs| :: r[i].title == secs[i].title
    ensures forall i | 0 <= i < |secs| :: r[i].text == Normalize(secs[i].content)
  {
    if |secs| == 0 then [] else [Block(secs[0].title, Normalize(secs[0].content))] + ToBlocks(secs[1..])
  }

  /** The title part of a section: a page-break check for 50 points, the
      upper-cased title in 12-point bold at the cursor and an underline 5
      points below it; the cursor ends 20 points below the title. The title
      always has 50 points of room below it before the bottom margin. */
  function DrawTitle(p: Pdf, title: string): (r: Pdf)
    requires p.y >= Margin
    ensures r.page >= p.page
    ensures |r.marks| == |p.marks| + 2 && r.marks[..|p.marks|] == p.marks
    ensures
      var t := r.marks[|p.marks|];
      && t == Text(ToUpper(title), AtMargin, t.y, r.page, 12, Bold)
      && Margin <= t.y && t.y + 50 <= Bottom
      && r.marks[|p.marks| + 1] == Line(Margin, Margin + 100, t.y + 5, r.page)
      && r.y == t.y + 20
  {
    var q := CheckPageBreak(p, 50).0;
    var t := Text(ToUpper(title), AtMargin, q.y, q.page, 12, Bold);
    var q1 := q.(y := q.y + 5, marks := q.marks + [t]);
    q1.(y := q1.y + 15, marks := q1.marks + [Line(Margin, Margin + 100, q1.y, q1.page)])
  }

  /** One section of the `forEach`: its title, then the plain text in
      10-point lines 13 points apart, then a 15-point gap. Nothing but the
      title and its underline is drawn when there is no plain text. */
  function DrawSection(p: Pdf, b: Block, split: Splitter): (r: Pdf)
    requires p.y >= Margin
    ensures r.y >= Margin && r.page >= p.page
    ensures |r.marks| >= |p.marks| + 2
    ensures r.marks[..|p.marks| + 2] == DrawTitle(p, b.title).marks
    ensures forall j | |p.marks| + 2 <= j < |r.marks| ::
      r.marks[j].Text? && r.marks[j].size == 10 && r.marks[j].style == Normal
    ensures b.text == "" ==> |r.marks| == |p.marks| + 2
  {
    var q := DrawTitle(p, b.title);
    var q1 := AddText(q, b.text, 10, Normal, 13, split);
    q1.(y := q1.y + 15)
  }

  /** The body of a section: one 10-point line per line the splitter makes
      of the plain text at the content width, in order, right after the
      title and its underline. */
  lemma SectionBody(p: Pdf, b: Block, split: Splitter)
    requires p.y >= Margin
    ensures b.text != "" ==>
      var r, lines := DrawSection(p, b, split), split(b.text, 10, Normal, ContentWidth);
      && |r.marks| == |p.marks| + 2 + |lines|
      && forall j | |p.marks| + 2 <= j < |r.marks| :: r.marks[j].text == lines[j - |p.marks| - 2]
  {
    var t := DrawTitle(p, b.title);
    assert |t.marks| == |p.marks| + 2;
  }

  /** The gap after a section: 15 points below the last content line's
      13-point line height, or 15 points below the underline's cursor when
      there is no content. */
  lemma SectionGap(p: Pdf, b: Block, split: Splitter)
    requires p.y >= Margin
    ensures
      var r, t := DrawSection(p, b, split), DrawTitle(p, b.title);
      && (b.text == "" ==> r.page == t.page && r.y == t.y + 15)
      && (|r.marks| > |t.marks| ==> r.page == r.marks[|r.marks| - 1].page && r.y == r.marks[|r.marks| - 1].y + 13 + 15)
  {
    AddTextEnd(DrawTitle(p, b.title), b.text, 10, Normal, 13, split);
  }

  /** After a section the cursor is at most the 15-point gap below the
      bottom margin, so still on the page. */
  lemma SectionEndsOnPage(p: Pdf, b: Block, split: Splitter)
    requires p.y >= Margin
    ensures DrawSection(p, b, split).y <= Bottom + 15
  {
    AddTextAbove(DrawTitle(p, b.title), b.text, 10, Normal, 13, split);
  }

  /** A section draws exactly one heading: its upper-cased title. */
  lemma SectionHeadings(p: Pdf, b: Block, split: Splitter)
    requires p.y >= Margin
    ensures Headings(DrawSection(p, b, split).marks[|p.marks|..]) == [ToUpper(b.title)]
  {
    var r, t := DrawSection(p, b, split), DrawTitle(p, b.title);
    TitleHeadings(p, b.title);
    NoHeadings(r.marks[|t.marks|..]);
    MarksSplit(|p.marks|, t.marks, r.marks);
  }

  /** The title part draws one heading, the upper-cased title; its
      underline is no heading. */
  lemma TitleHeadings(p: Pdf, title: string)
    requires p.y >= Margin
    ensures Headings(DrawTitle(p, title).marks[|p.marks|..]) == [ToUpper(title)]
  {
    var ms := DrawTitle(p, title).marks[|p.marks|..];
    assert ms == [ms[0]] + [ms[1]];
    HeadingsAppend([ms[0]], [ms[1]]);
    assert Headings([ms[0]]) == [ms[0].text] by {
      assert [ms[0]][..0] == [];
    }
    assert Headings([ms[1]]) == [] by {
      assert [ms[1]][..0] == [];
    }
  }

  /** The `forEach` over the sections, in the order given. */
  function DrawSections(p: Pdf, bs: seq<Block>, split: Splitter): (r: Pdf)
    requires p.y >= Margin
    ensures r.y >= Margin && r.page >= p.page
    ensures |r.marks| >= |p.marks|
    ensures r.marks[..|p.marks|] == p.marks
    decreases |bs|
  {
    if |bs| == 0 then p
    else
      var q := DrawSection(p, bs[0], split);
      var r := DrawSections(q, bs[1..], split);
      assert r.marks[..|p.marks|] == q.marks[..|p.marks|];
      r
  }

  /** One section draws just that section. */
  lemma DrawSectionsOne(p: Pdf, b: Block, split: Splitter)
    requires p.y >= Margin
    ensures DrawSections(p, [b], split) == DrawSection(p, b, split)
  {
    assert [b][1..] == [];
  }

  /** The sections are drawn end to end: drawing `a + c` is drawing `a` and
      then `c` from where `a` left the document. */
  lemma {:induction false} DrawSectionsAppend(p: Pdf, a: seq<Block>, c: seq<Block>, split: Splitter)
    requires p.y >= Margin
    ensures DrawSections(p, a + c, split) == DrawSections(DrawSections(p, a, split), c, split)
    decreases |a|
  {
    if |a| == 0 {
      assert a + c == c;
    } else {
      var q := DrawSection(p, a[0], split);
      assert (a + c)[0] == a[0] && (a + c)[1..] == a[1..] + c;
      DrawSectionsAppend(q, a[1..], c, split);
    }
  }

  /** After at least one section the cursor is on the page: at most the
      15-point gap below the bottom margin. */
  lemma {:induction false} SectionsEndOnPage(p: Pdf, bs: seq<Block>, split: Splitter)
    requires p.y >= Margin
    ensures |bs| > 0 ==> DrawSections(p, bs, split).y <= Bottom + 15
    decreases |bs|
  {
    if |bs| > 0 {
      var q := DrawSection(p, bs[0], split);
      if |bs| == 1 {
        assert DrawSections(q, bs[1..], split) == q;
        SectionEndsOnPage(p, bs[0], split);
      } else {
        SectionsEndOnPage(q, bs[1..], split);
      }
    }
  }

  /** The upper-cased titles of `bs`, in order. */
  function UpperTitles(bs: seq<Block>): (r: seq<string>)
    ensures |r| == |bs|
    ensures forall i | 0 <= i < |bs| :: r[i] == ToUpper(bs[i].title)
  {
    if |bs| == 0 then [] else [ToUpper(bs[0].title)] + UpperTitles(bs[1..])
  }

  /** The headings the sections draw are their upper-cased titles, in the
      order the sections are drawn. */
  lemma {:induction false} SectionsHeadings(p: Pdf, bs: seq<Block>, split: Splitter)
    requires p.y >= Margin
    ensures Headings(DrawSections(p, bs, split).marks[|p.marks|..]) == UpperTitles(bs)
    decreases |bs|
  {
    var r := DrawSections(p, bs, split);
    if |bs| == 0 {
      assert r.marks[|p.marks|..] == [];
    } else {
      var q := DrawSection(p, bs[0], split);
      assert r == DrawSections(q, bs[1..], split);
      SectionsHeadings(q, bs[1..], split);
      SectionHeadings(p, bs[0], split);
      MarksSplit(|p.marks|, q.marks, r.marks);
    }
  }

  /** The headings after position `n` of a list that extends `b` are those
      of `b` after `n` followed by those of the extension. */
  lemma MarksSplit(n: nat, b: seq<Mark>, c: seq<Mark>)
    requires n <= |b| <= |c| && c[..|b|] == b
    ensures Headings(c[n..]) == Headings(b[n..]) + Headings(c[|b|..])
  {
    assert c[n..] == b[n..] + c[|b|..];
    HeadingsAppend(b[n..], c[|b|..]);
  }

  // ---------------------------------------------------------------------------
  // The export
  // ---------------------------------------------------------------------------

  /** The name the PDF is saved under: `<name or 'Resume'> - Resume.pdf`,
      where a missing header counts as a missing name. */
  function PdfFileName(doc: Document): (r: string)
    ensures doc.header.Some? && Truthy(doc.header.value.name) ==>
      r == doc.header.value.name.value + " - Resume.pdf"
    ensures !(doc.header.Some? && Truthy(doc.header.value.name)) ==> r == "Resume - Resume.pdf"
  {
    FileStem(doc) + " - Resume.pdf"
  }

  /** The document after the header block: a fresh page when there is no
      header. */
  function HeaderPart(doc: Document): (r: Pdf)
    ensures r.y >= Margin && r.page == 1
    ensures doc.header.None? ==> r == Start
  {
    if doc.header.Some? then DrawHeader(Start, doc.header.value) else Start
  }

  /** `exportToPDF(resumeData)`: the drawn document and its file name. The
      cursor ends on the page: below the top margin and at most the last
      section's 15-point gap below the bottom margin. */
  function ExportPdf(doc: Document, split: Splitter): (r: (Pdf, string))
    ensures r.1 == PdfFileName(doc)
    ensures Margin <= r.0.y <= Bottom + 15 && r.0.page >= 1
  {
    var p := HeaderPart(doc);
    var bs := ToBlocks(SortedSections(doc));
    SectionsEndOnPage(p, bs, split);
    (DrawSections(p, bs, split), PdfFileName(doc))
  }

  /** A document without sections exports the header block alone (a
      blank page when there is no header either). */
  lemma ExportPdfHeaderOnly(doc: Document, split: Splitter)
    ensures |SortedSections(doc)| == 0 ==> ExportPdf(doc, split).0 == HeaderPart(doc)
  {
    if |SortedSections(doc)| == 0 {
      assert ToBlocks(SortedSections(doc)) == [];
    }
  }

  /** The last section is drawn after all the others, from where they left
      the document, so its title and body lines end the PDF. */
  lemma ExportPdfLastSection(doc: Document, split: Splitter)
    ensures
      var bs := ToBlocks(SortedSections(doc));
      |bs| > 0 ==>
        ExportPdf(doc, split).0
          == DrawSection(DrawSections(HeaderPart(doc), bs[..|bs| - 1], split), bs[|bs| - 1], split)
  {
    var bs := ToBlocks(SortedSections(doc));
    if |bs| > 0 {
      var p := HeaderPart(doc);
      var a, c := bs[..|bs| - 1], [bs[|bs| - 1]];
      assert a + c == bs;
      DrawSectionsAppend(p, a, c, split);
      DrawSectionsOne(DrawSections(p, a, split), bs[|bs| - 1], split);
    }
  }

  /** The header draws no section heading. */
  lemma HeaderHasNoHeadings(doc: Document)
    ensures Headings(HeaderPart(doc).marks) == []
  {
    NoHeadings(HeaderPart(doc).marks);
  }

  /** The PDF's headings are the headings the sections draw. */
  lemma ExportPdfDrawsTitles(doc: Document, split: Splitter)
    ensures Headings(ExportPdf(doc, split).0.marks) == UpperTitles(ToBlocks(SortedSections(doc)))
  {
    var p := HeaderPart(doc);
    var bs := ToBlocks(SortedSections(doc));
    var q := DrawSections(p, bs, split);
    HeaderHasNoHeadings(doc);
    SectionsHeadings(p, bs, split);
    MarksSplit(0, p.marks, q.marks);
    assert q.marks[0..] == q.marks && p.marks[0..] == p.marks;
  }

  /** The section titles appear in the PDF upper-cased and in ascending
      `order`, sections with equal orders in their input order; a document
      without sections has none. */
  lemma ExportPdfHeadings(doc: Document, split: Splitter)
    ensures
      var hs := Headings(ExportPdf(doc, split).0.marks);
      var secs := SortedSections(doc);
      && |hs| == |secs|
      && forall i | 0 <= i < |secs| :: hs[i] == ToUpper(secs[i].title)
  {
    ExportPdfDrawsTitles(doc, split);
  }
}
