/** The page cursor of the ATS PDF export (`src/lib/pdfExport.js`).

    jsPDF is driven through a vertical position `y` (in points, growing down
    the page) and the number of pages created so far. `CheckPageBreak`
    starts a new page when a block would run into the bottom margin;
    `AddText` wraps a text into lines and draws them one below the other,
    breaking pages as it goes. Drawing is recorded as a list of marks, each
    carrying the page and `y` it was drawn at. jsPDF's line wrapping
    (`splitTextToSize`) is a parameter of the model. */
module PdfLayout {

  /** Letter paper in points (`format: 'letter'`, `unit: 'pt'`), with the
      fixed margin of the export. */
  const PageWidth: int := 612
  const PageHeight: int := 792
  const Margin: int := 50
  const ContentWidth: int := PageWidth - 2 * Margin

  /** The lowest `y` a block may reach: the bottom margin. */
  const Bottom: int := PageHeight - Margin

  datatype Align = AtMargin | Centered

  datatype FontStyle = Normal | Bold | Italic

  /** Something drawn on a page: a text (left-aligned at the margin or
      centred; the centring arithmetic is not modelled) or a horizontal line
      from `x1` to `x2`. */
  datatype Mark =
    | Text(text: string, align: Align, y: int, page: nat, size: nat, style: FontStyle)
    | Line(x1: int, x2: int, y: int, page: nat)

  /** The document being drawn: the cursor `y`, the current page (the first
      page is 1) and the marks drawn so far, in drawing order. */
  datatype Pdf = Pdf(y: int, page: nat, marks: seq<Mark>)

  /** A fresh document: page 1, cursor at the top margin. */
  const Start: Pdf := Pdf(Margin, 1, [])

  /** `pdf.splitTextToSize(text, maxWidth)` under the font size and style
      set just before it: the lines jsPDF wraps a text into. Its font
      metrics are outside the model. */
  type Splitter = (string, nat, FontStyle, int) -> seq<string>

  /** `checkPageBreak(requiredHeight)`: a block of height `h` that would end
      below the bottom margin goes to a new page, with the cursor back at the
      top margin; the result says whether a page was added. Nothing is
      drawn. Afterwards any block no taller than the usable page height
      fits. */
  function CheckPageBreak(p: Pdf, h: int): (r: (Pdf, bool))
    ensures r.1 <==> p.y + h > Bottom
    ensures r.1 ==> r.0.y == Margin && r.0.page == p.page + 1
    ensures !r.1 ==> r.0.y == p.y && r.0.page == p.page
    ensures r.0.marks == p.marks
    ensures h <= PageHeight - 2 * Margin ==> r.0.y + h <= Bottom
    ensures p.y >= Margin ==> r.0.y >= Margin
  {
    if p.y + h > Bottom then (p.(y := Margin, page := p.page + 1), true)
    else (p, false)
  }

  /** The `lines.forEach` of `addText`: before each line a page-break check
      for one line height, then the line at the cursor, then the cursor moves
      down by `lh`.

      Every line is drawn, in order, as a left-aligned text, on the current
      page or a later one; when the line height fits on a page, no line
      reaches into the bottom margin and none is drawn above the top
      margin. */
  function PlaceLines(p: Pdf, lines: seq<string>, lh: int, size: nat, style: FontStyle): (r: Pdf)
    ensures |r.marks| == |p.marks| + |lines|
    ensures r.marks[..|p.marks|] == p.marks
    ensures forall j | |p.marks| <= j < |r.marks| ::
      && r.marks[j].Text?
      && r.marks[j].text == lines[j - |p.marks|]
      && r.marks[j].align == AtMargin && r.marks[j].size == size && r.marks[j].style == style
    ensures forall j | |p.marks| <= j < |r.marks| :: p.page <= r.marks[j].page <= r.page
    ensures p.page <= r.page
    ensures 0 < lh <= PageHeight - 2 * Margin && p.y >= Margin ==>
      && r.y >= Margin
      && forall j | |p.marks| <= j < |r.marks| :: Margin <= r.marks[j].y && r.marks[j].y + lh <= Bottom
    decreases |lines|
  {
    if |lines| == 0 then p
    else
      var q := CheckPageBreak(p, lh).0;
      var m := Text(lines[0], AtMargin, q.y, q.page, size, style);
      var q' := q.(y := q.y + lh, marks := q.marks + [m]);
      var r := PlaceLines(q', lines[1..], lh, size, style);
      assert r.marks[..|q'.marks|] == q'.marks;
      assert r.marks[|p.marks|] == q'.marks[|p.marks|] == m;
      assert r.marks[..|p.marks|] == q'.marks[..|p.marks|] == p.marks;
      r
  }

  /** Whatever the page breaks, the cursor ends one line height below the
      last line placed, on that line's page. */
  lemma {:induction false} PlaceLinesEnd(p: Pdf, lines: seq<string>, lh: int, size: nat, style: FontStyle)
    requires |lines| > 0
    ensures
      var r := PlaceLines(p, lines, lh, size, style);
      r.y == r.marks[|r.marks| - 1].y + lh && r.page == r.marks[|r.marks| - 1].page
    decreases |lines|
  {
    var q' := PlaceFirst(p, lines, lh, size, style);
    if |lines| > 1 {
      PlaceLinesEnd(q', lines[1..], lh, size, style);
    }
  }

  /** The state after the first line of a block: the rest of the block is
      placed from there, and when it is the only line, its mark is the last
      one and the cursor sits one line height below it. */
  lemma PlaceFirst(p: Pdf, lines: seq<string>, lh: int, size: nat, style: FontStyle) returns (q': Pdf)
    requires |lines| > 0
    ensures PlaceLines(p, lines, lh, size, style) == PlaceLines(q', lines[1..], lh, size, style)
    ensures |lines| == 1 ==>
      q'.y == q'.marks[|q'.marks| - 1].y + lh && q'.page == q'.marks[|q'.marks| - 1].page
  {
    var q := CheckPageBreak(p, lh).0;
    var m := Text(lines[0], AtMargin, q.y, q.page, size, style);
    q' := q.(y := q.y + lh, marks := q.marks + [m]);
  }

  /** When the whole block fits below the cursor, placing it adds no page
      and moves the cursor down by the block's height. */
  lemma {:induction false} PlaceLinesFitCursor(p: Pdf, lines: seq<string>, lh: int, size: nat, style: FontStyle)
    requires 0 < lh && p.y + |lines| * lh <= Bottom
    ensures
      var r := PlaceLines(p, lines, lh, size, style);
      r.page == p.page && r.y == p.y + |lines| * lh
    decreases |lines|
  {
    if |lines| > 0 {
      var q' := FitStep(p, lines, lh, size, style);
      PlaceLinesFitCursor(q', lines[1..], lh, size, style);
    }
  }

  /** When the whole block fits below the cursor, the lines all land on the
      current page, the first at the cursor and each `lh` below the one
      before. */
  lemma {:induction false} PlaceLinesFit(p: Pdf, lines: seq<string>, lh: int, size: nat, style: FontStyle)
    requires 0 < lh && p.y + |lines| * lh <= Bottom
    ensures
      var r := PlaceLines(p, lines, lh, size, style);
      && (forall j | |p.marks| <= j < |r.marks| :: r.marks[j].page == p.page)
      && (|r.marks| > |p.marks| ==> r.marks[|p.marks|].y == p.y)
      && (forall j | |p.marks| < j < |r.marks| :: r.marks[j].y == r.marks[j - 1].y + lh)
      && (|r.marks| > |p.marks| ==> r.y == r.marks[|r.marks| - 1].y + lh)
    decreases |lines|
  {
    if |lines| > 0 {
      var q' := FitStep(p, lines, lh, size, style);
      PlaceLinesFit(q', lines[1..], lh, size, style);
      var r := PlaceLines(q', lines[1..], lh, size, style);
      assert r.marks[..|q'.marks|] == q'.marks;
      assert r.marks[|p.marks|] == q'.marks[|p.marks|];
    }
  }

  /** The first step of placing a block that fits: no page break, one line
      drawn at the cursor, and the rest of the block still fits. */
  function FitStep(p: Pdf, lines: seq<string>, lh: int, size: nat, style: FontStyle): (q: Pdf)
    requires 0 < lh && |lines| > 0 && p.y + |lines| * lh <= Bottom
    ensures q.page == p.page && q.y == p.y + lh
    ensures q.marks == p.marks + [Text(lines[0], AtMargin, p.y, p.page, size, style)]
    ensures q.y + |lines[1..]| * lh <= Bottom
    ensures PlaceLines(p, lines, lh, size, style) == PlaceLines(q, lines[1..], lh, size, style)
  {
    MulSucc(|lines|, lh);
    MulNonNeg(|lines| - 1, lh);
    assert CheckPageBreak(p, lh).0 == p;
    p.(y := p.y + lh, marks := p.marks + [Text(lines[0], AtMargin, p.y, p.page, size, style)])
  }

  /** `a` rows of height `b` are one row of height `b` above `a - 1` rows. */
  lemma MulSucc(a: int, b: int)
    ensures a * b == b + (a - 1) * b
  {
  }

  lemma MulNonNeg(a: int, b: int)
    requires 0 <= a && 0 <= b
    ensures 0 <= a * b
  {
  }

  /** `addText(text, fontSize, fontStyle, lineHeight)`: nothing at all for an
      empty text; otherwise the text is wrapped to the content width, one
      page-break check is made for the whole block plus 5 points, and the
      lines are placed. */
  function AddText(p: Pdf, text: string, size: nat, style: FontStyle, lh: int, split: Splitter): (r: Pdf)
    ensures text == "" ==> r == p
    ensures text != "" ==>
      var lines := split(text, size, style, ContentWidth);
      && |r.marks| == |p.marks| + |lines|
      && r.marks[..|p.marks|] == p.marks
      && forall j | |p.marks| <= j < |r.marks| ::
           && r.marks[j].Text?
           && r.marks[j].text == lines[j - |p.marks|]
           && r.marks[j].align == AtMargin && r.marks[j].size == size && r.marks[j].style == style
    ensures p.page <= r.page
    ensures 0 < lh <= PageHeight - 2 * Margin && p.y >= Margin ==>
      && r.y >= Margin
      && forall i | |p.marks| <= i < |r.marks| :: Margin <= r.marks[i].y && r.marks[i].y + lh <= Bottom
  {
    if text == "" then p
    else
      var lines := split(text, size, style, ContentWidth);
      var q := CheckPageBreak(p, |lines| * lh + 5).0;
      var r := PlaceLines(q, lines, lh, size, style);
      r
  }

  /** After a text that drew any line, the cursor is one line height below
      the last line, on that line's page. */
  lemma AddTextEnd(p: Pdf, text: string, size: nat, style: FontStyle, lh: int, split: Splitter)
    ensures
      var r := AddText(p, text, size, style, lh, split);
      |r.marks| > |p.marks| ==> r.y == r.marks[|r.marks| - 1].y + lh && r.page == r.marks[|r.marks| - 1].page
  {
    if text != "" && |split(text, size, style, ContentWidth)| > 0 {
      var lines := split(text, size, style, ContentWidth);
      PlaceLinesEnd(CheckPageBreak(p, |lines| * lh + 5).0, lines, lh, size, style);
    }
  }

  /** A text drawn from a cursor inside the usable page leaves the cursor
      no lower than the bottom margin. */
  lemma AddTextAbove(p: Pdf, text: string, size: nat, style: FontStyle, lh: int, split: Splitter)
    requires 0 < lh <= PageHeight - 2 * Margin && Margin <= p.y <= Bottom
    ensures AddText(p, text, size, style, lh, split).y <= Bottom
  {
    AddTextEnd(p, text, size, style, lh, split);
  }

  /** A text whose block, with its 5-point allowance, fits in the usable
      page height lands on a single page: all its lines on the same page,
      `lh` apart, with the cursor just below the last one. */
  lemma AddTextOnePage(p: Pdf, text: string, size: nat, style: FontStyle, lh: int, split: Splitter)
    requires text != "" && 0 < lh && p.y >= Margin
    requires |split(text, size, style, ContentWidth)| * lh + 5 <= PageHeight - 2 * Margin
    ensures
      var r := AddText(p, text, size, style, lh, split);
      |r.marks| > |p.marks| ==>
         && (forall j | |p.marks| <= j < |r.marks| :: r.marks[j].page == r.marks[|p.marks|].page)
         && (forall j | |p.marks| < j < |r.marks| :: r.marks[j].y == r.marks[j - 1].y + lh)
         && r.y == r.marks[|r.marks| - 1].y + lh
         && r.y + 5 <= Bottom
  {
    var lines := split(text, size, style, ContentWidth);
    var q := CheckPageBreak(p, |lines| * lh + 5).0;
    assert q.y + |lines| * lh + 5 <= Bottom;
    var r := PlaceLines(q, lines, lh, size, style);
    PlaceLinesFitCursor(q, lines, lh, size, style);
    PlaceLinesFit(q, lines, lh, size, style);
    assert r == AddText(p, text, size, style, lh, split);
  }
}
