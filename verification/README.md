# personalResumeBuilder: the export and editing core in Dafny

This project models the parts of the resume builder that compute something.
React rendering and Firebase plumbing are left out. Each file is one module.

- `resume.dfy` (`Resume`) holds the resume document: an optional header and an optional list of sections, each with an id, a title, markdown content, a numeric `order` and an optional icon.
  - It also defines JavaScript truthiness of optional strings.
  - It defines the stable sort by `order` that every view and export uses. ECMAScript requires `Array.prototype.sort` to be stable, and `SortByOrder` is an insertion sort with that property.
- `text.dfy` (`Text`) provides the string primitives the code relies on:
  - the `\s` and line-terminator classes of ECMAScript regular expressions;
  - `toLowerCase` and `toUpperCase`;
  - `startsWith`, `includes` and `indexOf`;
  - `trim`;
  - `split` on one character, and `join`;
  - the decimal form of a number.
- `plain_text.dfy` (`PlainText`) models `parseMarkdownToPlainText` of `src/lib/pdfExport.js`.
  - Each `replace(/…/g)` is a left-to-right scanner over the remaining input that honours lazy quantifiers and the multiline `^`.
  - The passes run in source order, then the result is trimmed.
- `pdf_layout.dfy` (`PdfLayout`) models the page cursor of the PDF export: `checkPageBreak` and `addText`.
  - The state is a record of the cursor `y`, the page number and the list of marks drawn so far.
  - jsPDF's line wrapping (`splitTextToSize`) is a function parameter.
- `pdf_export.dfy` (`PdfExport`) models the header block, the sections in ascending `order`, and the file name of `exportToPDF`.
- `markdown_export.dfy` (`MarkdownExport`) models the text and the file name of `exportToMarkdown`.
- `skill_parser.dfy` (`SkillParser`) models `parseSkills` and `getAllSkills`.
- `icon_list.dfy` (`IconList`) models `AVAILABLE_ICONS` and `getDefaultIconForTitle`.
- `admin_edits.dfy` (`AdminEdits`) models the state updates of the admin dashboard:
  - header fields and social links;
  - section text and icon;
  - adding, deleting and moving sections.
- `resume_view.dfy` (`ResumeView`) models what the public page computes:
  - the main/sidebar column split;
  - the glyph of a section card;
  - skill tags versus markdown in the sidebar;
  - the placeholder initial.
- `storage_paths.dfy` (`StorageService`) models the profile-picture service:
  - the type and size checks and the object path of an upload;
  - the path a delete extracts from a download URL.
- `wrappers.dfy` (`Wrappers`) holds `Option` and `Result`.

Where the code differs from what its comments and names suggest, the model follows the code:

- **Headings.** A markdown heading becomes `\n` + text + `\n`, not a blank line before and after. The pattern is not anchored at a line start, and its `\s+` can cross a line break.
- **Blank lines.** Three or more consecutive line feeds (not blank lines) collapse to two.
- **Header contact lines.** The markdown header lists the phone before the email, and every header line but the location ends in two spaces (`MarkdownExport.NamePhoneEmailExport`).
- **PDF header.** The header lines are drawn with no page-break check, and they are centred with jsPDF's metrics rather than wrapped.
- **Section order.** Equal `order` values keep their input order, because the sort is stable.
- **Plain text is not idempotent.** Converting converted text again can change it, so `normalize(normalize(x)) == normalize(x)` does not hold. The heading pattern is not anchored, so `# # x` becomes `# x`, and a second conversion turns that into `x`. `PlainText.HeadingNotIdempotent` proves the two heading matches behind this. It does not cover the other passes or the final trim, which do not change these strings.

## Model

| member | source | states |
|---|---|---|
| Text.Trim | src/lib/pdfExport.js:153 | `trim()` removes exactly the leading and trailing `\s` run: the result is the middle slice, neither end is whitespace, and it is empty iff the input is all whitespace |
| Text.TrimIdempotent | src/lib/skillParser.js:20 | trimming a trimmed string changes nothing |
| Text.Split | src/lib/skillParser.js:10 | `split` on one character gives at least one piece, and no piece contains the separator |
| Text.SplitJoin | src/lib/skillParser.js:10 | joining the pieces of a split with the separator gives back the original string |
| Text.SplitAppend | src/lib/skillParser.js:10 | splitting `a + sep + b` gives the pieces of `a` followed by the pieces of `b` |
| Text.IndexOf | src/lib/storageService.js:57 | `indexOf(p, from)` is the first occurrence at or after `from`, and absence means no occurrence there |
| Text.ContainsIffIndexOf | src/lib/storageService.js:57 | `includes` holds exactly when `indexOf` finds an occurrence |
| Text.ToLowerIdempotent | src/lib/iconList.js:33 | lower-casing a lower-cased title changes nothing |
| Text.NatToString | src/lib/storageService.js:29 | the timestamp in a file name is a non-empty run of digits without a leading zero whose decimal value is the number |
| Resume.SortByOrder | src/lib/pdfExport.js:92 | `sort((a, b) => a.order - b.order)` gives an ascending permutation of the sections |
| Resume.SortByOrderStable | src/lib/pdfExport.js:92 | the sort is stable: the sections of each `order` keep their input order |
| Resume.StableSortUnique | src/lib/pdfExport.js:92 | any ascending list that keeps each order group in input order is the sorted list |
| Resume.SortSortedIsIdentity | src/lib/pdfExport.js:92 | sorting an already ascending list changes nothing |
| Resume.SameGroupsSameSort | src/lib/markdownExport.js:33 | two lists with the same order groups sort to the same list |
| PlainText.MatchFencedCode | src/lib/pdfExport.js:130 | a fence matches iff the text starts with three backticks and has a closing triple later; the match ends at the first closing triple (lazy) and is deleted |
| PlainText.MatchInlineCode | src/lib/pdfExport.js:131 | a single-backtick span with a non-empty backtick-free body becomes that body |
| PlainText.MatchHeading | src/lib/pdfExport.js:134 | 1–6 `#` then whitespace (possibly crossing lines) match; the rest of that line becomes `\n` + text + `\n` |
| PlainText.HeadingNotIdempotent | src/lib/pdfExport.js:134 | the heading text can itself be a heading: `# # x` becomes `\n# x\n`, and `# x` then matches again and becomes `\nx\n` |
| PlainText.MatchEmphasis | src/lib/pdfExport.js:137-142 | a marker, a non-empty single-line body and the first closing marker after it match lazily, and the body replaces them |
| PlainText.LazyCloseFinds | src/lib/pdfExport.js:137-142 | the lazy search for the closing marker succeeds whenever a closing marker follows on the same line |
| PlainText.MatchEmphasisFinds | src/lib/pdfExport.js:137-142 | an opening marker followed on the same line, after a non-empty body, by a closing marker always matches |
| PlainText.MatchEmphasisWrapped | src/lib/pdfExport.js:137-142 | a marker, a single-line body free of the marker character and the marker again match as a whole, and the match yields the body |
| PlainText.EmphasisUnwrapped | src/lib/pdfExport.js:137-142 | the emphasis pass turns `marker + x + marker` into `x` for a single-line `x` free of the marker character |
| PlainText.MatchLink | src/lib/pdfExport.js:145 | `[text](url)` with a non-empty `]`-free text and a `)`-free url becomes the text |
| PlainText.MatchLinkExact | src/lib/pdfExport.js:145 | every `[text](url)` with a non-empty `]`-free text and a non-empty `)`-free url matches, consuming exactly the link and yielding the text |
| PlainText.LinkUnwrapped | src/lib/pdfExport.js:145 | the link pass turns `[x](u)` into `x` |
| PlainText.MatchBullet | src/lib/pdfExport.js:148 | at a line start, whitespace (line feeds included), one of `-*+` and at least one whitespace character become `• `; the match consumes the marker and its whole following whitespace run and nothing more |
| PlainText.MatchNumbered | src/lib/pdfExport.js:149 | at a line start, whitespace, digits, a dot and at least one whitespace character are deleted |
| PlainText.MatchNumberedLength | src/lib/pdfExport.js:149 | a numbered-item match consumes the dot and its whole following whitespace run, at least one character of it, and nothing more |
| PlainText.MatchBlankRun | src/lib/pdfExport.js:152 | a run of three or more line feeds matches whole and becomes exactly two |
| PlainText.ApplySkip | src/lib/pdfExport.js:130-152 | text in which a pattern cannot start passes through a global replace unchanged |
| PlainText.BlankRunOutput | src/lib/pdfExport.js:152 | after the blank-run replace no three line feeds are adjacent, and a leading run is cut to at most two |
| PlainText.Normalize | src/lib/pdfExport.js:124-156 | empty markdown gives empty text; otherwise the plain text has no run of three line feeds and neither starts nor ends with whitespace |
| PlainText.PlainNoMatch | src/lib/pdfExport.js:130-152 | no pass matches anywhere in text made only of letters, digits, spaces, commas and line feeds with no run of three line feeds |
| PlainText.NormalizeKeepsPlain | src/lib/pdfExport.js:124-156 | such plain text, non-empty and without leading or trailing whitespace, comes back unchanged |
| PdfLayout.CheckPageBreak | src/lib/pdfExport.js:22-29 | a new page is started, with the cursor at the top margin, exactly when the block would pass the bottom margin, and the result says so; nothing is drawn |
| PdfLayout.PlaceLines | src/lib/pdfExport.js:43-47 | every wrapped line is drawn in order at the margin, on the current page or a later one; with a line height that fits a page, no line reaches into the bottom margin |
| PdfLayout.PlaceLinesEnd | src/lib/pdfExport.js:43-47 | the cursor ends one line height below the last line drawn, on its page |
| PdfLayout.PlaceLinesFit | src/lib/pdfExport.js:43-47 | a block that fits below the cursor is drawn on the current page, from the cursor down, one line height apart |
| PdfLayout.PlaceLinesFitCursor | src/lib/pdfExport.js:43-47 | such a block adds no page and moves the cursor down by its height |
| PdfLayout.AddText | src/lib/pdfExport.js:32-48 | an empty text draws nothing; otherwise exactly the wrapped lines are drawn in order, none into the bottom margin |
| PdfLayout.AddTextEnd | src/lib/pdfExport.js:43-47 | after a text the cursor is one line height below its last line |
| PdfLayout.AddTextOnePage | src/lib/pdfExport.js:39-47 | a text whose height plus 5 points fits the usable page height lands on one page, its lines one line height apart |
| PdfExport.ContactParts | src/lib/pdfExport.js:75 | the contact parts are the present fields, in the order email, phone, location |
| PdfExport.ContactLineCases | src/lib/pdfExport.js:75-76 | all three fields give `email • phone • location`; none gives the empty line |
| PdfExport.DrawHeader | src/lib/pdfExport.js:51-86 | the name (or `''`) in 22-point bold, the title in 12-point italic only when present, then the contact line and the divider, at the stated offsets on the first page |
| PdfExport.ToBlocks | src/lib/pdfExport.js:108 | each section's content is passed through the markdown-to-plain-text normaliser |
| PdfExport.DrawTitle | src/lib/pdfExport.js:94-105 | after the 50-point page-break check the upper-cased title is drawn in 12-point bold with 50 points of room below it, the underline 5 points lower, and the cursor 20 points below the title |
| PdfExport.DrawSection | src/lib/pdfExport.js:93-111 | a section draws its title part first, then only 10-point normal text lines; empty content draws nothing more |
| PdfExport.SectionBody | src/lib/pdfExport.js:107-109 | for non-empty plain text, the lines after the title and underline are exactly the wrapped lines of that text at the content width, one mark each, in order |
| PdfExport.DrawSectionsOne | src/lib/pdfExport.js:93-112 | drawing a single section is drawing that section |
| PdfExport.DrawSectionsAppend | src/lib/pdfExport.js:90-113 | the sections are drawn end to end: drawing two runs of sections is drawing the first run, then the second from where the first left the document |
| PdfExport.ExportPdfHeaderOnly | src/lib/pdfExport.js:90-113 | a document without sections exports the header block alone |
| PdfExport.ExportPdfLastSection | src/lib/pdfExport.js:90-113 | the last section in `order` is drawn after all the others, from where they left the document |
| PdfExport.SectionGap | src/lib/pdfExport.js:109-111 | the cursor ends 13 + 15 points below the last content line, or 15 points below the title part when there is no content |
| PdfExport.SectionHeadings | src/lib/pdfExport.js:97-109 | a section draws exactly one heading, its upper-cased title |
| PdfExport.SectionsHeadings | src/lib/pdfExport.js:90-112 | the sections draw their upper-cased titles as headings in the order they are drawn |
| PdfExport.HeaderHasNoHeadings | src/lib/pdfExport.js:51-87 | the header block draws no section heading |
| PdfExport.ExportPdfHeadings | src/lib/pdfExport.js:89-113 | the headings of the whole PDF are the upper-cased section titles in ascending `order`, ties in input order, one per section |
| PdfExport.ExportPdfDrawsTitles | src/lib/pdfExport.js:89-113 | the PDF's headings are exactly the titles of the sorted sections |
| PdfExport.ExportPdf | src/lib/pdfExport.js:50-117 | the export ends with the cursor on the page, between the top margin and 15 points below the bottom margin, and carries the file name |
| PdfExport.SectionEndsOnPage | src/lib/pdfExport.js:94-111 | after a section the cursor is at most 15 points below the bottom margin, since every line is placed above it |
| PdfExport.SectionsEndOnPage | src/lib/pdfExport.js:90-112 | the same holds after the last of any non-empty run of sections |
| PdfLayout.AddTextAbove | src/lib/pdfExport.js:32-48 | a text drawn from a cursor inside the usable page leaves the cursor no lower than the bottom margin |
| PdfExport.PdfFileName | src/lib/pdfExport.js:116 | the file is `<name> - Resume.pdf`, or `Resume - Resume.pdf` when the name is missing or empty |
| MarkdownExport.SplitLines | src/lib/markdownExport.js:10-14 | newline-terminated single-line entries split at line feeds back into the entries plus one trailing empty piece |
| MarkdownExport.HeaderLineList | src/lib/markdownExport.js:10-14 | the bold name always, then title, phone, email and location, each only when present and non-empty, in that order; all but the location end with two spaces |
| MarkdownExport.LinkItems | src/lib/markdownExport.js:17-22 | one `[Label](url)` per present link, in the order GitHub, LinkedIn, Twitter, Website |
| MarkdownExport.LinksLine | src/lib/markdownExport.js:17-26 | the links line is empty iff there is no link; otherwise it is the links joined by ` \| ` between two line feeds |
| MarkdownExport.HeaderBlockLines | src/lib/markdownExport.js:8-28 | the header block is its lines then a final line feed; without links it splits into the header lines and two empty lines |
| MarkdownExport.HeaderText | src/lib/markdownExport.js:8-28 | the header part is empty exactly when there is no header |
| MarkdownExport.ExportMarkdown | src/lib/markdownExport.js:5-38 | the file starts with the header part; without sections it is the header part alone, and with neither header nor sections it is empty |
| MarkdownExport.ExportMarkdownSectionAt | src/lib/markdownExport.js:31-38 | every section contributes exactly `# title`, a blank line, its content verbatim and a blank line, at its place in ascending `order` |
| MarkdownExport.ExportMarkdownOrderIndependent | src/lib/markdownExport.js:31-38 | the file depends on the section list only through its order groups |
| MarkdownExport.NamePhoneEmailExport | src/lib/markdownExport.js:8-38 | a header with name, phone and email and one section give the name line, the phone line, the email line, a blank line and the section block, in that order |
| MarkdownExport.MarkdownFileName | src/lib/markdownExport.js:45 | the file is `<name> - Resume.md`, or `Resume - Resume.md` when the name is missing or empty |
| SkillParser.FindCategory | src/lib/skillParser.js:14 | the category pattern is matched at its leftmost position in the line, or not at all |
| SkillParser.MatchCategoryAt | src/lib/skillParser.js:14 | a match starts at `*` and captures a non-empty `*`-free category and a non-empty single-line list; it exists only when the opening, the closing `**` and a start for the list are all found, and its captures are the ones those positions give |
| SkillParser.Captures | src/lib/skillParser.js:14 | the first group is the text between the opening and closing `**`; the second is the text from the list's start up to the first line terminator or the end of the line, with no line terminator in it |
| SkillParser.MatchCategoryParts | src/lib/skillParser.js:14 | the pattern matches at a position exactly when the opening, the closing `**` and a start for the list are all found there |
| SkillParser.SplitSkills | src/lib/skillParser.js:18-21 | the skills are the comma pieces, trimmed, with empty ones dropped: each is non-empty, trimmed and comma-free, and a string is a skill exactly when it is the non-empty trim of some piece |
| SkillParser.KeepTrimmedMember | src/lib/skillParser.js:20-21 | the trim-and-filter keeps a string exactly when it is the non-empty trim of some item |
| SkillParser.KeepTrimmedAppend | src/lib/skillParser.js:20-21 | the trim-and-filter works item by item, so it keeps the items' order: the kept items of two lists are those of the first then those of the second |
| SkillParser.KeepTrimmedNoBlank | src/lib/skillParser.js:18-21 | when no piece is blank, every piece is kept, trimmed, in order |
| SkillParser.StripBullet | src/lib/skillParser.js:29 | a leading `*` or `-` followed by whitespace is removed with all of that whitespace and nothing else: the result is the rest of the line from its first non-whitespace character; any other line is unchanged |
| SkillParser.ParseLine | src/lib/skillParser.js:14-36 | a category line gives the trimmed category and its skills; otherwise a bullet line gives a `General` entry with its stripped text iff that text is non-empty and holds no `**` |
| SkillParser.ParseLines | src/lib/skillParser.js:12-37 | at most one entry per line, and every skill is non-empty and trimmed |
| SkillParser.ParseLinesAppend | src/lib/skillParser.js:12-37 | entries follow line order: the entries of two blocks of lines are those of the first then those of the second |
| SkillParser.ParseSkills | src/lib/skillParser.js:6-40 | empty content gives no entry; there are at most as many entries as lines; every skill is non-empty and trimmed |
| SkillParser.ParseSkillsIsParseLines | src/lib/skillParser.js:10 | parsing content is parsing its `\n`-separated lines |
| SkillParser.ParseSkillsLines | src/lib/skillParser.js:10-37 | parsing two texts joined by a line feed gives the entries of the first then those of the second |
| SkillParser.ParseRenderedLine | src/lib/skillParser.js:14-26 | a `* **Category** a, b` line built from a clean category and clean comma-free skills parses back to that category and those skills |
| SkillParser.ItemsRoundTrip | src/lib/skillParser.js:18-21 | clean comma-free skills joined by `, `, after any leading whitespace, split, trim and filter back to themselves |
| SkillParser.SampleSkillLine | src/config.default.js:89 | the sample line gives category `Technical Skills:`, colon kept, and its four skills |
| SkillParser.Flatten | src/lib/skillParser.js:49-51 | a skill is in the flat list iff it is in some entry |
| SkillParser.FlattenOne | src/lib/skillParser.js:49-51 | one entry flattens to its own skills |
| SkillParser.FlattenAt | src/lib/skillParser.js:47-53 | the flat list is the entries' skills laid end to end in entry order, duplicates kept: its length is the total, and skill `j` of entry `i` follows the skills of the entries before `i` |
| SkillParser.GetAllSkills | src/lib/skillParser.js:45-54 | `getAllSkills` is the skills of the parsed entries laid end to end in entry order, duplicates kept, each non-empty and trimmed |
| SkillParser.GetAllSkillsLines | src/lib/skillParser.js:45-54 | the flat list of two joined texts is the flat list of the first then that of the second |
| IconList.CatalogueDistinct | src/lib/iconList.js:6-27 | the catalogue has 20 entries with pairwise distinct keys |
| IconList.FirstFiring | src/lib/iconList.js:34-43 | the rule chosen is the first that fires from the given one on, or none fires |
| IconList.DefaultIconForTitle | src/lib/iconList.js:32-44 | the icon is that of the first rule whose keyword occurs in the lower-cased title, and `file-text` when none does |
| IconList.DefaultIconInCatalogue | src/lib/iconList.js:6-43 | every default icon is a catalogue key |
| IconList.DefaultIconIgnoresCase | src/lib/iconList.js:33 | a title and its lower-cased form get the same icon |
| IconList.ExperienceFirst | src/lib/iconList.js:34 | a title mentioning experience or work gets `briefcase`, whatever else it mentions |
| IconList.VolunteerExperience | src/lib/iconList.js:34-41 | `Volunteer Experience` gets `briefcase`, not `users` |
| IconList.WorkSkills | src/lib/iconList.js:34-36 | `Work Skills` gets `briefcase`, not `code` |
| AdminEdits.UpdateHeader | src/components/AdminDashboard.jsx:105-110 | the named field gets the value; every other field, the links and the sections are unchanged; a missing header is spread as an empty one |
| AdminEdits.UpdateHeaderTwice | src/components/AdminDashboard.jsx:105-110 | the second of two updates of a field wins |
| AdminEdits.UpdateHeaderCommutes | src/components/AdminDashboard.jsx:105-110 | updates of two different fields commute |
| AdminEdits.UpdateSocialLink | src/components/AdminDashboard.jsx:112-123 | only the named platform changes; a document without a header has no result, since reading its links throws |
| AdminEdits.SetSectionText | src/components/AdminDashboard.jsx:178 | the named text field gets the value; id, order, icon and the other field are kept |
| AdminEdits.UpdateSection | src/components/AdminDashboard.jsx:174-181 | only sections with the id change, and only in the named field; length and positions are kept |
| AdminEdits.UpdateSectionTwice | src/components/AdminDashboard.jsx:174-181 | the second of two edits of a field wins |
| AdminEdits.UpdateSectionIcon | src/components/AdminDashboard.jsx:144-150 | only sections with the id get the icon; everything else is unchanged |
| AdminEdits.UpdateSectionIconTwice | src/components/AdminDashboard.jsx:144-150 | the icon picked last stays |
| AdminEdits.RemoveId | src/components/AdminDashboard.jsx:187 | a section survives the filter iff its id differs |
| AdminEdits.RemoveIdAppend | src/components/AdminDashboard.jsx:187 | the filter keeps the survivors in order |
| AdminEdits.RemoveAbsentId | src/components/AdminDashboard.jsx:187 | deleting an id no section carries changes nothing |
| AdminEdits.DeleteSection | src/components/AdminDashboard.jsx:183-190 | without confirmation nothing changes; with it exactly the sections with the id go |
| AdminEdits.NewSectionId | src/components/AdminDashboard.jsx:157 | a new section's id is `section-` followed by the decimal digits of the current time |
| AdminEdits.NewSectionIdInjective | src/components/AdminDashboard.jsx:157 | sections added at different times get different ids, and the time is read back from the id's digits |
| AdminEdits.AddSection | src/components/AdminDashboard.jsx:154-165 | one section is appended after the unchanged list, with the template's title and content, no icon, and `order` equal to the old length |
| AdminEdits.AddSectionSortsLast | src/components/AdminDashboard.jsx:154-165 | when all orders are at most the length, the new section sorts last |
| AdminEdits.FindIndex | src/components/AdminDashboard.jsx:194 | `findIndex` gives the first position with the id, or -1 when there is none |
| AdminEdits.Swap | src/components/AdminDashboard.jsx:197-199 | the destructuring swap exchanges two neighbours and keeps everything else, as a permutation |
| AdminEdits.Renumber | src/components/AdminDashboard.jsx:203-206 | each section's `order` becomes its position, nothing else changes |
| AdminEdits.Swapped | src/components/AdminDashboard.jsx:196-200 | the swap step keeps the length and the multiset of sections |
| AdminEdits.MoveAt | src/components/AdminDashboard.jsx:196-206 | the result is the list with at most one neighbour swap, up with the predecessor and down with the successor, renumbered 0 to n-1 |
| AdminEdits.MoveSection | src/components/AdminDashboard.jsx:192-209 | the sorted list with at most one adjacent swap of the section found by id, renumbered 0 to n-1 |
| AdminEdits.MoveSectionPermutes | src/components/AdminDashboard.jsx:193-206 | a move is a renumbered permutation of the sections |
| AdminEdits.MoveSectionSorted | src/components/AdminDashboard.jsx:203-206 | after a move the list is ascending and the sort leaves it alone |
| AdminEdits.MoveSectionOfSorted | src/components/AdminDashboard.jsx:193 | on an already ascending list the move works in place |
| AdminEdits.MoveUpThenDown | src/components/AdminDashboard.jsx:192-209 | with distinct ids, moving a section up and then down restores the sorted, renumbered list |
| AdminEdits.UpThenDownSorted | src/components/AdminDashboard.jsx:196-206 | the same on the sorted list, with the index found again by id |
| AdminEdits.MovedIndex | src/components/AdminDashboard.jsx:194-197 | after moving up the section at `k`, its id is first found at `k - 1` |
| AdminEdits.MoveAtUpDown | src/components/AdminDashboard.jsx:196-206 | up at `k` then down at `k - 1` undo each other |
| AdminEdits.RenumberSlots | src/components/AdminDashboard.jsx:203-206 | the renumbering `map` on array slots: a section gets its position, a missing entry becomes `{order: i}` |
| AdminEdits.MoveAtAsWritten | src/components/AdminDashboard.jsx:196-206 | the swap and renumbering exactly as written, including the index -1 write |
| AdminEdits.MoveSectionAsWritten | src/components/AdminDashboard.jsx:192-209 | `moveSection` exactly as written keeps the length |
| AdminEdits.MoveUnknownDownLosesFirst | src/components/AdminDashboard.jsx:194-206 | as written, moving an unknown id down replaces the first section by a bare `{order: 0}` |
| AdminEdits.MoveUnknownKeepsOrder | src/components/AdminDashboard.jsx:194-200 | the corrected move of an unknown id only sorts and renumbers |
| AdminEdits.MoveSectionAsWrittenAgrees | src/components/AdminDashboard.jsx:192-209 | apart from that case the written move and the corrected one agree |
| AdminEdits.MoveAtAgrees | src/components/AdminDashboard.jsx:196-206 | the same agreement on the sorted list |
| ResumeView.Keep | src/components/ModernResumeView.jsx:164 | the filter keeps exactly the sections on the requested side, at most as many as there were |
| ResumeView.KeepSplits | src/components/ModernResumeView.jsx:163-169 | the two filters together hold every section exactly as often as the list |
| ResumeView.Layout | src/components/ModernResumeView.jsx:163-169 | the two columns partition the sections, the sidebar holds exactly the sidebar titles, both are ascending, and a missing list gives two empty columns |
| ResumeView.Column | src/components/ModernResumeView.jsx:164-169 | one column is a sorted permutation of its filtered sections |
| ResumeView.ColumnsFollowPageOrder | src/components/ModernResumeView.jsx:163-169 | each column shows its sections in the order of the whole sorted page, ties included |
| ResumeView.FilterThenSort | src/components/ModernResumeView.jsx:163-169 | filtering commutes with the stable sort |
| ResumeView.KeepSorted | src/components/ModernResumeView.jsx:164-165 | filtering an ascending list keeps it ascending |
| ResumeView.KeepWithOrder | src/components/ModernResumeView.jsx:164-165 | filtering keeps each order group in input order |
| ResumeView.SkillsInSidebar | src/components/ModernResumeView.jsx:123-130 | a title mentioning skills (in any case) puts its section in the sidebar and not in the main column |
| ResumeView.SectionGlyph | src/components/ModernResumeView.jsx:92-120 | a non-empty icon is shown when it is a catalogue key, another key shows the document glyph, and a missing or empty icon shows the title's default |
| ResumeView.PickedIconShown | src/components/ModernResumeView.jsx:94 | an icon picked from the catalogue is the glyph shown for that section |
| ResumeView.SidebarBody | src/components/ModernResumeView.jsx:294-307 | skill tags are shown iff the title mentions skills and parsing gives an entry; otherwise the markdown |
| ResumeView.EmptySkillsShowMarkdown | src/components/ModernResumeView.jsx:307 | a skills section with empty content shows its (empty) markdown |
| ResumeView.HeaderPortrait | src/components/ModernResumeView.jsx:190-199 | the picture is shown iff it is set and non-empty; otherwise one character, the name's first, or `U` without a name |
| StorageService.CheckPicture | src/lib/storageService.js:17-24 | a non-image type is rejected with the type message, an image over 5 MiB with the size message, and the type is checked first |
| StorageService.SizeLimitInclusive | src/lib/storageService.js:22-24 | exactly 5 242 880 bytes pass and one more byte is rejected |
| StorageService.Extension | src/lib/storageService.js:28 | the extension holds no dot |
| StorageService.ExtensionIsSuffix | src/lib/storageService.js:28 | the extension is the end of the name after its last dot, or the whole name when there is none |
| StorageService.ExtensionOf | src/lib/storageService.js:28 | a name ending in `.` and a dot-free extension gives that extension |
| StorageService.UploadPath | src/lib/storageService.js:14-32 | the upload fails iff a check fails, with its message; otherwise the path is `profile-pictures/profile-<user>-`, the decimal digits of the upload time, `.` and the file's extension (read back by the extension lookup), with user `main` when none is passed |
| StorageService.ObjectPathShape | src/lib/storageService.js:29-32 | the object path starts with the folder, `profile-` and the user, and ends in `.` + extension |
| StorageService.SecondPiece | src/lib/storageService.js:57 | `split('/o/')[1]` exists iff the URL holds `/o/`; it is the text that starts right after the first `/o/` and ends at the next `/o/` or at the end of the URL, with no `/o/` starting inside it |
| StorageService.DeletePath | src/lib/storageService.js:49-58 | a path is extracted only from a non-empty URL with the Firebase prefix; it is non-empty and holds neither `?` nor `/o/` |
| StorageService.DeletePathRoundTrip | src/lib/storageService.js:54-58 | a download URL built from a bucket, a path and a query gives back the path |
| StorageService.DeletePicture | src/lib/storageService.js:49-68 | a delete is requested iff a path is extracted and decodes; the outcome is recorded and never raised |

## Left out

- Browser and Firebase I/O is not modelled: Firestore, Storage uploads and deletes, authentication, and the Blob download of the markdown file. `decodeURIComponent` and `deleteObject` are function parameters of `StorageService.DeletePicture`, and `Date.now()` is a parameter.
- jsPDF internals are not modelled. Wrapping is a function parameter; the font metrics, the centring arithmetic and the drawing calls are outside the model.
- The default line height `fontSize * 1.3` of `addText` is floating point. It is not modelled, because the only call passes 13.
- Case mapping covers ASCII letters only. Unicode `toLowerCase`/`toUpperCase` is outside the model.
- ResumeView.HeaderPortrait: strings are sequences of Unicode characters, not UTF-16 code units. So for a name starting with a character outside the Basic Multilingual Plane, the model's initial is the whole character, where `charAt(0)` gives a lone surrogate. Modelling code units would need an encoding layer under every string operation.
- JavaScript `null` and `undefined` are both `None`. The markdown export writes `undefined` for a missing name, and `MarkdownExport.Interpolate` does too. A name stored as `null` is written `null` by the template literal at src/lib/markdownExport.js:10, but the model writes `undefined` for it as well.
- Section `order` is an integer. Non-numeric or missing orders, which make the comparator return `NaN`, are not modelled.
- The export functions sort `resumeData.sections` in place, which mutates the caller's array. The model is pure and returns the sorted list.
- `AdminEdits.UpdateSection` limits the field to title or content. The source accepts any field name.
- `AdminEdits.AddSection` and `AdminEdits.DeleteSection`: the template catalogue is a parameter (its markdown files are not part of this model), and so is the confirmation dialog.
- Edits on a document whose section list is missing throw in the source. The model's section edits take the list itself.
- `ResumeView.SectionGlyph`: the icon table holds exactly the catalogue's keys. Prototype property names of the JavaScript object (such as `constructor`) are not modelled.
- `StorageService.DeletePathRoundTrip` asks for a bucket of at least two characters without `/`. Firebase bucket names meet this; other URLs are covered only by `StorageService.DeletePath`.
- `PdfExport.ExportPdf` states the cursor bounds and the file name. The headings are stated by `PdfExport.ExportPdfHeadings`; the body lines by `PdfExport.SectionBody` for one section, joined through `PdfExport.DrawSectionsAppend`, `PdfExport.DrawSectionsOne` and `PdfExport.ExportPdfLastSection`. No single lemma lists every mark of the whole export at its position.
- React rendering (markup, hooks, the icon picker, the markdown rendering of cards), the login flow, and `src/utils/suppressWarnings.js` are UI or environment code.

## Findings

| source | as written | input that shows it | evidently intended | confidence | as-written member | corrected member |
|---|---|---|---|---|---|---|
| src/components/AdminDashboard.jsx:194-200 | `findIndex` gives -1 for an unknown id. For `down` the guard `-1 < length - 1` holds, so `sections[-1]` (a property, not an element) is swapped with `sections[0]`. Element 0 becomes `undefined`, and the renumbering turns it into a bare `{order: 0}`. | any non-empty section list, an id no section has, direction `down` | an unknown id moves nothing; the list is only sorted and renumbered | not executed | AdminEdits.MoveUnknownDownLosesFirst | AdminEdits.MoveUnknownKeepsOrder |
