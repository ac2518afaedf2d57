# Resume analysis parser and resume formatter

A Dafny model of the two text-structuring routines of the resume tool.

- `parseGeminiResponse` turns the model's free-text analysis of a resume into a record `{summary, rating, keyPoints}`. It makes three anchored regex extractions, between the bold labels `**Summary:**`, `**Key Points:**` and `**Rating:**`. Each extraction has a fixed fallback text, and a `catch` returns a fixed fallback record.
- `formatResume` turns a generated plain-text resume into a sequence of rendered elements. It makes one pass over the non-blank lines with a single `insideList` flag. Each line becomes a section heading, a list item or a paragraph, and empty `<ul>` elements are pushed where a run of list items starts and ends.

The project has three modules:

- `JsText` (`js_text.dfy`) holds the JavaScript string primitives both routines use:
  - the whitespace set shared by `\s` and `String.prototype.trim`, and `trim`, `trimStart` and `trimEnd` themselves;
  - the `\d` and `\w` classes and the line terminators that `.` refuses;
  - literal search in the manner of `indexOf`;
  - the UTF-16 length that `.length` reports.
- `AnalysisParser` (`analysis_parser.dfy`) is the parser. It is pure code, so it is modelled as functions with lemmas. Each regex becomes an explicit scan with the same semantics:
  - the lazy `(.*?)(?=…)` with the `s` flag;
  - `split(/\d\.\s*/)` with the separators it consumes;
  - the anchored `^\*\*(.*?)\*\*`, which cannot cross a line terminator;
  - the greedy `\s*(\w+)`.
- `DocumentFormatter` (`document_formatter.dfy`) is the formatter. The source pushes into an array inside a `forEach` and flips a flag, so:
  - `FormatLines` is a `while` loop over the lines, carrying `formattedContent` and `insideList`;
  - `FormatLine` is the loop body;
  - both are proved against the recursive functions `PushLine` and `FormatFrom`, and the formatter's properties are lemmas about those functions.

The two empty `<ul>` elements are the tokens `ListOpen` and `ListClose`. The `<div>`/`<h3>`, `<li>` and `<p>` elements are `Heading`, `ListItem` and `Paragraph`, each carrying the text the element shows.

A string is a sequence of characters (code points). JavaScript's `.length` counts UTF-16 code units, so the key-point length test goes through `Utf16Length`.

Where the code and the natural reading of the design differ, the model follows the code:

- The rating is any `\w+` word that follows the first `**Rating:**` reached by optional whitespace and a word character. It is not one of a fixed set of grades.
- When the Key Points section exists but every fragment is dropped by the `length > 3` filter, the key points are the empty list, not the fallback list.
- Splitting on `\d\.\s*` also cuts at `10.` (after the `1`) and at decimals such as `3.8`.
- The heading test is a case-insensitive prefix test only. `Skillset` is a heading, and a trailing colon stays in the heading text.
- The `catch` branch is taken only for a response that is not a string. Its record is not unique to that branch, though: a string laid out with the three labels can parse to the same value (`CatchRecordFromText`).
- The empty `<ul>` elements hold no items: the `<li>` elements are their siblings. The model keeps them as bracket tokens and proves the bracketing discipline about them.

## Model

| member | source | states |
|---|---|---|
| JsText.Trim | src/app/analyze-resume/page.js:47 | `trim` leaves no whitespace at either end, keeps only characters of the input, and gives the empty string exactly when the input is all whitespace |
| JsText.TrimKeepsInfix | src/app/analyze-resume/page.js:47 | the trimmed text is a contiguous piece of the input, and only whitespace lies before and after it |
| JsText.TrimIsUnique | src/app/analyze-resume/page.js:47 | any piece of the input that has only whitespace around it, no whitespace at either end, and is empty exactly for an all-whitespace input, is the trimmed text |
| JsText.TrimStart | src/app/mock/page.js:144 | the `\s*` after the bullet removes a prefix made only of whitespace, and what is left is a suffix that does not start with whitespace |
| JsText.SkipSpaces | src/app/analyze-resume/page.js:60 | `\s*` consumes whitespace only, and stops at the end or at the first non-whitespace character |
| JsText.FindFrom | src/app/analyze-resume/page.js:45 | the search finds an occurrence at or after the start, and none lies between the start and it; without a result there is no occurrence at or after the start |
| JsText.FindFromInPrefix | src/app/analyze-resume/page.js:45 | a first occurrence found in a text stays the first one once text is appended |
| JsText.Utf16Length | src/app/analyze-resume/page.js:57 | `.length` counts at least one unit per character, and exactly one when every character is in the Basic Multilingual Plane |
| AnalysisParser.ParseGeminiResponse | src/app/analyze-resume/page.js:43-72 | for every response, every field of the record is present. The summary is trimmed and holds no `\n`, the rating is the fallback or a non-empty word, and every key point passes the filter and is trimmed. A non-string response gives the catch record |
| AnalysisParser.FallbackTexts | src/app/analyze-resume/page.js:46-58 | the fallback summary and key point have the shape of the fields they stand in for |
| AnalysisParser.CatchTexts | src/app/analyze-resume/page.js:64-71 | the catch record's texts have the same shapes |
| AnalysisParser.LazySpan | src/app/analyze-resume/page.js:45 | the regex matches exactly when some opening label is followed later by a closing label |
| AnalysisParser.LazySpanIsFirstPair | src/app/analyze-resume/page.js:45 | the lazy match lands on the first opening label of the text and on the first closing label after it. It fails exactly when one of these two searches fails |
| AnalysisParser.NewlinesToSpaces | src/app/analyze-resume/page.js:47 | replacing every `\n` keeps the length, puts a space wherever there was a `\n`, leaves no `\n`, changes no other character, keeps a trimmed text trimmed, and changes nothing in a text without `\n` |
| AnalysisParser.ExtractSummary | src/app/analyze-resume/page.js:45-48 | the summary never holds a `\n` and has no whitespace at either end |
| AnalysisParser.SummaryBetweenMarkers | src/app/analyze-resume/page.js:45-48 | the summary is the trimmed text, with every `\n` made a space, between the first Summary label and the first Key Points label after it, and the fallback when either is missing |
| AnalysisParser.SummaryIgnoresLaterText | src/app/analyze-resume/page.js:45-48 | once a Summary label and a later Key Points label are present, appending text does not change the summary |
| AnalysisParser.SplitFrom | src/app/analyze-resume/page.js:53 | the scan yields exactly one more fragment than separators |
| AnalysisParser.SplitOnNumbering | src/app/analyze-resume/page.js:53 | `split(/\d\.\s*/)` gives one more fragment than there are separators, the fragments interleaved with the separators give back the block, and no fragment holds a digit followed by a dot |
| AnalysisParser.Separators | src/app/analyze-resume/page.js:53 | every piece the split consumes is a whole match of `\d\.\s*` |
| AnalysisParser.SplitCutsInsideNumbers | src/app/analyze-resume/page.js:53 | `"GPA 3.8"` splits into `"GPA "` and `"8"`, and `"10. Led"` into `"1"` and `"Led"` |
| AnalysisParser.SplitFromRebuilds | src/app/analyze-resume/page.js:53 | the split is exact: the fragments with the consumed separators between them give back the block |
| AnalysisParser.SplitFromPieces | src/app/analyze-resume/page.js:53 | no fragment holds a digit followed by a dot, every separator is a whole `\d\.\s*` match, and no fragment after a separator starts with whitespace |
| AnalysisParser.UnnumberedBlockIsOneFragment | src/app/analyze-resume/page.js:53 | a block with no digit followed by a dot splits into the one fragment that is the block itself |
| AnalysisParser.BoldCloseFrom | src/app/analyze-resume/page.js:55 | the lazy `(.*?)\*\*` ends at the first `**` reached without crossing a line terminator. When it fails, every later `**` lies past a line terminator |
| AnalysisParser.UnwrapBold | src/app/analyze-resume/page.js:55 | a point that opens with `**` closed on the same line loses exactly those two delimiters and keeps everything else. Any other point is unchanged |
| AnalysisParser.CleanPoint | src/app/analyze-resume/page.js:54-56 | a cleaned point has no whitespace at either end |
| AnalysisParser.Kept | src/app/analyze-resume/page.js:57 | a point of more than three characters is kept, and when every character is in the Basic Multilingual Plane a point is kept exactly when it has more than three |
| AnalysisParser.CleanAndFilter | src/app/analyze-resume/page.js:54-57 | no more points than fragments, and every kept point is non-empty, longer than three units and trimmed |
| AnalysisParser.CleanAndFilterMembers | src/app/analyze-resume/page.js:54-57 | a text is a key point if and only if it is the cleaned form of some fragment and passes the filter |
| AnalysisParser.ExtractKeyPoints | src/app/analyze-resume/page.js:50-58 | every key point, fallback included, passes the filter and is trimmed |
| AnalysisParser.KeyPointsBetweenMarkers | src/app/analyze-resume/page.js:50-58 | without a Key Points label followed by a Rating label the list is the fallback. Otherwise it is the kept fragments of the text between the first Key Points label and the first Rating label after it, possibly none |
| AnalysisParser.UnnumberedBlockKeyPoints | src/app/analyze-resume/page.js:53-57 | a block without numbering gives at most one key point: the cleaned block, kept exactly when it passes the filter |
| AnalysisParser.WordRunEnd | src/app/analyze-resume/page.js:60 | `\w+` is greedy: the run holds only word characters and stops at the end or at a non-word character |
| AnalysisParser.FirstRatingFrom | src/app/analyze-resume/page.js:60 | the rating regex matches at the index found and nowhere before it |
| AnalysisParser.ExtractRating | src/app/analyze-resume/page.js:60-61 | the rating is the fallback exactly when the rating pattern matches nowhere. Otherwise it is a non-empty run of word characters |
| AnalysisParser.RatingIsWordAfterFirstMarker | src/app/analyze-resume/page.js:60-61 | a rating that is not the fallback is the whole word after the first Rating label that optional whitespace and a word character follow |
| AnalysisParser.UnmarkedTextGivesDefaults | src/app/analyze-resume/page.js:45-63 | a text with no Key Points label and no Rating label parses to the three fallbacks |
| AnalysisParser.EmptyResponseGivesDefaults | src/app/analyze-resume/page.js:45-63 | the empty response parses to the three fallbacks |
| AnalysisParser.MissingRatingMarker | src/app/analyze-resume/page.js:45-61 | without a Rating label the rating and the key points fall back, and the summary is still the text between its labels |
| AnalysisParser.SummaryOfOrderedSections | src/app/analyze-resume/page.js:45-48 | when a Summary label is the first one and no Key Points label occurs inside the body after it, the summary is that body, trimmed, with every `\n` made a space |
| AnalysisParser.KeyPointsOfOrderedSections | src/app/analyze-resume/page.js:50-58 | when a Key Points label is the first one and no Rating label occurs inside the body after it, the key points are the kept fragments of that body |
| AnalysisParser.RatingOfOrderedSections | src/app/analyze-resume/page.js:60-61 | when a Rating label is the first one and whitespace and a whole word follow it, the rating is that word |
| AnalysisParser.SectionsInOrder | src/app/analyze-resume/page.js:43-63 | a response with the three labels in the prompt's order, each the first of its kind, parses to exactly the contents of its three sections |
| AnalysisParser.RatingMarkerAtEnd | src/app/analyze-resume/page.js:60-61 | a text that ends with its first Rating label has the rating fallback |
| AnalysisParser.StarFreeBodiesKeepMarkersFirst | src/app/analyze-resume/page.js:45-60 | bodies without `*` that do not open with a capital cannot hide a label, so every label placed in the prompt's order is the first of its kind |
| AnalysisParser.SectionsWithoutRatingWord | src/app/analyze-resume/page.js:43-63 | a response of the three labels in order, each body after one space, trimmed and free of `*`, the summary body free of `\n`, the key-points body free of digits, and nothing after the Rating label, parses to the summary body, the rating fallback, and the key-points body alone if it passes the filter |
| AnalysisParser.CatchRecordFromText | src/app/analyze-resume/page.js:64-71 | a string response can parse to the same value as the catch record |
| DocumentFormatter.SplitLines | src/app/mock/page.js:116 | `split("\n")` gives at least one piece, no piece holds a newline, and the pieces joined with newlines give back the text |
| DocumentFormatter.JoinThenSplit | src/app/mock/page.js:116 | lines without newlines, joined and split again, come back unchanged |
| DocumentFormatter.NonBlankLines | src/app/mock/page.js:116 | a line survives the filter if and only if it is one of the lines and not all whitespace. A list with no blank line is unchanged, and an all-blank list becomes empty |
| DocumentFormatter.IsSectionHeading | src/app/mock/page.js:124 | a line that passes the heading test is at least six characters long and starts with an ASCII letter |
| DocumentFormatter.HeadingTestIsPrefixTest | src/app/mock/page.js:124 | whatever follows a heading's text, the line stays a heading |
| DocumentFormatter.ClassifiedText | src/app/mock/page.js:122-144 | the text a classified line carries has no whitespace at either end and is made only of characters of the line |
| DocumentFormatter.ClassifyLine | src/app/mock/page.js:122-155 | a line is a heading if and only if its trimmed text passes the heading test. It is an item if and only if it fails that test and starts with `-` or `•`. A heading or paragraph carries the whole trimmed line; an item carries the trimmed line minus the bullet and the whitespace after it |
| DocumentFormatter.NoHeadingWithoutLetter | src/app/mock/page.js:124 | a line that does not start with an ASCII letter is never a heading, so a bullet line never is |
| DocumentFormatter.PushLine | src/app/mock/page.js:124-156 | one callback run keeps what was pushed before and adds one or two blocks; it adds two exactly when it opens or closes a list, and leaves the flag set exactly for an item |
| DocumentFormatter.FormatFrom | src/app/mock/page.js:121-162 | formatting keeps what was pushed before and adds at least one block per line |
| DocumentFormatter.FormatLine | src/app/mock/page.js:122-156 | one callback run closes or opens the list as the line's kind requires, pushes the line's block, and sets the flag as `PushLine` says |
| DocumentFormatter.FormatLines | src/app/mock/page.js:118-162 | the loop followed by the final close produces what `FormatFrom` produces from an empty array and a closed list |
| DocumentFormatter.FormatResume | src/app/mock/page.js:115-165 | `formatResume` is the formatting of the non-blank lines of the text |
| DocumentFormatter.PushLineBracketed | src/app/mock/page.js:124-156 | each pushed line keeps every block at the depth its kind calls for, and the flag says whether a list is open |
| DocumentFormatter.FormatFromBracketed | src/app/mock/page.js:121-162 | formatting from a state where the flag matches the depth ends well bracketed |
| DocumentFormatter.FormatIsWellBracketed | src/app/mock/page.js:115-165 | for every text, lists open only outside a list and close only inside one. Items stand only inside a list, headings and paragraphs only outside, and nothing is left open |
| DocumentFormatter.PushLineFits | src/app/mock/page.js:124-156 | each callback run keeps every block fitting the one before it, and leaves the last block an item exactly when the flag is set |
| DocumentFormatter.FormatFromFits | src/app/mock/page.js:121-162 | formatting keeps every block fitting the one before it and never ends on an open list |
| DocumentFormatter.ListBoundaries | src/app/mock/page.js:115-165 | a list opens at the start or right after a heading or paragraph, and right before an item, so consecutive items share one open. It closes right after an item and right before a heading or paragraph, or at the end |
| DocumentFormatter.ListsNeverNest | src/app/mock/page.js:139-141 | in well-bracketed output the list depth is always 0 or 1 |
| DocumentFormatter.ListOpenIsClosed | src/app/mock/page.js:126-161 | every `ListOpen` is followed, past items only, by a `ListClose` |
| DocumentFormatter.ItemIsEnclosed | src/app/mock/page.js:137-161 | every item lies between a `ListOpen` and the `ListClose` that matches it, with only items between them |
| DocumentFormatter.PushLineContents | src/app/mock/page.js:130-155 | with the brackets dropped, one callback run adds exactly its line's block |
| DocumentFormatter.FormatFromContents | src/app/mock/page.js:121-162 | with the brackets dropped, formatting appends the classified lines in order and nothing else |
| DocumentFormatter.FormatContents | src/app/mock/page.js:116-162 | the headings, items and paragraphs of the output are the non-blank lines of the text, one each and in order, each classified on its own |
| DocumentFormatter.BlankTextFormatsToNothing | src/app/mock/page.js:116 | a text with no visible character, the empty text among them, formats to no block |
| DocumentFormatter.ClassifyIsCanonical | src/app/mock/page.js:122-155 | every line the formatter classifies gives trimmed, newline-free text of the shape its kind requires |
| DocumentFormatter.RenderThenClassify | src/app/mock/page.js:122-155 | a heading or paragraph written back as its text, or an item written back after `"- "`, is classified again as the same line |
| DocumentFormatter.FormatRoundTrip | src/app/mock/page.js:116-162 | writing the output back as lines (brackets dropped) and formatting them again gives the same blocks |
| DocumentFormatter.IndentationIgnored | src/app/mock/page.js:122 | indentation before a line does not change how it is classified |
| DocumentFormatter.SectionPrefixIsHeading | src/app/mock/page.js:124 | `Skillset` is a heading with its whole text, since the test is a prefix test |
| DocumentFormatter.CapitalHeading | src/app/mock/page.js:124 | the heading test ignores case, and `EDUCATION:` is a heading that keeps its colon |
| DocumentFormatter.ClassifyBulletLine | src/app/mock/page.js:137-144 | a line whose trimmed text starts with a bullet is an item, whatever follows the bullet |
| DocumentFormatter.BareBulletIsEmptyItem | src/app/mock/page.js:144 | a bare `-` line is an item with empty text |
| DocumentFormatter.HeadingListParagraph | src/app/mock/page.js:124-161 | a heading, two items and a paragraph give the heading, one list bracketing both items, and the paragraph |
| DocumentFormatter.SkillsExample | src/app/mock/page.js:115-165 | `"Skills\n- Python\n- Go\nSome paragraph."` gives `Heading("Skills")`, `ListOpen`, `ListItem("Python")`, `ListItem("Go")`, `ListClose`, `Paragraph("Some paragraph.")` |

## Left out

- The calls to the Gemini model, the Tesseract OCR of the uploaded image and the html2pdf export are left out. They are network calls, foreign libraries and DOM access; the parser takes the model's text as its input.
- The React state, the event handlers and the JSX details are left out: keys, class names, the `<hr>` under a heading, and render conditions. Only the element kinds and their texts are kept.
- The prompt templates are left out. They are fixed text with no behaviour; the lemmas about a response in the prompt's order state what the parser does with text laid out as those templates ask.
- The `console.error` logging in the `catch` is left out.
- ParseGeminiResponse: the only fault modelled is a response that is not a string, where `.match` throws. For a string, none of the calls in the `try` block can throw.
- Strings are sequences of code points. A lone surrogate, which a JavaScript string can hold, has no counterpart, and the `u`-less regexes are read as acting on whole characters.
