# BlogEditor core in Dafny

A model of the logic inside BlogEditor, a React markdown editor, with proofs about it. It covers five parts:

- **Live statistics.** The editor page shows three numbers: the word count (`content.trim().split(/\s+/).filter(Boolean).length`), the character count (`content.length`) and the reading time (`Math.ceil(words / 200)`). The publish page computes a second reading time without the filter.
- **`handleInsert`.** A toolbar click rebuilds the buffer around the textarea's selection, using the tool's syntax string and placeholder. It then moves the selection onto the inserted text through the `selectionStart` and `selectionEnd` setters.
- **The `blog-draft` slot of `localStorage`.** The editor restores the draft when it mounts. An edit re-arms a 500 ms timer that writes the draft. Save and Publish write it at once. The publish page reads the draft back, with defaults.
- **`exportPDF`.** It places a three-line header and then the wrapped content lines, starting a new page when the cursor has passed y = 280. It names the file after the title, keeping ASCII letters and digits and replacing every other UTF-16 code unit by `_` (so `é` becomes one `_` and a character outside the Basic Multilingual Plane becomes two).
- **The toolbar table.** Six tools, each passing `(syntax, placeholder)` on a click.

JavaScript strings are sequences of UTF-16 code units (`JsText.JsString`). `length`, `substring`, textarea offsets and the non-`u` regular expressions all count code units. The string built-ins the code calls are defined in `JsText`: `trim`, `split(/\s+/)`, `filter(Boolean)`, `includes`, `endsWith`, `replace` with a string pattern and `$`-substitution, and `String(n)`.

Modules:

- `JsText` (js_text.dfy): strings and their built-ins.
- `Stats` (stats.dfy): the two statistics formulas and the proof that the word count is the number of maximal non-whitespace runs.
- `Insertion` (insertion.dfy): the buffer `handleInsert` builds, as a function, and the DOM textarea, as a class whose setters clamp as HTML specifies.
- `Drafts` (drafts.dfy): the stored slot, the two loaders, and the autosave as a pure state machine (`Session`, `Step`, `Run`).
- `Editor` (editor.dfy): the editor page as a class. Its fields are React state, and its methods are the effects and handlers. Each method is proved to move the page's `Model()` exactly as `Drafts.Step` does.
- `PdfExport` (pdf_export.dfy): `exportPDF` as a loop over the lines, proved against closed-form page and height functions.
- `Toolbar` (toolbar.dfy): the tool table and what each entry does when clicked.

Notes on behaviour the model keeps as written:

- **Block branch.** The block branch replaces `"code here"` in the syntax. The Code tool's syntax ```` "```\n" ```` does not contain it (only the placeholder does), so the Code button inserts a bare ```` ``` ```` line and drops the selected or placeholder text. The selection it then asks for can run past the end of the new buffer, and the textarea clamps it (`Toolbar.CodeToolDropsText`, `Toolbar.CodeToolSelectionOverruns`).
- **Two reading times.** The publish page does not filter empty pieces. Empty or all-whitespace content therefore reads as 1 minute there and 0 minutes in the editor (`Stats.PublishReadingTimeAgrees`).
- **Pagination.** The first content line goes at y = 55, under the header, and a new page starts only once the cursor has passed 280. So the first page holds 33 lines (y = 55 to 279) and every later page 38 (y = 20 to 279).
- **Autosave writes.** A burst of edits followed by the timer writes at most once, and what it writes is the last edit. The write happens exactly when a timer was already armed (after the mount, or after an earlier change) or some edit of the burst differs from the starting document, even if the burst ends where it started. Only a burst of edits that each set a field to the value it already has, with no timer armed, writes nothing: such an edit does not re-run the effect.

## Model

| member | source | states |
|---|---|---|
| JsText.LiteralIsUtf16 | src/components/MarkdownToolbar.tsx:10-15 | a string literal of the source, one code unit per character, is the UTF-16 encoding of its text |
| JsText.Trim | src/pages/Index.tsx:46 | `trim()` returns a slice of the input with only whitespace cut from both ends; it neither starts nor ends with whitespace; it is empty exactly when the input is all whitespace |
| JsText.SplitOnSpaces | src/pages/Index.tsx:46 | `split(/\s+/)` yields at least one piece and no piece holds whitespace; the first piece is empty exactly when the input is empty or starts with whitespace |
| JsText.DropEmpty | src/pages/Index.tsx:46 | `filter(Boolean)` keeps only non-empty pieces, each taken from the input, and keeps them all when none is empty |
| JsText.DropEmptyCounts | src/pages/Index.tsx:46 | `filter(Boolean)` removes every empty piece and keeps every non-empty piece as many times as it occurs (equal multisets once `""` is removed) |
| JsText.DropEmptyAppend | src/pages/Index.tsx:46 | `filter(Boolean)` works piece by piece and keeps the order: filtering a concatenation is the concatenation of the filtered parts |
| JsText.IndexFrom | src/pages/Index.tsx:72 | the search returns the first match at or after the start offset, with no match before it; `None` means there is no match at all |
| JsText.IncludesUnit | src/pages/Index.tsx:71 | `includes` of a one-unit string is membership of that unit |
| JsText.Substitution | src/pages/Index.tsx:72 | a replacement without `$` is inserted unchanged |
| JsText.ReplaceFirst | src/pages/Index.tsx:72 | `replace` with a string pattern leaves the string unchanged when the pattern does not occur, and otherwise replaces its first occurrence only |
| JsText.Decimal | src/pages/Publish.tsx:53 | `String(n)` is a non-empty string of digits with no leading zero |
| JsText.DecimalRoundTrip | src/pages/Publish.tsx:53 | reading the digits of `String(n)` back gives `n` |
| JsText.DecimalInjective | src/pages/Publish.tsx:53 | different reading times print differently in the "N min read" line |
| Stats.WordCount | src/pages/Index.tsx:46 | the editor's word count is the number of maximal non-whitespace runs of the content, and it is 0 exactly when the content is empty or all whitespace |
| Stats.TrimmedPiecesAreWordRuns | src/pages/Index.tsx:46 | trimming, splitting on whitespace runs and dropping empty pieces counts the word runs of the untrimmed content |
| Stats.CharCountOfText | src/pages/Index.tsx:48 | the character count is the raw length in code units, with no trimming: every character outside the Basic Multilingual Plane counts twice |
| Stats.ReadingTime | src/pages/Index.tsx:49 | `Math.ceil(words / 200)` is 0 exactly for 0 words, and otherwise `(m - 1) * 200 < words <= m * 200` |
| Stats.PublishReadingTime | src/pages/Publish.tsx:25-26 | the publish page's reading time is never below 1 minute |
| Stats.PublishPiecesAreSpaceRuns | src/pages/Publish.tsx:25 | the unfiltered split of the trimmed content has one piece more than the content has whitespace runs between words |
| Stats.PublishReadingTimeAgrees | src/pages/Publish.tsx:25-26 | the publish page's reading time equals the editor's, except on empty or all-whitespace content, where it is 1 and the editor's is 0 |
| Drafts.EditorLoad | src/pages/Index.tsx:35-43 | restoring the draft fails exactly when the stored text is not JSON; with no draft the document stays empty; from a JSON draft each field is the stored string when present and `""` when missing |
| Drafts.Serialize | src/pages/Index.tsx:52-55 | the record written to the slot loads back as the same title, content and cover image |
| Drafts.PublishLoad | src/pages/Publish.tsx:17-38 | with no draft the page stays empty; a non-JSON draft is an error; a draft without content is an error (`trim` of `undefined`); otherwise the title is the stored one, or "Untitled Post" when it is missing or empty; the content is the stored one; the cover image is the stored one or `""`; the reading time is the publish page's formula on that content and at least 1; and the date is today's |
| Drafts.PublishAfterSave | src/pages/Publish.tsx:21-26 | a draft the editor saved shows its own fields on the publish page, except that an empty title becomes "Untitled Post" |
| Drafts.Mount | src/pages/Index.tsx:35-59 | mounting the editor fails exactly on a non-JSON draft; otherwise the document is the one `Drafts.EditorLoad` restores, the slot is untouched and a timer is armed with that document |
| Drafts.Step | src/pages/Index.tsx:51-58 | every event keeps the armed timer holding the current document |
| Drafts.Run | src/pages/Index.tsx:51-58 | any sequence of events keeps the armed timer holding the current document |
| Drafts.RunAppend | src/pages/Index.tsx:51-58 | running two event sequences one after the other is running their concatenation |
| Drafts.BurstWritesNothing | src/pages/Index.tsx:51-58 | a burst of edits writes nothing; the document ends as the last edit; once the document has changed, a timer is armed with it; a timer is armed at the end exactly when one was armed before or some edit differs from the starting document |
| Drafts.Coalescing | src/pages/Index.tsx:51-58 | a burst of edits followed by the timer writes at most once and only the last edit, and no timer stays armed; the write happens exactly when a timer was armed before the burst or some edit differed from the starting document, and otherwise the slot is untouched |
| Drafts.SaveThenLoad | src/pages/Index.tsx:87-91 | Save (and Publish) overwrite the single slot at once with the current document, and loading the slot gives that document back |
| Editor.Storage.constructor | src/pages/Index.tsx:36 | the storage starts out holding the given slot |
| Editor.EditorPage.Mounted | src/pages/Index.tsx:35-59 | after the first render's effects, the page shows the restored draft and its statistics, and a timer is armed with it |
| Editor.EditorPage.Change | src/pages/Index.tsx:45-58 | a new title, content or cover image recomputes the statistics and re-arms the timer with the new values, exactly as `Drafts.Step` does for an edit; when the content is unchanged the textarea's selection stays where it was |
| Editor.EditorPage.SetTitle | src/pages/Index.tsx:27 | `setTitle` is an edit of the title alone and leaves the textarea's selection where it was |
| Editor.EditorPage.SetContent | src/pages/Index.tsx:28 | `setContent` is an edit of the content alone; setting the content to its current value leaves the textarea's selection where it was |
| Editor.EditorPage.SetCoverImage | src/pages/Index.tsx:29 | `setCoverImage` is an edit of the cover image alone and leaves the textarea's selection where it was |
| Editor.EditorPage.TimerFires | src/pages/Index.tsx:51-56 | the timer writes the values it captured and disarms |
| Editor.EditorPage.HandleSave | src/pages/Index.tsx:87-93 | Save writes the current document at once and leaves the timer armed |
| Editor.EditorPage.HandlePublish | src/pages/Index.tsx:106-112 | Publish writes the current document at once; leaving the page cancels the timer |
| Editor.EditorPage.HandleInsert | src/pages/Index.tsx:61-85 | without a textarea nothing changes; otherwise the content becomes the buffer `Insertion.Insert` builds from the current selection, and the selection becomes the requested range clamped to the new buffer |
| Editor.LiveStats | src/pages/Index.tsx:45-49 | the statistics effect yields the word runs (0 exactly for blank content), the code-unit length, and a reading time that is 0 exactly for blank content |
| Editor.Open | src/pages/Index.tsx:35-43 | opening the editor fails exactly when the stored draft is not JSON; otherwise the page's state is `Drafts.Mount` of the slot |
| Editor.InsertAndSelect | src/pages/Index.tsx:73-83 | after a prefix or wrap click, the textarea's selection covers exactly the inserted text |
| Insertion.ShapeOfUnits | src/pages/Index.tsx:71-73 | the block branch is taken exactly when the syntax holds a newline, the prefix branch exactly when it holds none and ends in a space |
| Insertion.ShapeOfMeaning | src/pages/Index.tsx:71-73 | the branch is decided by `syntax.includes("\n")` first and by `syntax.endsWith(" ")` second |
| Insertion.InsertedText | src/pages/Index.tsx:68 | the inserted text is the selected text if non-empty, else the placeholder, else `""` |
| Insertion.InlineMiddle | src/pages/Index.tsx:73-76 | in the prefix and wrap branches what replaces the selection starts with the syntax followed by the text; the prefix branch adds nothing more, and the wrap branch adds exactly one more copy of the syntax |
| Insertion.BlockMiddle | src/pages/Index.tsx:71-72 | in the block branch the text takes the place of the first `code here` of the syntax when it has no `$` pattern, and a syntax without `code here` is inserted unchanged |
| Insertion.Insert | src/pages/Index.tsx:70-83 | the new buffer is the content before the selection, the middle, and the content after it, so nothing outside the selection changes; the requested selection starts after the syntax and spans the inserted text's length |
| Insertion.MiddleInPlace | src/pages/Index.tsx:72-76 | the middle sits exactly where the selection was, and the new length is the old one minus the selection plus the middle |
| Insertion.PrefixSelects | src/pages/Index.tsx:73-83 | in the prefix branch the requested selection lies in the new buffer, right after the syntax, and covers exactly the inserted text |
| Insertion.WrapSelects | src/pages/Index.tsx:75-83 | in the wrap branch the requested selection lies in the new buffer, right after the syntax, and covers exactly the inserted text |
| Insertion.WrapClosesSelection | src/pages/Index.tsx:76 | in the wrap branch the second copy of the syntax follows the selection |
| Insertion.InsertSelectsInsertedText | src/pages/Index.tsx:73-83 | in the prefix and wrap branches the requested selection lies in the new buffer and covers exactly the inserted text |
| Insertion.BlockWithoutCodeHereDropsText | src/pages/Index.tsx:72-83 | a block syntax without `code here` is inserted verbatim and the text is dropped; the selection end overruns the buffer exactly when the text is longer than what follows the selection |
| Insertion.ClampRange | src/pages/Index.tsx:82-83 | the selection stays inside the buffer with its start not after its end; a range already inside is kept; an end past the buffer goes to the end |
| Insertion.Textarea.Showing | src/pages/Index.tsx:62 | a textarea showing a text has its caret at the end |
| Insertion.Textarea.SetValue | src/pages/Index.tsx:79 | a changed value moves the caret to its end; setting the same value keeps the selection |
| Insertion.Textarea.SetRange | src/pages/Index.tsx:82-83 | setting a range keeps the value and stores the range clamped to it |
| Insertion.Textarea.SetSelectionStart | src/pages/Index.tsx:82 | the `selectionStart` setter also moves the end up to the new start when the end was before it |
| Insertion.Textarea.SetSelectionEnd | src/pages/Index.tsx:83 | the `selectionEnd` setter keeps the start and clamps |
| Insertion.SelectionAfterSetters | src/pages/Index.tsx:82-83 | the two setters in sequence give the requested range with each end clamped to the buffer |
| Toolbar.LabelsDistinct | src/components/MarkdownToolbar.tsx:9-16 | there are six tools and their labels are pairwise distinct |
| Toolbar.EmphasisWraps | src/components/MarkdownToolbar.tsx:10-11 | Bold and Italic take the wrap branch |
| Toolbar.MarkersPrefix | src/components/MarkdownToolbar.tsx:12-14 | H1, H2 and List take the prefix branch |
| Toolbar.CodeIsBlock | src/components/MarkdownToolbar.tsx:15 | Code takes the block branch |
| Toolbar.ToolShapes | src/components/MarkdownToolbar.tsx:9-16 | the `prefix` flag marks exactly the prefix-branch tools, the `multiline` flag exactly the block-branch tool, and Code alone is a block |
| Toolbar.ClickInsertsText | src/components/MarkdownToolbar.tsx:10-15 | every placeholder is non-empty, so a click never inserts empty text, and with no selection it inserts the placeholder |
| Toolbar.CodeToolDropsText | src/components/MarkdownToolbar.tsx:15 | the Code syntax lacks `code here`, so a Code click inserts "```" and a newline in place of the selection and drops the text |
| Toolbar.CodeToolSelectionOverruns | src/components/MarkdownToolbar.tsx:15 | on an empty buffer a Code click asks for the selection [4, 17) of a four-unit buffer |
| Toolbar.BoldOnEmptySelection | src/components/MarkdownToolbar.tsx:10 | Bold with an empty selection inserts `**bold text**` at the caret and selects `bold text` |
| PdfExport.Header | src/pages/Publish.tsx:43-54 | the header draws the title, the date and "N min read" in that order, top to bottom, above y = 55 |
| PdfExport.PageStarts | src/pages/Publish.tsx:54-63 | the first content line of the first page is drawn at y = 55, and that of every later page at y = 20 |
| PdfExport.LinesStayOnPage | src/pages/Publish.tsx:59-65 | every content line is drawn at 20 <= y < 280, and at y >= 55 on the first page |
| PdfExport.NextLine | src/pages/Publish.tsx:60-65 | after a line, the next goes one line height down on the same page, or, once the cursor has passed 280, to y = 20 on the next page |
| PdfExport.SlotFits | src/pages/Publish.tsx:59-66 | each content line fits on its page: the first page holds the header and at most 33 lines, every later page at most 38 |
| PdfExport.PageCountClosedForm | src/pages/Publish.tsx:59-66 | `n` lines need one page up to 33 lines, and one more page per started block of 38 after that |
| PdfExport.Placements | src/pages/Publish.tsx:64 | one `pdf.text` call per content line |
| PdfExport.Sanitize | src/pages/Publish.tsx:68 | the stem has the title's length, keeps ASCII letters and digits and turns every other code unit into `_` |
| PdfExport.PdfFileName | src/pages/Publish.tsx:68 | the file name is the title with each ASCII letter and digit kept in place and every other code unit replaced by `_`, followed by ".pdf" |
| PdfExport.SanitizeIdempotent | src/pages/Publish.tsx:68 | sanitizing twice is sanitizing once, and a title is kept as it is exactly when it holds only letters, digits and `_` |
| PdfExport.CursorSteps | src/pages/Publish.tsx:60-65 | a line goes to the top of a new page exactly when the cursor has passed 280, and the cursor then stands one line below it |
| PdfExport.LayNext | src/pages/Publish.tsx:59-66 | drawing one more line, after a page break if due, keeps every page but the last full and every line in its place |
| PdfExport.DrawNext | src/pages/Publish.tsx:59-66 | one more line keeps the header first and the drawing order equal to the header and the lines so far |
| PdfExport.DrawLine | src/pages/Publish.tsx:59-66 | the `forEach` callback for one line adds a page when the cursor has passed 280, draws the line at the cursor and moves the cursor one line down |
| PdfExport.DrawPages | src/pages/Publish.tsx:41-66 | after the header and the loop, all lines are drawn in order and laid out on their pages |
| PdfExport.ExportPdf | src/pages/Publish.tsx:40-68 | the calls, page by page, are the header then every line exactly once and in order; line k is on page `PageOf(k)` at height `YOf(k)`; every page but the last is full and the last is neither empty nor over capacity; the file is named by `PdfFileName` |

## Left out

- Rendering is not modelled: JSX, the markdown preview (ReactMarkdown, remark-gfm), the resizable panels and the fullscreen toggle. The fullscreen and split layouts each render a textarea on the same ref, and the model has one textarea.
- jsPDF itself is not modelled. Font sizes and colours are left out, and `addPage` is a new empty page.
- `splitTextToSize` is a foreign line breaker, so `PdfExport.ExportPdf` takes the lines as input.
- `handleDownload` (src/pages/Index.tsx:95-104), navigation, routing (src/App.tsx) and toasts are browser I/O and are left out. src/components/ThemeSwitcher.tsx and src/components/EditorStats.tsx are not part of this model: they hold no logic.
- Timers are abstract. The 500 ms timer is an event (`Drafts.TimerFired`), so timing is not modelled. The `setTimeout(…, 0)` in `handleInsert` is modelled as running right after the re-render. `textarea.focus()` is left out.
- `toLocaleDateString` with its time zone is a clock reading: the formatted date is a parameter of `Drafts.PublishLoad`.
- JSON is modelled as storing the record itself. Stored text is either an object whose three properties are strings or missing, or text `JSON.parse` rejects. Property values of other types, and JSON values that are not objects, are not modelled.
- An empty stored string behaves like no draft (`if (draft)` skips it) and is represented by `None`.
- JsText.Decimal: prints every non-negative integer in plain digits. JavaScript switches to exponent notation from 10^21, which no reading time of a real string reaches.
- JsText.ReplaceFirst: its contract gives the result in closed form only for replacements without `$`. The `$` patterns are defined in `JsText.Substitution` but not described by a contract.
- Stats.CountPieces, Stats.CharCount and the PDF layout functions (`PageOf`, `RowOf`, `YOf`, `SlotOf`, `Capacity`, `PageCount`) carry no contract of their own. Their meaning is stated by the lemmas about them in the table.
- `localStorage.getItem` and `setItem` are assumed to succeed. The source does not catch their exceptions (src/pages/Index.tsx:36, 52-55, 88-91, 107-110 and src/pages/Publish.tsx:18), and a `SecurityError` from a blocked storage or a `QuotaExceededError` from a full one is not modelled: `Drafts.Step`, `Editor.EditorPage.TimerFires`, `Editor.EditorPage.HandleSave` and `Editor.EditorPage.HandlePublish` always write the slot.
- Editor.EditorPage methods: each requires `Valid()`. This is the page's invariant, not something the source demands of callers. Every constructor and method re-establishes it.
