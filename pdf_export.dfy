/**
 * `exportPDF` of the publish page: where the header and each wrapped line of
 * the content are drawn (page, x, y), when a new page is started, and the
 * name the file is saved under. Drawing happens through jsPDF; the model keeps
 * only the text and the coordinates of each `pdf.text` call, page by page.
 */
module PdfExport {
  import opened JsText
  import opened Drafts

  const LINE_HEIGHT: int := 7
  const MARGIN: int := 20
  /** A line is moved to a new page when the cursor has passed this height. */
  const PAGE_BOTTOM: int := 280
  /** The cursor after the header: title, twice the line height, date, line, reading time, twice the line height. */
  const CONTENT_TOP: int := 55
  /** Lines that fit under the header (y = 55, 62, ..., 279). */
  const FIRST_PAGE_LINES: nat := 33
  /** Lines that fit on a later page (y = 20, 27, ..., 279). */
  const PAGE_LINES: nat := 38
  /** `pdf.text` calls of the header: the title, the publish date and the reading time. */
  const HEADER_CALLS: nat := 3

  /** One `pdf.text(text, x, y)` call. */
  datatype Placed = Placed(text: JsString, x: int, y: int)

  type Page = seq<Placed>

  datatype Pdf = Pdf(pages: seq<Page>, fileName: JsString)

  /** The title, the publish date and "N min read", drawn at the top of the first page. */
  function Header(view: PublishView): (h: Page)
    ensures |h| == HEADER_CALLS && h[0].text == view.title && h[1].text == view.publishDate
    ensures h[2].text == Decimal(view.readingTime) + Literal(" min read")
    ensures h[0].y < h[1].y < h[2].y < CONTENT_TOP
  {
    [ Placed(view.title, MARGIN, MARGIN),
      Placed(view.publishDate, MARGIN, MARGIN + 2 * LINE_HEIGHT),
      Placed(Decimal(view.readingTime) + Literal(" min read"), MARGIN, MARGIN + 3 * LINE_HEIGHT) ]
  }

  /** The page the `k`-th content line lands on. */
  function PageOf(k: nat): nat
  {
    if k < FIRST_PAGE_LINES then 0 else 1 + (k - FIRST_PAGE_LINES) / PAGE_LINES
  }

  /** The position of the `k`-th content line among the content lines of its page. */
  function RowOf(k: nat): nat
  {
    if k < FIRST_PAGE_LINES then k else (k - FIRST_PAGE_LINES) % PAGE_LINES
  }

  /** The height the `k`-th content line is drawn at. */
  function YOf(k: nat): int
  {
    (if k < FIRST_PAGE_LINES then CONTENT_TOP else MARGIN) + LINE_HEIGHT * RowOf(k)
  }

  /** The index of the `k`-th content line among all the calls on its page (the header comes first). */
  function SlotOf(k: nat): nat
  {
    if k < FIRST_PAGE_LINES then HEADER_CALLS + k else RowOf(k)
  }

  /** How many `pdf.text` calls page `p` holds once it is full: the header and 33 lines, or 38 lines. */
  function Capacity(p: nat): nat
  {
    if p == 0 then HEADER_CALLS + FIRST_PAGE_LINES else PAGE_LINES
  }

  /** The number of pages of a document with `n` content lines. */
  function PageCount(n: nat): nat
  {
    if n == 0 then 1 else PageOf(n - 1) + 1
  }

  /** The first content line of page `p` is drawn at 55 on the first page and at 20 on the others. */
  lemma PageStarts(p: nat)
    ensures var k := if p == 0 then 0 else FIRST_PAGE_LINES + PAGE_LINES * (p - 1);
      PageOf(k) == p && RowOf(k) == 0 && YOf(k) == (if p == 0 then CONTENT_TOP else MARGIN)
  {
    if p > 0 {
      var k := FIRST_PAGE_LINES + PAGE_LINES * (p - 1);
      assert k - FIRST_PAGE_LINES == PAGE_LINES * (p - 1) + 0;
    }
  }

  /** Every content line is drawn between the top margin and the page bottom. */
  lemma LinesStayOnPage(k: nat)
    ensures MARGIN <= YOf(k) < PAGE_BOTTOM
    ensures PageOf(k) == 0 ==> CONTENT_TOP <= YOf(k)
  {
  }

  /**
   * How the cursor moves from one content line to the next: one line down on
   * the same page, or, once the cursor has passed the page bottom, to the top
   * of the next page.
   */
  lemma {:induction false} NextLine(k: nat)
    ensures YOf(k) + LINE_HEIGHT > PAGE_BOTTOM ==>
      PageOf(k + 1) == PageOf(k) + 1 && RowOf(k + 1) == 0 && YOf(k + 1) == MARGIN
    ensures YOf(k) + LINE_HEIGHT <= PAGE_BOTTOM ==>
      PageOf(k + 1) == PageOf(k) && RowOf(k + 1) == RowOf(k) + 1 && YOf(k + 1) == YOf(k) + LINE_HEIGHT
  {
    if k + 1 == FIRST_PAGE_LINES {
      assert YOf(k) == CONTENT_TOP + LINE_HEIGHT * 32;
    } else if k >= FIRST_PAGE_LINES {
      var q, r := (k - FIRST_PAGE_LINES) / PAGE_LINES, (k - FIRST_PAGE_LINES) % PAGE_LINES;
      assert k - FIRST_PAGE_LINES == PAGE_LINES * q + r && r < PAGE_LINES;
      if r + 1 == PAGE_LINES {
        assert k + 1 - FIRST_PAGE_LINES == PAGE_LINES * (q + 1) + 0;
      } else {
        assert k + 1 - FIRST_PAGE_LINES == PAGE_LINES * q + (r + 1);
      }
    }
  }

  /** Every content line fits on its page: the first page takes the header and 33 lines, a later page 38. */
  lemma SlotFits(k: nat)
    ensures SlotOf(k) < Capacity(PageOf(k))
  {
  }

  /** The first page holds up to 33 lines and every later page up to 38. */
  lemma PageCountClosedForm(n: nat)
    ensures PageCount(n) == if n <= FIRST_PAGE_LINES then 1 else 2 + (n - FIRST_PAGE_LINES - 1) / PAGE_LINES
  {
  }

  /** The calls of all pages, in drawing order. */
  function Flatten(pages: seq<Page>): (calls: seq<Placed>)
  {
    if pages == [] then [] else Flatten(pages[..|pages| - 1]) + pages[|pages| - 1]
  }

  /** Where the content lines go: line `k` at the left margin and height `YOf(k)`. */
  function Placements(lines: seq<JsString>): (calls: seq<Placed>)
    ensures |calls| == |lines|
  {
    seq(|lines|, k requires 0 <= k < |lines| => Placed(lines[k], MARGIN, YOf(k)))
  }

  /**
   * `title.replace(/[^a-z0-9]/gi, "_")`: every code unit that is not an ASCII
   * letter or digit becomes `_`. Without the `u` flag the pattern sees code
   * units, and case-insensitive matching maps no non-ASCII unit onto an ASCII
   * letter, so only ASCII letters and digits survive.
   */
  function Sanitize(title: JsString): (name: JsString)
    ensures |name| == |title|
    ensures forall i :: 0 <= i < |title| ==>
      name[i] == (if IsAsciiAlnum(title[i]) then title[i] else UNDERSCORE)
  {
    if title == [] then []
    else [if IsAsciiAlnum(title[0]) then title[0] else UNDERSCORE] + Sanitize(title[1..])
  }

  predicate IsAsciiAlnum(c: CodeUnit)
  {
    (0x30 <= c <= 0x39) || (0x41 <= c <= 0x5A) || (0x61 <= c <= 0x7A)
  }

  /** The name `pdf.save` is given. */
  function PdfFileName(title: JsString): (name: JsString)
    ensures |name| == |title| + 4 && EndsWith(name, Literal(".pdf"))
    ensures forall i :: 0 <= i < |title| ==> IsAsciiAlnum(name[i]) || name[i] == UNDERSCORE
    ensures forall i :: 0 <= i < |title| ==> name[i] == (if IsAsciiAlnum(title[i]) then title[i] else UNDERSCORE)
  {
    Sanitize(title) + Literal(".pdf")
  }

  /** Sanitizing a sanitized title changes nothing, and only titles made of letters, digits and `_` are kept as they are. */
  lemma SanitizeIdempotent(title: JsString)
    ensures Sanitize(Sanitize(title)) == Sanitize(title)
    ensures Sanitize(title) == title <==> forall i :: 0 <= i < |title| ==> IsAsciiAlnum(title[i]) || title[i] == UNDERSCORE
  {
    if Sanitize(title) == title {
      forall i | 0 <= i < |title|
        ensures IsAsciiAlnum(title[i]) || title[i] == UNDERSCORE
      {
        assert Sanitize(title)[i] == title[i];
      }
    }
  }

  lemma {:induction false} FlattenAppend(pages: seq<Page>, last: Page)
    ensures Flatten(pages + [last]) == Flatten(pages) + last
  {
    assert (pages + [last])[..|pages|] == pages;
  }

  /** Adding a call to the last page adds it at the end of the drawing order. */
  lemma {:induction false} FlattenExtendLast(pages: seq<Page>, c: Placed)
    requires pages != []
    ensures Flatten(pages[..|pages| - 1] + [pages[|pages| - 1] + [c]]) == Flatten(pages) + [c]
  {
    FlattenAppend(pages[..|pages| - 1], pages[|pages| - 1] + [c]);
  }

  lemma PlacementsStep(lines: seq<JsString>, i: nat)
    requires i < |lines|
    ensures Placements(lines[..i + 1]) == Placements(lines[..i]) + [Placed(lines[i], MARGIN, YOf(i))]
  {
    assert lines[..i + 1] == lines[..i] + [lines[i]];
  }

  /** Where the cursor stands before the `i`-th content line is drawn. */
  function CursorBefore(i: nat): int
  {
    if i == 0 then CONTENT_TOP else YOf(i - 1) + LINE_HEIGHT
  }

  /** Line `i` goes to the top of a new page exactly when the cursor has passed the page bottom, and to the cursor otherwise. */
  lemma CursorSteps(i: nat)
    ensures CursorBefore(i) > PAGE_BOTTOM <==> i > 0 && PageOf(i) == PageOf(i - 1) + 1
    ensures YOf(i) == if CursorBefore(i) > PAGE_BOTTOM then MARGIN else CursorBefore(i)
    ensures CursorBefore(i + 1) == YOf(i) + LINE_HEIGHT
  {
    if i > 0 {
      NextLine(i - 1);
    }
  }

  /**
   * The first `i` content lines are laid out: the pages are those of `i` lines,
   * the last page ends with line `i - 1`, and line `k` sits on page `PageOf(k)`
   * at index `SlotOf(k)`.
   */
  ghost predicate Laid(pages: seq<Page>, lines: seq<JsString>, i: nat)
    requires i <= |lines|
  {
    && |pages| == PageCount(i)
    && |pages[|pages| - 1]| == (if i == 0 then HEADER_CALLS else SlotOf(i - 1) + 1)
    && (forall p :: 0 <= p < |pages| - 1 ==> |pages[p]| == Capacity(p))
    && forall k :: 0 <= k < i ==>
         SlotOf(k) < |pages[PageOf(k)]| && pages[PageOf(k)][SlotOf(k)] == Placed(lines[k], MARGIN, YOf(k))
  }

  /** Drawing the next line, after starting a new page if the cursor has passed the bottom, gives the pages of `i + 1` lines. */
  lemma LayShape(before: seq<Page>, started: seq<Page>, after: seq<Page>, lines: seq<JsString>, i: nat)
    requires i < |lines| && Laid(before, lines, i)
    requires started == if CursorBefore(i) > PAGE_BOTTOM then before + [[]] else before
    requires after == started[..|started| - 1] + [started[|started| - 1] + [Placed(lines[i], MARGIN, YOf(i))]]
    ensures |after| == PageCount(i + 1) && |after[|after| - 1]| == SlotOf(i) + 1
    ensures forall p :: 0 <= p < |after| - 1 ==> |after[p]| == Capacity(p)
  {
    var n := |started| - 1;
    CursorSteps(i);
    if i > 0 {
      NextLine(i - 1);
    }
    assert PageOf(i) == n && SlotOf(i) == |started[n]|;
    assert n > 0 && started == before + [[]] ==> |before[n - 1]| == Capacity(n - 1);
    assert forall p :: 0 <= p < n ==> after[p] == started[p];
  }

  /** Drawing the next line keeps every line drawn so far in its place. */
  lemma LayKeeps(before: seq<Page>, started: seq<Page>, after: seq<Page>, lines: seq<JsString>, i: nat)
    requires i < |lines| && Laid(before, lines, i)
    requires started == if CursorBefore(i) > PAGE_BOTTOM then before + [[]] else before
    requires after == started[..|started| - 1] + [started[|started| - 1] + [Placed(lines[i], MARGIN, YOf(i))]]
    ensures forall k :: 0 <= k < i ==>
      SlotOf(k) < |after[PageOf(k)]| && after[PageOf(k)][SlotOf(k)] == Placed(lines[k], MARGIN, YOf(k))
  {
    var n := |started| - 1;
    assert after[n] == started[n] + [Placed(lines[i], MARGIN, YOf(i))];
    forall k | 0 <= k < i
      ensures SlotOf(k) < |after[PageOf(k)]| && after[PageOf(k)][SlotOf(k)] == Placed(lines[k], MARGIN, YOf(k))
    {
      var p := PageOf(k);
      assert p < |before| && started[p] == before[p];
      assert p < n ==> after[p] == started[p];
    }
  }

  /** The next line lands on page `PageOf(i)` at index `SlotOf(i)`. */
  lemma LayPlaces(before: seq<Page>, started: seq<Page>, after: seq<Page>, lines: seq<JsString>, i: nat)
    requires i < |lines| && Laid(before, lines, i)
    requires started == if CursorBefore(i) > PAGE_BOTTOM then before + [[]] else before
    requires after == started[..|started| - 1] + [started[|started| - 1] + [Placed(lines[i], MARGIN, YOf(i))]]
    ensures SlotOf(i) < |after[PageOf(i)]| && after[PageOf(i)][SlotOf(i)] == Placed(lines[i], MARGIN, YOf(i))
  {
    var n := |started| - 1;
    CursorSteps(i);
    if i > 0 {
      NextLine(i - 1);
    }
    assert PageOf(i) == n && SlotOf(i) == |started[n]|;
    assert after[n] == started[n] + [Placed(lines[i], MARGIN, YOf(i))];
  }

  lemma LayNext(before: seq<Page>, started: seq<Page>, after: seq<Page>, lines: seq<JsString>, i: nat)
    requires i < |lines| && Laid(before, lines, i)
    requires started == if CursorBefore(i) > PAGE_BOTTOM then before + [[]] else before
    requires after == started[..|started| - 1] + [started[|started| - 1] + [Placed(lines[i], MARGIN, YOf(i))]]
    ensures Laid(after, lines, i + 1)
  {
    LayShape(before, started, after, lines, i);
    LayKeeps(before, started, after, lines, i);
    LayPlaces(before, started, after, lines, i);
  }

  /** The header alone: no content line is drawn yet. */
  lemma DrawnHeader(view: PublishView, lines: seq<JsString>)
    ensures Drawn(view, lines, 0, [Header(view)])
  {
    assert Flatten([Header(view)]) == Flatten([]) + Header(view);
    assert lines[..0] == [];
  }

  /** The header and the first `i` content lines are drawn, in order and laid out on their pages. */
  ghost predicate Drawn(view: PublishView, lines: seq<JsString>, i: nat, pages: seq<Page>)
    requires i <= |lines|
  {
    && |pages| >= 1 && |pages[0]| >= HEADER_CALLS && pages[0][..HEADER_CALLS] == Header(view)
    && Flatten(pages) == Header(view) + Placements(lines[..i])
    && Laid(pages, lines, i)
  }

  /** One step of the drawing loop keeps the drawing order, the header and the layout. */
  lemma DrawNext(view: PublishView, before: seq<Page>, started: seq<Page>, after: seq<Page>, lines: seq<JsString>, i: nat)
    requires i < |lines| && Drawn(view, lines, i, before)
    requires started == if CursorBefore(i) > PAGE_BOTTOM then before + [[]] else before
    requires after == started[..|started| - 1] + [started[|started| - 1] + [Placed(lines[i], MARGIN, YOf(i))]]
    ensures Drawn(view, lines, i + 1, after)
  {
    LayNext(before, started, after, lines, i);
    var c := Placed(lines[i], MARGIN, YOf(i));
    FlattenAppend(before, []);
    assert Flatten(started) == Flatten(before);
    FlattenExtendLast(started, c);
    PlacementsStep(lines, i);
    assert Flatten(after) == Header(view) + Placements(lines[..i]) + [c];
    assert after[0][..HEADER_CALLS] == started[0][..HEADER_CALLS] == before[0][..HEADER_CALLS];
  }

  /** Once every line is drawn, the pages are as `exportPDF` promises. */
  lemma DrawnAll(view: PublishView, lines: seq<JsString>, pages: seq<Page>)
    requires Drawn(view, lines, |lines|, pages)
    ensures Flatten(pages) == Header(view) + Placements(lines)
    ensures |pages| == PageCount(|lines|)
    ensures forall k :: 0 <= k < |lines| ==>
      SlotOf(k) < |pages[PageOf(k)]| && pages[PageOf(k)][SlotOf(k)] == Placed(lines[k], MARGIN, YOf(k))
    ensures forall p :: 0 <= p < |pages| - 1 ==> |pages[p]| == Capacity(p)
    ensures 0 < |pages[|pages| - 1]| <= Capacity(|pages| - 1)
    ensures |pages[0]| >= HEADER_CALLS && pages[0][..HEADER_CALLS] == Header(view)
  {
    assert lines[..|lines|] == lines;
    if lines != [] {
      SlotFits(|lines| - 1);
    }
  }

  /**
   * The `forEach` callback for line `i`: a new page when the cursor has passed
   * the page bottom, the line at the cursor, and the cursor one line down.
   */
  method DrawLine(view: PublishView, lines: seq<JsString>, i: nat, pages: seq<Page>, y: int)
    returns (pages': seq<Page>, y': int)
    requires i < |lines| && Drawn(view, lines, i, pages) && y == CursorBefore(i)
    ensures Drawn(view, lines, i + 1, pages') && y' == CursorBefore(i + 1)
  {
    CursorSteps(i);
    pages', y' := pages, y;
    if y' > PAGE_BOTTOM {
      pages' := pages' + [[]];
      y' := MARGIN;
    }
    ghost var started := pages';
    pages' := pages'[..|pages'| - 1] + [pages'[|pages'| - 1] + [Placed(lines[i], MARGIN, y')]];
    DrawNext(view, pages, started, pages', lines, i);
    y' := y' + LINE_HEIGHT;
  }

  /** The header, then the `forEach` over the lines. */
  method DrawPages(view: PublishView, lines: seq<JsString>) returns (pages: seq<Page>)
    ensures Drawn(view, lines, |lines|, pages)
  {
    pages := [Header(view)];
    var y := CONTENT_TOP;
    var i := 0;
    DrawnHeader(view, lines);
    while i < |lines|
      invariant i <= |lines|
      invariant Drawn(view, lines, i, pages)
      invariant y == CursorBefore(i)
    {
      pages, y := DrawLine(view, lines, i, pages, y);
      i := i + 1;
    }
  }

  /**
   * `exportPDF` for the lines `pdf.splitTextToSize(content, 170)` returns: the
   * header, then every line in order at its height, a new page started exactly
   * when a line would fall below the page bottom; the file is named after the title.
   */
  method ExportPdf(view: PublishView, lines: seq<JsString>) returns (pdf: Pdf)
    ensures Flatten(pdf.pages) == Header(view) + Placements(lines)
    ensures |pdf.pages| == PageCount(|lines|)
    ensures forall k :: 0 <= k < |lines| ==>
      SlotOf(k) < |pdf.pages[PageOf(k)]| && pdf.pages[PageOf(k)][SlotOf(k)] == Placed(lines[k], MARGIN, YOf(k))
    ensures forall p :: 0 <= p < |pdf.pages| - 1 ==> |pdf.pages[p]| == Capacity(p)
    ensures 0 < |pdf.pages[|pdf.pages| - 1]| <= Capacity(|pdf.pages| - 1)
    ensures |pdf.pages[0]| >= HEADER_CALLS && pdf.pages[0][..HEADER_CALLS] == Header(view)
    ensures pdf.fileName == PdfFileName(view.title)
  {
    var pages := DrawPages(view, lines);
    DrawnAll(view, lines, pages);
    pdf := Pdf(pages, PdfFileName(view.title));
  }
}
