/** The Word document the page loop builds, as the list of python-docx calls it
    makes: one title heading, an Arabic-formatted paragraph per kept line, and page
    breaks. Arabic shaping and bidi reordering are the parameter `visual`. */
module DocModel {
  import opened OcrLines

  datatype Alignment = Left | Center | Right | Justify

  /** The paragraph and run formatting values the code assigns, as assigned; how
      python-docx stores them is not modelled. Line spacing is a multiple of single
      spacing, in hundredths (1.15 is 115). */
  datatype ParagraphFormat = ParagraphFormat(
    rightToLeft: bool,
    alignment: Alignment,
    lineSpacingPercent: nat,
    fontSizePt: nat,
    fontName: string)

  /** The formatting `add_arabic_paragraph` gives every paragraph. */
  const ArabicFormat := ParagraphFormat(true, Right, 115, 12, "Arabic Typesetting")

  /** One call on the document: `add_heading`, `add_paragraph` (with its format) or
      `add_page_break`. */
  datatype Op =
    | Heading(text: string, level: nat)
    | Paragraph(text: string, format: ParagraphFormat)
    | PageBreak

  function TitleHeading(fileName: string): Op {
    Heading("Extracted from: " + fileName, 1)
  }

  /** `add_arabic_paragraph`: the line after shaping and reordering, formatted. */
  function ArabicParagraph(line: string, visual: string -> string): Op {
    Paragraph(visual(line), ArabicFormat)
  }

  function LineParagraphs(lines: seq<string>, visual: string -> string): seq<Op> {
    seq(|lines|, i requires 0 <= i < |lines| => ArabicParagraph(lines[i], visual))
  }

  /** What processing page `pageNum` of `pageCount` adds: only a page whose text is
      non-empty adds anything, namely its paragraphs and, unless it is the last page,
      a break. */
  function PageOps(pageNum: nat, pageCount: nat, page: Page, visual: string -> string): seq<Op> {
    if HasText(page) then
      LineParagraphs(page.lines, visual) + (if pageNum < pageCount then [PageBreak] else [])
    else
      []
  }

  /** The operations for the pages `pages`, numbered from 1, of a document of
      `pageCount` pages. */
  function PagesOps(pages: seq<Page>, pageCount: nat, visual: string -> string): seq<Op> {
    if pages == [] then []
    else PagesOps(pages[..|pages| - 1], pageCount, visual) + PageOps(|pages|, pageCount, pages[|pages| - 1], visual)
  }

  /** The whole document for the given pages. */
  function BuildDocument(fileName: string, pages: seq<Page>, visual: string -> string): seq<Op> {
    [TitleHeading(fileName)] + PagesOps(pages, |pages|, visual)
  }

  // Observers of an operation list and of the pages.

  function ParagraphTexts(ops: seq<Op>): seq<string> {
    if ops == [] then []
    else ParagraphTexts(ops[..|ops| - 1]) + (if ops[|ops| - 1].Paragraph? then [ops[|ops| - 1].text] else [])
  }

  function BreakCount(ops: seq<Op>): nat {
    if ops == [] then 0
    else BreakCount(ops[..|ops| - 1]) + (if ops[|ops| - 1].PageBreak? then 1 else 0)
  }

  /** All lines of all pages, in page-then-line order. */
  function Flatten(pages: seq<Page>): seq<string> {
    if pages == [] then [] else Flatten(pages[..|pages| - 1]) + pages[|pages| - 1].lines
  }

  function MapVisual(lines: seq<string>, visual: string -> string): seq<string> {
    seq(|lines|, i requires 0 <= i < |lines| => visual(lines[i]))
  }

  /** The 1-based numbers of the pages that have text and are not page `pageCount`
      or later. */
  function BreakPages(pages: seq<Page>, pageCount: nat): set<nat> {
    set k: nat | 1 <= k <= |pages| && k < pageCount && PageHasText(pages, k)
  }

  /** Page number `k` (1-based) of `pages` has text. */
  predicate PageHasText(pages: seq<Page>, k: nat)
    requires 1 <= k <= |pages|
  {
    HasText(pages[k - 1])
  }

  predicate HasTextPage(pages: seq<Page>) {
    exists k :: 0 <= k < |pages| && HasText(pages[k])
  }

  // Distribution of the observers over concatenation.

  lemma {:induction false} ParagraphTextsAppend(a: seq<Op>, b: seq<Op>)
    ensures ParagraphTexts(a + b) == ParagraphTexts(a) + ParagraphTexts(b)
    decreases |b|
  {
    if b == [] {
      assert a + b == a;
    } else {
      assert (a + b)[..|a + b| - 1] == a + b[..|b| - 1];
      ParagraphTextsAppend(a, b[..|b| - 1]);
    }
  }

  lemma {:induction false} BreakCountAppend(a: seq<Op>, b: seq<Op>)
    ensures BreakCount(a + b) == BreakCount(a) + BreakCount(b)
    decreases |b|
  {
    if b == [] {
      assert a + b == a;
    } else {
      assert (a + b)[..|a + b| - 1] == a + b[..|b| - 1];
      BreakCountAppend(a, b[..|b| - 1]);
    }
  }

  lemma {:induction false} LineParagraphsTexts(lines: seq<string>, visual: string -> string)
    ensures ParagraphTexts(LineParagraphs(lines, visual)) == MapVisual(lines, visual)
    ensures BreakCount(LineParagraphs(lines, visual)) == 0
    decreases |lines|
  {
    if lines != [] {
      var init := lines[..|lines| - 1];
      LineParagraphsTexts(init, visual);
      assert LineParagraphs(lines, visual)[..|lines| - 1] == LineParagraphs(init, visual);
      assert MapVisual(lines, visual) == MapVisual(init, visual) + [visual(lines[|lines| - 1])];
    }
  }

  // Properties of one page.

  /** Processing one page adds only paragraphs in the Arabic format and breaks. */
  lemma PageOpsKinds(pageNum: nat, pageCount: nat, page: Page, visual: string -> string)
    ensures var ops := PageOps(pageNum, pageCount, page, visual);
      forall i :: 0 <= i < |ops| ==> ops[i] == PageBreak || (ops[i].Paragraph? && ops[i].format == ArabicFormat)
  {
  }

  /** What one page contributes to the paragraph texts and to the break count: its
      lines' visual forms and a break when it has text and is not the last page,
      nothing otherwise. */
  lemma PageOpsCounts(pageNum: nat, pageCount: nat, page: Page, visual: string -> string)
    ensures ParagraphTexts(PageOps(pageNum, pageCount, page, visual)) ==
      (if HasText(page) then MapVisual(page.lines, visual) else [])
    ensures BreakCount(PageOps(pageNum, pageCount, page, visual)) ==
      (if HasText(page) && pageNum < pageCount then 1 else 0)
  {
    LineParagraphsTexts(page.lines, visual);
    if HasText(page) {
      var tail := if pageNum < pageCount then [PageBreak] else [];
      ParagraphTextsAppend(LineParagraphs(page.lines, visual), tail);
      BreakCountAppend(LineParagraphs(page.lines, visual), tail);
      assert [PageBreak][..0] == [];
    }
  }

  // Properties of the built document.

  lemma {:induction false} NoHeadingInPages(pages: seq<Page>, pageCount: nat, visual: string -> string)
    ensures forall i :: 0 <= i < |PagesOps(pages, pageCount, visual)| ==> !PagesOps(pages, pageCount, visual)[i].Heading?
    decreases |pages|
  {
    if pages != [] {
      var a := PagesOps(pages[..|pages| - 1], pageCount, visual);
      var b := PageOps(|pages|, pageCount, pages[|pages| - 1], visual);
      NoHeadingInPages(pages[..|pages| - 1], pageCount, visual);
      PageOpsKinds(|pages|, pageCount, pages[|pages| - 1], visual);
      var ops: seq<Op> := a + b;
      forall i | 0 <= i < |ops| ensures !ops[i].Heading? {
        if i >= |a| { assert ops[i] == b[i - |a|]; }
      }
    }
  }

  /** The document opens with the one title heading, naming the source file, and
      contains no other heading. */
  lemma OnlyTitleHeading(fileName: string, pages: seq<Page>, visual: string -> string)
    ensures BuildDocument(fileName, pages, visual)[0] == Heading("Extracted from: " + fileName, 1)
    ensures forall i :: 0 < i < |BuildDocument(fileName, pages, visual)| ==> !BuildDocument(fileName, pages, visual)[i].Heading?
  {
    NoHeadingInPages(pages, |pages|, visual);
  }

  /** Every paragraph carries the identical Arabic format. */
  lemma {:induction false} UniformFormat(pages: seq<Page>, pageCount: nat, visual: string -> string)
    ensures forall i :: 0 <= i < |PagesOps(pages, pageCount, visual)| && PagesOps(pages, pageCount, visual)[i].Paragraph? ==>
      PagesOps(pages, pageCount, visual)[i].format == ArabicFormat
    decreases |pages|
  {
    if pages != [] {
      var a := PagesOps(pages[..|pages| - 1], pageCount, visual);
      var b := PageOps(|pages|, pageCount, pages[|pages| - 1], visual);
      UniformFormat(pages[..|pages| - 1], pageCount, visual);
      PageOpsKinds(|pages|, pageCount, pages[|pages| - 1], visual);
      var ops: seq<Op> := a + b;
      forall i | 0 <= i < |ops| && ops[i].Paragraph? ensures ops[i].format == ArabicFormat {
        if i >= |a| { assert ops[i] == b[i - |a|]; }
      }
    }
  }

  /** The paragraphs are the visual forms of all kept lines, in page-then-line
      order; pages without text contribute none. */
  lemma {:induction false} ParagraphsFollowLines(pages: seq<Page>, pageCount: nat, visual: string -> string)
    requires forall k :: 0 <= k < |pages| ==> WellFormed(pages[k])
    ensures ParagraphTexts(PagesOps(pages, pageCount, visual)) == MapVisual(Flatten(pages), visual)
    decreases |pages|
  {
    if pages != [] {
      var init := pages[..|pages| - 1];
      var last := pages[|pages| - 1];
      ParagraphsFollowLines(init, pageCount, visual);
      ParagraphTextsAppend(PagesOps(init, pageCount, visual), PageOps(|pages|, pageCount, last, visual));
      PageOpsCounts(|pages|, pageCount, last, visual);
      WellFormedHasText(last);
      assert Flatten(pages) == Flatten(init) + last.lines;
      MapVisualAppend(Flatten(init), last.lines, visual);
      assert !HasText(last) ==> MapVisual(last.lines, visual) == [];
    }
  }

  lemma MapVisualAppend(a: seq<string>, b: seq<string>, visual: string -> string)
    ensures MapVisual(a + b, visual) == MapVisual(a, visual) + MapVisual(b, visual)
  {
  }

  /** Adding a page adds its number to the break pages exactly when it has text and
      comes before page `pageCount`. */
  lemma BreakPagesStep(pages: seq<Page>, pageCount: nat)
    requires pages != []
    ensures |BreakPages(pages, pageCount)| == |BreakPages(pages[..|pages| - 1], pageCount)| +
      (if |pages| < pageCount && HasText(pages[|pages| - 1]) then 1 else 0)
  {
    var n := |pages|;
    var init := pages[..n - 1];
    var here: set<nat> := if n < pageCount && HasText(pages[n - 1]) then {n} else {};
    var a, b := BreakPages(init, pageCount), BreakPages(pages, pageCount);
    forall k | k in b ensures k in a + here {
      if k < n { assert pages[k - 1] == init[k - 1]; }
    }
    forall k | k in a + here ensures k in b {
      if k < n { assert pages[k - 1] == init[k - 1]; }
    }
    assert b == a + here;
    assert n !in a;
  }

  /** Breaks are added exactly for the pages with text before page `pageCount`. */
  lemma {:induction false} BreakCountMatchesPages(pages: seq<Page>, pageCount: nat, visual: string -> string)
    ensures BreakCount(PagesOps(pages, pageCount, visual)) == |BreakPages(pages, pageCount)|
    decreases |pages|
  {
    if pages != [] {
      var n := |pages|;
      var init := pages[..n - 1];
      BreakCountMatchesPages(init, pageCount, visual);
      BreakCountAppend(PagesOps(init, pageCount, visual), PageOps(n, pageCount, pages[n - 1], visual));
      PageOpsCounts(n, pageCount, pages[n - 1], visual);
      BreakPagesStep(pages, pageCount);
    }
  }

  /** A page break never directly follows the title or another break: it always
      follows a paragraph. */
  predicate BreaksFollowParagraphs(ops: seq<Op>) {
    forall i :: 0 <= i < |ops| && ops[i].PageBreak? ==> 0 < i && ops[i - 1].Paragraph?
  }

  /** The operations of one well-formed page keep breaks behind paragraphs and do
      not start with a break. */
  lemma PageBreaksFollowParagraphs(pageNum: nat, pageCount: nat, page: Page, visual: string -> string)
    requires WellFormed(page)
    ensures BreaksFollowParagraphs(PageOps(pageNum, pageCount, page, visual))
    ensures PageOps(pageNum, pageCount, page, visual) != [] ==> !PageOps(pageNum, pageCount, page, visual)[0].PageBreak?
  {
    WellFormedHasText(page);
    var ops := PageOps(pageNum, pageCount, page, visual);
    if HasText(page) {
      forall i | 0 <= i < |ops| && ops[i].PageBreak? ensures 0 < i && ops[i - 1].Paragraph? {
        assert i == |page.lines|;
      }
    }
  }

  lemma ConcatBreaksFollowParagraphs(a: seq<Op>, b: seq<Op>)
    requires BreaksFollowParagraphs(a) && BreaksFollowParagraphs(b)
    requires b != [] ==> !b[0].PageBreak?
    ensures BreaksFollowParagraphs(a + b)
  {
    var ops := a + b;
    forall i | 0 <= i < |ops| && ops[i].PageBreak? ensures 0 < i && ops[i - 1].Paragraph? {
      if i >= |a| {
        assert ops[i] == b[i - |a|];
        assert ops[i - 1] == b[i - |a| - 1];
      }
    }
  }

  lemma {:induction false} PagesBreaksFollowParagraphs(pages: seq<Page>, pageCount: nat, visual: string -> string)
    requires forall k :: 0 <= k < |pages| ==> WellFormed(pages[k])
    ensures BreaksFollowParagraphs(PagesOps(pages, pageCount, visual))
    decreases |pages|
  {
    if pages != [] {
      var n := |pages|;
      PagesBreaksFollowParagraphs(pages[..n - 1], pageCount, visual);
      PageBreaksFollowParagraphs(n, pageCount, pages[n - 1], visual);
      ConcatBreaksFollowParagraphs(PagesOps(pages[..n - 1], pageCount, visual), PageOps(n, pageCount, pages[n - 1], visual));
    }
  }

  lemma DocumentBreaksFollowParagraphs(fileName: string, pages: seq<Page>, visual: string -> string)
    requires forall k :: 0 <= k < |pages| ==> WellFormed(pages[k])
    ensures BreaksFollowParagraphs(BuildDocument(fileName, pages, visual))
  {
    var body := PagesOps(pages, |pages|, visual);
    PagesBreaksFollowParagraphs(pages, |pages|, visual);
    var doc := BuildDocument(fileName, pages, visual);
    forall i | 0 <= i < |doc| && doc[i].PageBreak? ensures 0 < i && doc[i - 1].Paragraph? {
      assert doc[i] == body[i - 1];
      assert doc[i - 1] == body[i - 2];
    }
  }

  /** Before the last page is reached, the operations so far end with a break
      exactly when some page so far had text, and are empty otherwise. */
  lemma {:induction false} EarlyPagesEndWithBreak(pages: seq<Page>, pageCount: nat, visual: string -> string)
    requires |pages| < pageCount
    ensures PagesOps(pages, pageCount, visual) == [] <==> !HasTextPage(pages)
    ensures PagesOps(pages, pageCount, visual) != [] ==>
      PagesOps(pages, pageCount, visual)[|PagesOps(pages, pageCount, visual)| - 1] == PageBreak
    decreases |pages|
  {
    if pages != [] {
      var n := |pages|;
      var init := pages[..n - 1];
      EarlyPagesEndWithBreak(init, pageCount, visual);
      if HasText(pages[n - 1]) {
        assert HasTextPage(pages);
      } else {
        assert HasTextPage(pages) <==> HasTextPage(init) by {
          if HasTextPage(pages) {
            var k :| 0 <= k < n && HasText(pages[k]);
            assert init[k] == pages[k];
          }
          if HasTextPage(init) {
            var k :| 0 <= k < n - 1 && HasText(init[k]);
            assert init[k] == pages[k];
          }
        }
      }
    }
  }

  /** The document ends with a page break exactly when its last page has no text
      while an earlier page has: the break added after the last page with text is
      then left trailing. When the last page has text, the document ends with that
      page's last paragraph. */
  lemma TrailingBreakExactly(fileName: string, pages: seq<Page>, visual: string -> string)
    requires pages != []
    requires WellFormed(pages[|pages| - 1])
    ensures var doc := BuildDocument(fileName, pages, visual);
      doc[|doc| - 1] == PageBreak <==>
        (!HasText(pages[|pages| - 1]) && HasTextPage(pages[..|pages| - 1]))
    ensures var doc := BuildDocument(fileName, pages, visual);
      HasText(pages[|pages| - 1]) ==> doc[|doc| - 1].Paragraph?
  {
    var n := |pages|;
    EarlyPagesEndWithBreak(pages[..n - 1], n, visual);
    WellFormedHasText(pages[n - 1]);
  }

  // The page separation the comment on the page-break step describes: a break
  // between pages, none after the last. It differs from the code only in the break
  // the code leaves behind when the last page has no text.

  /** Breaks placed between pages with text: a page with text is preceded by a break
      when an earlier page has text. */
  function SeparatedPagesOps(pages: seq<Page>, visual: string -> string): seq<Op> {
    if pages == [] then []
    else
      var init := pages[..|pages| - 1];
      var last := pages[|pages| - 1];
      SeparatedPagesOps(init, visual) +
        (if HasText(last) then (if HasTextPage(init) then [PageBreak] else []) + LineParagraphs(last.lines, visual)
         else [])
  }

  function BuildSeparated(fileName: string, pages: seq<Page>, visual: string -> string): seq<Op> {
    [TitleHeading(fileName)] + SeparatedPagesOps(pages, visual)
  }

  lemma HasTextPageStep(pages: seq<Page>)
    requires pages != []
    ensures HasTextPage(pages) <==> HasTextPage(pages[..|pages| - 1]) || HasText(pages[|pages| - 1])
  {
    var init := pages[..|pages| - 1];
    if HasTextPage(pages) && !HasText(pages[|pages| - 1]) {
      var k :| 0 <= k < |pages| && HasText(pages[k]);
      assert init[k] == pages[k];
    }
    if HasTextPage(init) {
      var k :| 0 <= k < |init| && HasText(init[k]);
      assert init[k] == pages[k];
    }
  }

  /** Without a page with text the separated pages add nothing. */
  lemma {:induction false} SeparatedEmptyWithoutText(pages: seq<Page>, visual: string -> string)
    requires !HasTextPage(pages)
    ensures SeparatedPagesOps(pages, visual) == []
    decreases |pages|
  {
    if pages != [] {
      HasTextPageStep(pages);
      SeparatedEmptyWithoutText(pages[..|pages| - 1], visual);
    }
  }

  /** The separated pages of well-formed pages add something exactly when a page has
      text, and then they end with a paragraph. */
  lemma {:induction false} SeparatedEndsWithParagraph(pages: seq<Page>, visual: string -> string)
    requires forall k :: 0 <= k < |pages| ==> WellFormed(pages[k])
    ensures SeparatedPagesOps(pages, visual) == [] <==> !HasTextPage(pages)
    ensures SeparatedPagesOps(pages, visual) != [] ==>
      SeparatedPagesOps(pages, visual)[|SeparatedPagesOps(pages, visual)| - 1].Paragraph?
    decreases |pages|
  {
    if pages != [] {
      var n := |pages|;
      var init, last := pages[..n - 1], pages[n - 1];
      SeparatedEndsWithParagraph(init, visual);
      HasTextPageStep(pages);
      if HasText(last) {
        SeparatedStepWithText(pages, visual);
      } else {
        StepWithoutText(pages, |pages|, visual);
      }
    }
  }

  /** A well-formed page with text ends the separated operations with its last line's
      paragraph. */
  lemma SeparatedStepWithText(pages: seq<Page>, visual: string -> string)
    requires pages != [] && HasText(pages[|pages| - 1]) && WellFormed(pages[|pages| - 1])
    ensures var ops := SeparatedPagesOps(pages, visual); ops != [] && ops[|ops| - 1].Paragraph?
  {
    var init, last := pages[..|pages| - 1], pages[|pages| - 1];
    WellFormedHasText(last);
    var tail := (if HasTextPage(init) then [PageBreak] else []) + LineParagraphs(last.lines, visual);
    assert tail[|tail| - 1] == ArabicParagraph(last.lines[|last.lines| - 1], visual);
    assert SeparatedPagesOps(pages, visual) == SeparatedPagesOps(init, visual) + tail;
  }

  /** With the intended separation the document never ends with a page break. */
  lemma SeparatedNoTrailingBreak(fileName: string, pages: seq<Page>, visual: string -> string)
    requires forall k :: 0 <= k < |pages| ==> WellFormed(pages[k])
    ensures var doc := BuildSeparated(fileName, pages, visual); doc[|doc| - 1] != PageBreak
  {
    SeparatedEndsWithParagraph(pages, visual);
  }

  /** Before page `pageCount`, the code has added the separated operations followed
      by one break, or nothing when no page so far has text. */
  lemma {:induction false} EarlyPagesAreSeparated(pages: seq<Page>, pageCount: nat, visual: string -> string)
    requires |pages| < pageCount
    ensures PagesOps(pages, pageCount, visual) ==
      (if HasTextPage(pages) then SeparatedPagesOps(pages, visual) + [PageBreak] else [])
    decreases |pages|
  {
    if pages != [] {
      var n := |pages|;
      var init, last := pages[..n - 1], pages[n - 1];
      EarlyPagesAreSeparated(init, pageCount, visual);
      HasTextPageStep(pages);
      if !HasTextPage(init) {
        SeparatedEmptyWithoutText(init, visual);
      }
      if HasText(last) {
        EarlyStepWithText(pages, pageCount, visual);
      } else {
        StepWithoutText(pages, pageCount, visual);
      }
    }
  }

  lemma EarlyStepWithText(pages: seq<Page>, pageCount: nat, visual: string -> string)
    requires pages != [] && |pages| < pageCount && HasText(pages[|pages| - 1])
    requires var init := pages[..|pages| - 1];
      && (!HasTextPage(init) ==> SeparatedPagesOps(init, visual) == [])
      && PagesOps(init, pageCount, visual) ==
        (if HasTextPage(init) then SeparatedPagesOps(init, visual) + [PageBreak] else [])
    ensures PagesOps(pages, pageCount, visual) == SeparatedPagesOps(pages, visual) + [PageBreak]
  {
    var n := |pages|;
    var init, last := pages[..n - 1], pages[n - 1];
    var lp := LineParagraphs(last.lines, visual);
    assert PageOps(n, pageCount, last, visual) == lp + [PageBreak];
    BreakMovesForward(SeparatedPagesOps(init, visual), lp, HasTextPage(init));
  }

  /** A page without text changes neither the code's operations nor the separated ones. */
  lemma StepWithoutText(pages: seq<Page>, pageCount: nat, visual: string -> string)
    requires pages != [] && !HasText(pages[|pages| - 1])
    ensures PagesOps(pages, pageCount, visual) == PagesOps(pages[..|pages| - 1], pageCount, visual)
    ensures SeparatedPagesOps(pages, visual) == SeparatedPagesOps(pages[..|pages| - 1], visual)
  {
    assert PageOps(|pages|, pageCount, pages[|pages| - 1], visual) == [];
  }

  /** The break the code adds after a page becomes, in the separated form, the break
      before the next page with text. */
  lemma BreakMovesForward(s: seq<Op>, lp: seq<Op>, had: bool)
    requires !had ==> s == []
    ensures (if had then s + [PageBreak] else []) + (lp + [PageBreak]) ==
      (s + ((if had then [PageBreak] else []) + lp)) + [PageBreak]
    ensures (if had then s + [PageBreak] else []) + lp == s + ((if had then [PageBreak] else []) + lp)
  {
  }

  /** The code's document is the separated one plus a trailing break exactly when the
      last page has no text and an earlier page has. */
  lemma CodeIsSeparatedPlusTrailing(fileName: string, pages: seq<Page>, visual: string -> string)
    requires pages != []
    ensures BuildDocument(fileName, pages, visual) ==
      BuildSeparated(fileName, pages, visual) +
        (if !HasText(pages[|pages| - 1]) && HasTextPage(pages[..|pages| - 1]) then [PageBreak] else [])
  {
    var n := |pages|;
    var init, last := pages[..n - 1], pages[n - 1];
    EarlyPagesAreSeparated(init, n, visual);
    if !HasTextPage(init) {
      SeparatedEmptyWithoutText(init, visual);
    }
    var sep := SeparatedPagesOps(pages, visual);
    var extra: seq<Op> := if !HasText(last) && HasTextPage(init) then [PageBreak] else [];
    if HasText(last) {
      var lp := LineParagraphs(last.lines, visual);
      assert PageOps(n, n, last, visual) == lp;
      BreakMovesForward(SeparatedPagesOps(init, visual), lp, HasTextPage(init));
      assert PagesOps(pages, n, visual) == sep + extra;
    } else {
      assert PagesOps(pages, n, visual) == PagesOps(init, n, visual);
      assert sep == SeparatedPagesOps(init, visual);
      assert PagesOps(pages, n, visual) == sep + extra;
    }
  }
}
