/** The plain-text transcript shown under "View extracted text": one entry per
    page, a header naming the page followed by its text or a no-text marker, the
    entries separated by blank lines. */
module Transcript {
  import opened Results
  import opened PyText
  import opened Decimal
  import opened OcrLines

  const EmDash: char := '\U{2014}'
  const PagePrefix: string := [EmDash] + " Page "
  const PageSuffix: string := " " + [EmDash] + "\n"
  const NoTextMarker: string := "[No text detected]"
  const EntrySeparator: string := "\n\n"

  /** `f"— Page {page_num} —\n"`. */
  function Header(pageNum: nat): string {
    PagePrefix + NatToDecimal(pageNum) + PageSuffix
  }

  /** What follows the header: the page text, or the marker for a page without text. */
  function Body(page: Page): string {
    if HasText(page) then page.text else NoTextMarker
  }

  function PageEntry(pageNum: nat, page: Page): string {
    Header(pageNum) + Body(page)
  }

  /** `all_page_texts` after the page loop: exactly one entry per page, in page
      order, the k-th for page number k + 1. */
  function Entries(pages: seq<Page>): (r: seq<string>)
    ensures |r| == |pages|
    ensures forall k :: 0 <= k < |pages| ==> r[k] == PageEntry(k + 1, pages[k])
  {
    if pages == [] then []
    else Entries(pages[..|pages| - 1]) + [PageEntry(|pages|, pages[|pages| - 1])]
  }

  /** `combined_text`: the entries joined by blank lines, then stripped. */
  function CombinedText(pages: seq<Page>): string {
    Strip(JoinWith(EntrySeparator, Entries(pages)))
  }

  /** The value the text area shows: the combined text, or a fallback when it is empty. */
  function DisplayedText(pages: seq<Page>): string {
    if CombinedText(pages) != [] then CombinedText(pages) else "No text found."
  }

  /** Reads a transcript entry back into its page number and body. */
  function SplitEntry(entry: string): Option<(nat, string)> {
    if |entry| < |PagePrefix| || entry[..|PagePrefix|] != PagePrefix then None
    else
      var rest := entry[|PagePrefix|..];
      var digits := DigitPrefix(rest);
      var after := rest[|digits|..];
      if digits == [] || |after| < |PageSuffix| || after[..|PageSuffix|] != PageSuffix then None
      else Some((ParseDecimal(digits), after[|PageSuffix|..]))
  }

  /** Every entry names its page: reading an entry back gives the page number it
      was written for and its body. */
  lemma SplitEntryRoundTrip(pageNum: nat, page: Page)
    ensures SplitEntry(PageEntry(pageNum, page)) == Some((pageNum, Body(page)))
  {
    var d := NatToDecimal(pageNum);
    var body := Body(page);
    var entry := PageEntry(pageNum, page);
    assert entry == PagePrefix + (d + (PageSuffix + body));
    var rest := entry[|PagePrefix|..];
    assert rest == d + (PageSuffix + body);
    DigitPrefixOfNumeral(d, PageSuffix + body);
    assert rest[|d|..] == PageSuffix + body;
    ParseNatToDecimal(pageNum);
  }

  /** The body is the marker for a page without lines and the newline-joined lines
      otherwise. */
  lemma BodyOfWellFormed(page: Page)
    requires WellFormed(page)
    ensures Body(page) == (if page.lines == [] then NoTextMarker else JoinWith("\n", page.lines))
  {
    WellFormedHasText(page);
  }

  /** With a stripped page text, an entry is non-empty and stripped: it starts with
      the em dash of its header and ends with the last character of its body. */
  lemma EntryStripped(pageNum: nat, page: Page)
    requires IsStripped(page.text)
    ensures PageEntry(pageNum, page) != [] && IsStripped(PageEntry(pageNum, page))
  {
    var e := PageEntry(pageNum, page);
    var b := Body(page);
    assert e[0] == EmDash;
    assert e[|e| - 1] == b[|b| - 1];
  }

  lemma EntriesStripped(pages: seq<Page>)
    requires forall k :: 0 <= k < |pages| ==> IsStripped(pages[k].text)
    ensures AllNonEmptyStripped(Entries(pages))
  {
    var es := Entries(pages);
    forall k | 0 <= k < |es| ensures es[k] != [] && IsStripped(es[k]) {
      EntryStripped(k + 1, pages[k]);
    }
  }

  /** The final strip of the combined text changes nothing: the transcript is the
      page entries joined by blank lines, and it starts with the first header. */
  lemma CombinedIsJoin(pages: seq<Page>)
    requires forall k :: 0 <= k < |pages| ==> IsStripped(pages[k].text)
    ensures CombinedText(pages) == JoinWith(EntrySeparator, Entries(pages))
    ensures CombinedText(pages) == [] <==> pages == []
    ensures pages != [] ==> CombinedText(pages)[0] == EmDash
  {
    var es := Entries(pages);
    EntriesStripped(pages);
    JoinOfStripped(EntrySeparator, es);
    StripIdempotent(JoinWith(EntrySeparator, es));
    if pages != [] {
      assert es[0][0] == EmDash;
    }
  }

  /** For any non-empty page list the transcript is non-empty, so the text area never
      falls back to its "No text found." message. */
  lemma DisplayedIsCombined(pages: seq<Page>)
    requires pages != []
    requires forall k :: 0 <= k < |pages| ==> IsStripped(pages[k].text)
    ensures DisplayedText(pages) == CombinedText(pages)
    ensures DisplayedText(pages) != "No text found."
  {
    CombinedIsJoin(pages);
  }

  /** For pages read from kept lines, the transcript is the entries joined by blank
      lines, and it is not empty when there is a page. */
  lemma CombinedOfWellFormed(pages: seq<Page>)
    requires pages != []
    requires forall k :: 0 <= k < |pages| ==> WellFormed(pages[k])
    ensures CombinedText(pages) == JoinWith(EntrySeparator, Entries(pages))
    ensures CombinedText(pages) != []
  {
    forall k | 0 <= k < |pages| ensures IsStripped(pages[k].text) {
      WellFormedHasText(pages[k]);
    }
    CombinedIsJoin(pages);
  }

  /** Each entry of the transcript reads back as its page number and body. */
  lemma EntriesReadBack(pages: seq<Page>)
    ensures forall k :: 0 <= k < |pages| ==> SplitEntry(Entries(pages)[k]) == Some((k + 1, Body(pages[k])))
  {
    forall k | 0 <= k < |pages| ensures SplitEntry(Entries(pages)[k]) == Some((k + 1, Body(pages[k]))) {
      SplitEntryRoundTrip(k + 1, pages[k]);
    }
  }

  /** The transcript does not determine how the text was split into pages: a
      single page whose one line is `x`, a blank line, the header of page 2 and `y`
      gives the same transcript as two pages holding `x` and `y`. */
  lemma TranscriptNotInjective(x: string, y: string)
    requires x != [] && IsStripped(x)
    requires y != [] && IsStripped(y)
    ensures CombinedText([ReadPage([x + EntrySeparator + Header(2) + y])]) ==
      CombinedText([ReadPage([x]), ReadPage([y])])
  {
    var line := x + EntrySeparator + Header(2) + y;
    assert line[0] == x[0] && line[|line| - 1] == y[|y| - 1];
    SingleLinePage(line);
    SingleLinePage(x);
    SingleLinePage(y);
    PagesCollide(x, y);
  }

  lemma PagesCollide(x: string, y: string)
    requires x != [] && IsStripped(x)
    requires y != [] && IsStripped(y)
    ensures var line := x + EntrySeparator + Header(2) + y;
      CombinedText([Page([line], line)]) == CombinedText([Page([x], x), Page([y], y)])
  {
    var line := x + EntrySeparator + Header(2) + y;
    var one := [Page([line], line)];
    var two := [Page([x], x), Page([y], y)];
    JoinedEntriesCollide(x, y, line);
    assert JoinWith(EntrySeparator, Entries(one)) == JoinWith(EntrySeparator, Entries(two));
  }

  /** Before the final strip, both transcripts are the same text. */
  lemma JoinedEntriesCollide(x: string, y: string, line: string)
    requires x != [] && y != [] && line == x + EntrySeparator + Header(2) + y
    ensures JoinWith(EntrySeparator, Entries([Page([line], line)])) ==
      JoinWith(EntrySeparator, Entries([Page([x], x), Page([y], y)]))
  {
    var e1, e2 := PageEntry(1, Page([x], x)), PageEntry(2, Page([y], y));
    EntriesOfTwo(Page([x], x), Page([y], y));
    JoinTwo(EntrySeparator, e1, e2);
    assert Entries([Page([line], line)]) == [PageEntry(1, Page([line], line))];
    assert e1 == Header(1) + x && e2 == Header(2) + y;
    assert PageEntry(1, Page([line], line)) == Header(1) + line;
    Regroup5(Header(1), x, EntrySeparator, Header(2), y);
  }

  lemma EntriesOfTwo(p: Page, q: Page)
    ensures Entries([p, q]) == [PageEntry(1, p), PageEntry(2, q)]
  {
    var r := Entries([p, q]);
    assert |r| == 2 && r[0] == PageEntry(1, p) && r[1] == PageEntry(2, q);
  }

  lemma Regroup5(a: string, b: string, c: string, d: string, e: string)
    ensures a + (b + c + d + e) == (a + b) + c + (d + e)
  {
  }

  lemma SingleLinePage(line: string)
    requires line != [] && IsStripped(line)
    ensures ReadPage([line]) == Page([line], line)
  {
    StripIdempotent(line);
  }
}
