/** A worked two-page upload: the first page holds two readable lines and one malformed
    engine entry, the second page yields nothing. */
module Scenario {
  import opened Results
  import opened PyText
  import opened OcrLines
  import opened DocModel
  import opened Transcript
  import opened Pipeline

  const Salam: string := "السلام"
  const Alaykum: string := "عليكم"

  function FirstPageEntries(): seq<EngineEntry> {
    [Detection(Str(Salam)), Malformed, Detection(Str("  " + Alaykum + " "))]
  }

  function Calls(): seq<EngineCall> {
    [Returned(Some(FirstPageEntries())), Returned(None)]
  }

  function FirstPage(): Page {
    Page([Salam, Alaykum], Salam + "\n" + Alaykum)
  }

  /** The malformed entry is skipped and the padded text is stripped. */
  lemma FirstPageLines()
    ensures LinesOf(Some(FirstPageEntries())) == [Salam, Alaykum]
  {
    var d1, d2 := Detection(Str(Salam)), Detection(Str("  " + Alaykum + " "));
    assert FirstPageEntries() == [d1] + [Malformed] + [d2];
    MalformedIgnored([d1], [d2]);
    ExtractLinesAppend([d1], [d2]);
    KeptAsIs();
    KeptStripped();
    ExtractSingle(d1);
    ExtractSingle(d2);
  }

  lemma KeptAsIs()
    ensures KeptText(Detection(Str(Salam))) == Some(Salam)
  {
    StripIdempotent(Salam);
  }

  lemma KeptStripped()
    ensures KeptText(Detection(Str("  " + Alaykum + " "))) == Some(Alaykum)
  {
    StripUnique("  ", Alaykum, " ");
  }

  /** Both calls return, so the run reads the two pages below. */
  lemma ScenarioPages()
    ensures CallResults(Calls()).Success?
    ensures PagesOf(CallResults(Calls()).value) == [FirstPage(), Page([], [])]
  {
    var calls := Calls();
    FirstPageLines();
    PageTextOfKept([Salam, Alaykum]);
    assert PageOf(Some(FirstPageEntries())) == FirstPage();
    assert PageOf(None) == Page([], []);
    assert calls[0].Returned? && calls[1].Returned?;
    var results := CallResults(calls).value;
    assert results[0] == Some(FirstPageEntries()) && results[1] == None;
    assert results == [Some(FirstPageEntries()), None];
  }

  /** The document: the title, one paragraph per line of page 1, then the break that
      page 1 adds because it is not the last page; page 2 adds nothing. */
  lemma ScenarioDocument(visual: string -> string)
    ensures BuildDocument("scan.pdf", [FirstPage(), Page([], [])], visual) ==
      [Heading("Extracted from: scan.pdf", 1), Paragraph(visual(Salam), ArabicFormat),
       Paragraph(visual(Alaykum), ArabicFormat), PageBreak]
  {
    var p1 := FirstPage();
    var pages := [p1, Page([], [])];
    var doc := [Heading("Extracted from: scan.pdf", 1), Paragraph(visual(Salam), ArabicFormat),
                Paragraph(visual(Alaykum), ArabicFormat), PageBreak];
    assert pages[..1] == [p1];
    assert PagesOps(pages, 2, visual) == PagesOps([p1], 2, visual);
    assert [p1][..0] == [];
    assert PagesOps([p1], 2, visual) == LineParagraphs([Salam, Alaykum], visual) + [PageBreak];
    assert LineParagraphs([Salam, Alaykum], visual) ==
      [Paragraph(visual(Salam), ArabicFormat), Paragraph(visual(Alaykum), ArabicFormat)];
    assert "Extracted from: " + "scan.pdf" == "Extracted from: scan.pdf";
    assert TitleHeading("scan.pdf") == doc[0];
    assert PagesOps(pages, |pages|, visual) == doc[1..];
  }

  /** The transcript: both page entries, the second with the no-text marker. */
  lemma ScenarioTranscript()
    ensures CombinedText([FirstPage(), Page([], [])]) ==
      Header(1) + Salam + "\n" + Alaykum + EntrySeparator + Header(2) + NoTextMarker
  {
    var pages := [FirstPage(), Page([], [])];
    var e1, e2 := Header(1) + (Salam + "\n" + Alaykum), Header(2) + NoTextMarker;
    assert IsStripped(FirstPage().text);
    CombinedIsJoin(pages);
    EntriesOfTwo(FirstPage(), Page([], []));
    assert Entries(pages) == [e1, e2];
    JoinTwo(EntrySeparator, e1, e2);
  }

  lemma TwoPageExample(visual: string -> string, stem: string -> string)
    ensures Run("scan.pdf", Calls(), visual, stem).Success?
    ensures Run("scan.pdf", Calls(), visual, stem).value.document ==
      [Heading("Extracted from: scan.pdf", 1), Paragraph(visual(Salam), ArabicFormat),
       Paragraph(visual(Alaykum), ArabicFormat), PageBreak]
    ensures Run("scan.pdf", Calls(), visual, stem).value.transcript ==
      Header(1) + Salam + "\n" + Alaykum + EntrySeparator + Header(2) + NoTextMarker
  {
    ScenarioPages();
    ScenarioDocument(visual);
    ScenarioTranscript();
  }
}
