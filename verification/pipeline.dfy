/** One press of "Extract Text & Create Word File": every page image goes through
    the recognition engine, and the kept lines become the Word document, the
    transcript and the name the document is offered for download under. */
module Pipeline {
  import opened Results
  import opened PyText
  import opened OcrLines
  import opened DocModel
  import opened Transcript

  /** One call of the recognition engine on one page image: it raises, or it returns
      a result (`None` standing for any falsy value). */
  datatype EngineCall = Raised | Returned(result: Option<seq<EngineEntry>>)

  /** How a run ends without output: there were no page images, or the engine
      raised on page `pageNum` (1-based); nothing catches that exception. */
  datatype RunError = NoPages | EngineRaised(pageNum: nat)

  datatype Output = Output(document: seq<Op>, transcript: string, downloadName: string)

  const DownloadPrefix: string := "arabic_ocr_"
  const DownloadSuffix: string := ".docx"

  /** The file name offered for download; `stem` is `Path(name).stem`. */
  function DownloadName(fileName: string, stem: string -> string): string {
    DownloadPrefix + stem(fileName) + DownloadSuffix
  }

  /** Recovers the stem from a download name, if it has the download name's shape. */
  function StemOfDownloadName(name: string): Option<string> {
    if |name| >= |DownloadPrefix| + |DownloadSuffix|
      && name[..|DownloadPrefix|] == DownloadPrefix
      && name[|name| - |DownloadSuffix|..] == DownloadSuffix
    then Some(name[|DownloadPrefix|..|name| - |DownloadSuffix|])
    else None
  }

  /** The download name is the fixed prefix, the source's stem and the `.docx`
      extension, and the stem can be read back from it. */
  lemma DownloadNameRoundTrip(fileName: string, stem: string -> string)
    ensures StemOfDownloadName(DownloadName(fileName, stem)) == Some(stem(fileName))
  {
    var name := DownloadName(fileName, stem);
    assert name[..|DownloadPrefix|] == DownloadPrefix;
    assert name[|name| - |DownloadSuffix|..] == DownloadSuffix;
    assert name[|DownloadPrefix|..|name| - |DownloadSuffix|] == stem(fileName);
  }

  /** The page read from one engine call that returned. */
  function PageOf(result: Option<seq<EngineEntry>>): Page {
    ReadPage(LinesOf(result))
  }

  /** The pages read from the results of the engine calls, in order. */
  function PagesOf(results: seq<Option<seq<EngineEntry>>>): seq<Page> {
    seq(|results|, k requires 0 <= k < |results| => PageOf(results[k]))
  }

  /** The engine returned (possibly nothing) on every page. */
  predicate AllReturned(calls: seq<EngineCall>) {
    forall i :: 0 <= i < |calls| ==> calls[i].Returned?
  }

  /** The results of the engine calls in page order, or the first page whose call
      raised: a raise on any page ends the run. */
  function CallResults(calls: seq<EngineCall>): (r: Result<seq<Option<seq<EngineEntry>>>, RunError>)
    ensures r.Success? <==> AllReturned(calls)
    ensures r.Success? ==>
      (|r.value| == |calls| && forall i :: 0 <= i < |calls| ==> r.value[i] == calls[i].result)
    ensures r.Failure? ==>
      (&& r.error.EngineRaised?
       && 1 <= r.error.pageNum <= |calls|
       && calls[r.error.pageNum - 1].Raised?
       && forall i :: 0 <= i < r.error.pageNum - 1 ==> calls[i].Returned?)
  {
    if calls == [] then Success([])
    else
      var n := |calls|;
      var init := calls[..n - 1];
      assert forall i :: 0 <= i < n - 1 ==> init[i] == calls[i];
      match CallResults(init)
      case Failure(e) => Failure(e)
      case Success(results) =>
        match calls[n - 1]
        case Raised => Failure(EngineRaised(n))
        case Returned(result) => Success(results + [result])
  }

  /** The whole run, lines 136-186: the document, the transcript and the download
      name, or the error that ends the run. */
  function Run(fileName: string, calls: seq<EngineCall>, visual: string -> string, stem: string -> string): Result<Output, RunError> {
    if calls == [] then Failure(NoPages)
    else
      match CallResults(calls)
      case Failure(e) => Failure(e)
      case Success(results) =>
        var pages := PagesOf(results);
        Success(Output(BuildDocument(fileName, pages, visual), CombinedText(pages), DownloadName(fileName, stem)))
  }

  /** One iteration of the page loop: recognise the page, then produce its
      transcript entry and the operations it adds to the document. */
  method ProcessPage(pageNum: nat, pageCount: nat, result: Option<seq<EngineEntry>>, visual: string -> string)
    returns (ops: seq<Op>, entry: string)
    ensures ops == PageOps(pageNum, pageCount, PageOf(result), visual)
    ensures entry == PageEntry(pageNum, PageOf(result))
  {
    var pageLines := RunOcrOnImage(result);
    var pageText := PageText(pageLines);
    ops := [];
    if pageText != [] {
      entry := Header(pageNum) + pageText;
      for j := 0 to |pageLines|
        invariant ops == LineParagraphs(pageLines[..j], visual)
      {
        assert LineParagraphs(pageLines[..j + 1], visual) == LineParagraphs(pageLines[..j], visual) + [ArabicParagraph(pageLines[j], visual)];
        ops := ops + [ArabicParagraph(pageLines[j], visual)];
      }
      assert pageLines[..|pageLines|] == pageLines;
      if pageNum < pageCount {
        ops := ops + [PageBreak];
      }
    } else {
      entry := Header(pageNum) + NoTextMarker;
    }
  }

  /** When every page before page `k + 1` returned and that page raised, the run
      stops with the error for page `k + 1`. */
  lemma FirstRaise(calls: seq<EngineCall>, k: nat)
    requires k < |calls| && calls[k].Raised?
    requires CallResults(calls[..k]).Success?
    ensures CallResults(calls) == Failure(EngineRaised(k + 1))
  {
    assert forall i :: 0 <= i < k ==> calls[i].Returned? by {
      assert forall i :: 0 <= i < k ==> calls[..k][i] == calls[i];
    }
    var e := CallResults(calls).error;
    assert !calls[e.pageNum - 1].Returned?;
  }

  /** Appending a page's result appends that page's operations and transcript entry. */
  lemma PagesStep(results: seq<Option<seq<EngineEntry>>>, result: Option<seq<EngineEntry>>, pageCount: nat, visual: string -> string)
    ensures PagesOps(PagesOf(results + [result]), pageCount, visual) ==
      PagesOps(PagesOf(results), pageCount, visual) + PageOps(|results| + 1, pageCount, PageOf(result), visual)
    ensures Entries(PagesOf(results + [result])) ==
      Entries(PagesOf(results)) + [PageEntry(|results| + 1, PageOf(result))]
  {
    var pages' := PagesOf(results + [result]);
    assert pages' == PagesOf(results) + [PageOf(result)];
    assert pages'[..|pages'| - 1] == PagesOf(results);
  }

  lemma AppendAssociative<T>(a: seq<T>, b: seq<T>, c: seq<T>)
    ensures (a + b) + c == a + (b + c)
  {
  }

  /** The run, as the script executes it: one pass over the pages that processes
      each page in turn and appends its operations and its transcript entry. */
  method ProcessUpload(fileName: string, calls: seq<EngineCall>, visual: string -> string, stem: string -> string)
    returns (r: Result<Output, RunError>)
    ensures r == Run(fileName, calls, visual, stem)
  {
    if |calls| == 0 {
      return Failure(NoPages);
    }
    var n := |calls|;
    var doc := [TitleHeading(fileName)];
    var allPageTexts: seq<string> := [];
    ghost var results: seq<Option<seq<EngineEntry>>> := [];
    for pageNum := 1 to n + 1
      invariant |results| == pageNum - 1
      invariant CallResults(calls[..pageNum - 1]) == Success(results)
      invariant doc == [TitleHeading(fileName)] + PagesOps(PagesOf(results), n, visual)
      invariant allPageTexts == Entries(PagesOf(results))
    {
      assert calls[..pageNum][..pageNum - 1] == calls[..pageNum - 1];
      var call := calls[pageNum - 1];
      if call.Raised? {
        FirstRaise(calls, pageNum - 1);
        return Failure(EngineRaised(pageNum));
      }
      var ops, entry := ProcessPage(pageNum, n, call.result, visual);
      PagesStep(results, call.result, n, visual);
      AppendAssociative([TitleHeading(fileName)], PagesOps(PagesOf(results), n, visual), ops);
      doc := doc + ops;
      allPageTexts := allPageTexts + [entry];
      results := results + [call.result];
    }
    assert calls[..n] == calls;
    var combined := Strip(JoinWith(EntrySeparator, allPageTexts));
    var downloadName := DownloadPrefix + stem(fileName) + DownloadSuffix;
    r := Success(Output(doc, combined, downloadName));
  }

  // Properties of a whole run.

  /** A page read from an engine result is well formed: its lines are kept lines and
      its text is their newline join. */
  lemma PageOfWellFormed(result: Option<seq<EngineEntry>>)
    ensures WellFormed(PageOf(result))
  {
    ReadPageWellFormed(LinesOf(result));
  }

  /** A run produces output exactly when there is at least one page and the engine
      returned on every page; a single raise loses the whole document. */
  lemma RunSucceedsExactly(fileName: string, calls: seq<EngineCall>, visual: string -> string, stem: string -> string)
    ensures Run(fileName, calls, visual, stem).Success? <==>
      calls != [] && AllReturned(calls)
    ensures calls == [] ==> Run(fileName, calls, visual, stem) == Failure(NoPages)
  {
  }

  /** The pages of a successful run: one per engine call, in order. */
  function RunPages(calls: seq<EngineCall>): (pages: seq<Page>)
    requires CallResults(calls).Success?
    ensures |pages| == |calls|
    ensures forall k :: 0 <= k < |calls| ==> pages[k] == PageOf(calls[k].result)
    ensures forall k :: 0 <= k < |calls| ==> WellFormed(pages[k])
  {
    var pages := PagesOf(CallResults(calls).value);
    assert forall k :: 0 <= k < |calls| ==> WellFormed(pages[k]) by {
      forall k | 0 <= k < |calls| ensures WellFormed(pages[k]) {
        PageOfWellFormed(calls[k].result);
      }
    }
    pages
  }

  lemma RunDocument(fileName: string, calls: seq<EngineCall>, visual: string -> string, stem: string -> string)
    requires calls != [] && AllReturned(calls)
    ensures Run(fileName, calls, visual, stem).value.document == BuildDocument(fileName, RunPages(calls), visual)
    ensures DocumentShape(fileName, RunPages(calls), visual)
  {
    DocumentShapeHolds(fileName, RunPages(calls), visual);
  }

  /** The shape of the document: the title heading first and nowhere else, one
      paragraph per kept line in page-then-line order, all in the Arabic format, a
      break for each page with text other than the last, and no break that does not
      follow a paragraph. */
  predicate DocumentShape(fileName: string, pages: seq<Page>, visual: string -> string) {
    var doc := BuildDocument(fileName, pages, visual);
    && doc[0] == Heading("Extracted from: " + fileName, 1)
    && (forall i :: 0 < i < |doc| ==> !doc[i].Heading?)
    && ParagraphTexts(doc) == MapVisual(Flatten(pages), visual)
    && (forall i :: 0 <= i < |doc| && doc[i].Paragraph? ==> doc[i].format == ArabicFormat)
    && BreakCount(doc) == |BreakPages(pages, |pages|)|
    && BreaksFollowParagraphs(doc)
  }

  lemma DocumentShapeHolds(fileName: string, pages: seq<Page>, visual: string -> string)
    requires forall k :: 0 <= k < |pages| ==> WellFormed(pages[k])
    ensures DocumentShape(fileName, pages, visual)
  {
    var doc := BuildDocument(fileName, pages, visual);
    var body := PagesOps(pages, |pages|, visual);
    OnlyTitleHeading(fileName, pages, visual);
    ParagraphsFollowLines(pages, |pages|, visual);
    ParagraphTextsAppend([TitleHeading(fileName)], body);
    assert ParagraphTexts([TitleHeading(fileName)]) == [];
    UniformFormat(pages, |pages|, visual);
    forall i | 0 <= i < |doc| && doc[i].Paragraph? ensures doc[i].format == ArabicFormat {
      assert doc[i] == body[i - 1];
    }
    BreakCountMatchesPages(pages, |pages|, visual);
    BreakCountAppend([TitleHeading(fileName)], body);
    assert BreakCount([TitleHeading(fileName)]) == 0;
    DocumentBreaksFollowParagraphs(fileName, pages, visual);
  }

  /** The document of a successful run ends with a page break exactly when the last
      page has no text and an earlier page has. */
  lemma RunTrailingBreak(fileName: string, calls: seq<EngineCall>, visual: string -> string, stem: string -> string)
    requires calls != [] && AllReturned(calls)
    ensures var doc := Run(fileName, calls, visual, stem).value.document;
      var pages := RunPages(calls);
      doc[|doc| - 1] == PageBreak <==> (!HasText(pages[|pages| - 1]) && HasTextPage(pages[..|pages| - 1]))
  {
    var pages := RunPages(calls);
    TrailingBreakExactly(fileName, pages, visual);
  }

  /** The transcript of a successful run is the page entries joined by blank lines,
      one entry per page in page order, each reading back as its page number and
      body; and it is never empty. */
  lemma RunTranscript(fileName: string, calls: seq<EngineCall>, visual: string -> string, stem: string -> string)
    requires calls != [] && AllReturned(calls)
    ensures var t := Run(fileName, calls, visual, stem).value.transcript;
      var pages := RunPages(calls);
      && t == JoinWith(EntrySeparator, Entries(pages))
      && t != []
      && |Entries(pages)| == |calls|
      && forall k :: 0 <= k < |calls| ==> SplitEntry(Entries(pages)[k]) == Some((k + 1, Body(pages[k])))
  {
    var pages := RunPages(calls);
    RunOutput(fileName, calls, visual, stem);
    CombinedOfWellFormed(pages);
    EntriesReadBack(pages);
  }

  /** What a successful run outputs, in terms of the pages its engine calls returned. */
  lemma RunOutput(fileName: string, calls: seq<EngineCall>, visual: string -> string, stem: string -> string)
    requires calls != [] && AllReturned(calls)
    ensures Run(fileName, calls, visual, stem).Success?
    ensures Run(fileName, calls, visual, stem).value ==
      Output(BuildDocument(fileName, RunPages(calls), visual), CombinedText(RunPages(calls)), DownloadName(fileName, stem))
  {
  }

  /** The download name of a successful run gives back the source file's stem. */
  lemma RunDownloadName(fileName: string, calls: seq<EngineCall>, visual: string -> string, stem: string -> string)
    requires calls != [] && AllReturned(calls)
    ensures StemOfDownloadName(Run(fileName, calls, visual, stem).value.downloadName) == Some(stem(fileName))
  {
    DownloadNameRoundTrip(fileName, stem);
  }
}
