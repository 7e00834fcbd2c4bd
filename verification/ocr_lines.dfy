/** Line extraction from one recognition result (`run_ocr_on_image`): the engine's
    entries are scanned in order and the stripped text of every entry whose text
    field is a string with non-blank content is kept. */
module OcrLines {
  import opened Results
  import opened PyText

  /** The value found at `line[1][0]` of an engine entry: a Python `str`, or some
      other object (a number, a list, `None`, ...). */
  datatype TextValue = Str(chars: string) | NonString

  /** One entry of the engine's result list. `Malformed` is an entry on which the
      lookup `line[1][0]` raises (too short, not indexable, ...); `Detection` is one
      on which it succeeds. */
  datatype EngineEntry = Malformed | Detection(text: TextValue)

  /** The line the extraction loop appends for one entry, if any: the stripped
      text, when the text is a string whose stripped form is non-empty. */
  function KeptText(e: EngineEntry): Option<string>
  {
    match e
    case Detection(Str(t)) => if Strip(t) != [] then Some(Strip(t)) else None
    case _ => None
  }

  predicate Keeps(e: EngineEntry) {
    KeptText(e).Some?
  }

  /** A line as the extraction loop stores it: non-empty, no surrounding whitespace. */
  predicate IsKeptLine(s: string) {
    s != [] && IsStripped(s)
  }

  predicate AllKept(lines: seq<string>) {
    forall i :: 0 <= i < |lines| ==> IsKeptLine(lines[i])
  }

  /** The lines kept from a list of entries, in entry order. */
  function ExtractLines(entries: seq<EngineEntry>): (lines: seq<string>)
    ensures |lines| <= |entries|
    ensures AllKept(lines)
  {
    if entries == [] then []
    else
      var init := ExtractLines(entries[..|entries| - 1]);
      match KeptText(entries[|entries| - 1])
      case Some(t) => init + [t]
      case None => init
  }

  /** The result of the engine call with Python's `or []` applied: `None` (and an
      empty list) give no entries. */
  function LinesOf(result: Option<seq<EngineEntry>>): seq<string>
  {
    match result
    case None => []
    case Some(entries) => ExtractLines(entries)
  }

  /** The loop of `run_ocr_on_image`: walks the entries in order, skips malformed
      ones and non-string texts, and appends each non-blank text stripped. */
  method RunOcrOnImage(result: Option<seq<EngineEntry>>) returns (pageLines: seq<string>)
    ensures pageLines == LinesOf(result)
    ensures AllKept(pageLines)
    ensures |pageLines| <= (if result.Some? then |result.value| else 0)
    ensures result == None || result == Some([]) ==> pageLines == []
  {
    var entries := if result.Some? then result.value else [];
    pageLines := [];
    for i := 0 to |entries|
      invariant pageLines == ExtractLines(entries[..i])
    {
      assert entries[..i + 1][..i] == entries[..i];
      match entries[i]
      case Malformed =>
      case Detection(text) =>
        if text.Str? && Strip(text.chars) != [] {
          pageLines := pageLines + [Strip(text.chars)];
        }
    }
    assert entries[..|entries|] == entries;
  }

  /** The positions of the entries that are kept, in increasing order. */
  function KeptIndices(entries: seq<EngineEntry>): (idx: seq<nat>)
    ensures forall k :: 0 <= k < |idx| ==> idx[k] < |entries| && Keeps(entries[idx[k]])
    ensures forall i :: 0 <= i < |entries| && Keeps(entries[i]) ==> i in idx
    ensures forall k, l :: 0 <= k < l < |idx| ==> idx[k] < idx[l]
  {
    if entries == [] then []
    else
      var init := KeptIndices(entries[..|entries| - 1]);
      assert forall i :: 0 <= i < |entries| - 1 ==> entries[..|entries| - 1][i] == entries[i];
      if Keeps(entries[|entries| - 1]) then init + [|entries| - 1] else init
  }

  /** Extraction is exactly selection: the k-th kept line is the stripped text of
      the k-th entry that qualifies, so the kept lines are those of all qualifying
      entries, in their original order, and nothing else. */
  lemma {:induction false} ExtractLinesSelects(entries: seq<EngineEntry>)
    ensures |ExtractLines(entries)| == |KeptIndices(entries)|
    ensures forall k :: 0 <= k < |KeptIndices(entries)| ==>
      Some(ExtractLines(entries)[k]) == KeptText(entries[KeptIndices(entries)[k]])
    decreases |entries|
  {
    if entries != [] {
      var n := |entries|;
      var init := entries[..n - 1];
      ExtractLinesSelects(init);
      var lines, idx := ExtractLines(init), KeptIndices(init);
      forall k | 0 <= k < |idx| ensures entries[idx[k]] == init[idx[k]] {
      }
      if Keeps(entries[n - 1]) {
        assert ExtractLines(entries) == lines + [KeptText(entries[n - 1]).value];
        assert KeptIndices(entries) == idx + [n - 1];
      } else {
        assert ExtractLines(entries) == lines;
        assert KeptIndices(entries) == idx;
      }
    }
  }

  /** The lines of a single entry: its kept text, if any. */
  lemma ExtractSingle(e: EngineEntry)
    ensures ExtractLines([e]) == (if Keeps(e) then [KeptText(e).value] else [])
  {
    assert [e][..0] == [];
  }

  /** Extraction distributes over concatenation of entry lists. */
  lemma {:induction false} ExtractLinesAppend(a: seq<EngineEntry>, b: seq<EngineEntry>)
    ensures ExtractLines(a + b) == ExtractLines(a) + ExtractLines(b)
    decreases |b|
  {
    if b == [] {
      assert a + b == a;
    } else {
      var b' := b[..|b| - 1];
      assert (a + b)[..|a + b| - 1] == a + b';
      ExtractLinesAppend(a, b');
    }
  }

  /** A malformed entry anywhere in the result is skipped without effect. */
  lemma MalformedIgnored(a: seq<EngineEntry>, b: seq<EngineEntry>)
    ensures ExtractLines(a + [Malformed] + b) == ExtractLines(a + b)
  {
    ExtractLinesAppend(a + [Malformed], b);
    ExtractLinesAppend(a, [Malformed]);
    ExtractLinesAppend(a, b);
    assert [Malformed][..0] == [];
  }

  /** The page text of the page loop: its lines joined by newlines, then stripped. */
  function PageText(lines: seq<string>): string
  {
    Strip(JoinWith("\n", lines))
  }

  /** For extracted lines the final strip of the page text changes nothing, and the
      page text is non-empty exactly when at least one line was kept. */
  lemma PageTextOfKept(lines: seq<string>)
    requires AllKept(lines)
    ensures PageText(lines) == JoinWith("\n", lines)
    ensures PageText(lines) != [] <==> lines != []
  {
    JoinOfStripped("\n", lines);
    StripIdempotent(JoinWith("\n", lines));
  }

  /** One processed page: its kept lines and its page text. */
  datatype Page = Page(lines: seq<string>, text: string)

  /** The page the loop body makes of one page's lines. */
  function ReadPage(lines: seq<string>): Page {
    Page(lines, PageText(lines))
  }

  predicate HasText(p: Page) {
    p.text != []
  }

  /** A page as the loop sees it for lines that extraction kept. */
  predicate WellFormed(p: Page) {
    AllKept(p.lines) && p.text == JoinWith("\n", p.lines)
  }

  lemma ReadPageWellFormed(lines: seq<string>)
    requires AllKept(lines)
    ensures WellFormed(ReadPage(lines))
  {
    PageTextOfKept(lines);
  }

  /** A well-formed page has text exactly when it has lines, and its text is then
      stripped and non-empty. */
  lemma WellFormedHasText(p: Page)
    requires WellFormed(p)
    ensures HasText(p) <==> p.lines != []
    ensures IsStripped(p.text)
  {
    JoinOfStripped("\n", p.lines);
  }
}
