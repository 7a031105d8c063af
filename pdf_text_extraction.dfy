/** `pdf_text_extraction.py`: a stand-alone copy of the page loop of
    `extract_text` that ends every page with three newlines instead of two. */
module PdfTextExtraction {
  import opened Errors
  import opened PageText
  import Utils

  /** Appended after the text of every page `extract_text_from_pdf` keeps,
      the last one included: a terminator rather than a separator between
      pages.  The name follows the `sep` parameter of `PageText.Extracted`. */
  const Separator: string := "\n\n\n"

  /** The page list `extract_text_from_pdf` reads when its caller gives
      none. */
  const DefaultPages: seq<int> := [1, 2]

  /** `extract_text_from_pdf`: the same guard-and-append loop as
      `Utils.ExtractText`, with its own separator. */
  method ExtractTextFromPdf(pdf: Pdf, pages: seq<int>) returns (r: Result<string>)
    ensures r == Extracted(pdf, pages, Separator)
    ensures pages == [] ==> r == Ok("")
  {
    var text := "";
    assert pages[0..] == pages;
    ThenUnitLeft(Extracted(pdf, pages, Separator));
    for k := 0 to |pages|
      invariant Extracted(pdf, pages, Separator) == Then(Ok(text), Extracted(pdf, pages[k..], Separator))
    {
      var pageNum := pages[k];
      assert pages[k..][0] == pageNum && pages[k..][1..] == pages[k + 1..];
      ThenAssociative(Ok(text), Piece(pdf, pageNum, Separator), Extracted(pdf, pages[k + 1..], Separator));
      if pageNum <= |pdf| {
        var page := PageTextAt(pdf, pageNum);
        if page.Err? {
          return Err(page.error);
        }
        assert text + (page.value + Separator) == text + page.value + Separator;
        text := text + page.value + Separator;
      } else {
        assert text + "" == text;
      }
    }
    assert pages[|pages|..] == [];
    assert text + "" == text;
    return Ok(text);
  }

  /** Both copies of the loop take the same pages in the same order and fail
      on the same page number; this one's text is the other's with one more
      newline after each kept page. */
  lemma DiffersOnlyInSeparator(pdf: Pdf, pages: seq<int>)
    ensures Extracted(pdf, pages, Separator).Ok? == Extracted(pdf, pages, Utils.Separator).Ok?
    ensures Extracted(pdf, pages, Separator).Err? ==>
      Extracted(pdf, pages, Separator) == Extracted(pdf, pages, Utils.Separator)
    ensures Selected(pdf, pages).Ok? ==>
      Extracted(pdf, pages, Separator) == Ok(Terminated(Selected(pdf, pages).value, "\n\n\n")) &&
      Extracted(pdf, pages, Utils.Separator) == Ok(Terminated(Selected(pdf, pages).value, "\n\n"))
    ensures Extracted(pdf, pages, Separator).Ok? ==>
      Selected(pdf, pages).Ok? && Extracted(pdf, pages, Utils.Separator).Ok? &&
      |Extracted(pdf, pages, Separator).value| ==
        |Extracted(pdf, pages, Utils.Separator).value| + |Selected(pdf, pages).value|
  {
    ExtractedIsTerminatedSelection(pdf, pages, Separator);
    ExtractedIsTerminatedSelection(pdf, pages, Utils.Separator);
    if Selected(pdf, pages).Ok? {
      TerminatedLength(Selected(pdf, pages).value, Separator);
      TerminatedLength(Selected(pdf, pages).value, Utils.Separator);
    }
  }
}
