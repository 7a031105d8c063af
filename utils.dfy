/** `src/foo/utils.py`: the page count and the text of selected pages of a
    PDF, with the PDF given as its page texts. */
module Utils {
  import opened Errors
  import opened PageText

  /** Appended after the text of every page `extract_text` keeps, the last
      one included: a terminator rather than a separator between pages.  The
      name follows the `sep` parameter of `PageText.Extracted`. */
  const Separator: string := "\n\n"

  /** The page list `extract_text` reads when its caller gives none. */
  const DefaultPages: seq<int> := [1, 2]

  /** `get_no_of_pages`: how many pages the PDF has, that is, page numbers
      `1..n` read the pages front to back and page `n + 1` cannot be read. */
  function PageCount(pdf: Pdf): (n: nat)
    ensures n == |pdf|
    ensures forall p :: 1 <= p <= n ==> PageTextAt(pdf, p) == Ok(pdf[p - 1])
    ensures PageTextAt(pdf, n + 1).Err?
  {
    |pdf|
  }

  /** `extract_text`: walks the requested page numbers in order, skips the
      ones beyond the page count, and appends each other page's text and a
      separator; a page number Python cannot index raises. */
  method ExtractText(pdf: Pdf, pages: seq<int>) returns (r: Result<string>)
    ensures r == Extracted(pdf, pages, Separator)
    ensures pages == [] ==> r == Ok("")
  {
    var text := "";
    assert pages[0..] == pages;
    ThenUnitLeft(Extracted(pdf, pages, Separator));
    for k := 0 to |pages|
      invariant Extracted(pdf, pages, Separator) == Then(Ok(text), Extracted(pdf, pages[k..], Separator))
    {
      var pageNum := pages[k];
      assert pages[k..][0] == pageNum && pages[k..][1..] == pages[k + 1..];
      ThenAssociative(Ok(text), Piece(pdf, pageNum, Separator), Extracted(pdf, pages[k + 1..], Separator));
      if pageNum <= PageCount(pdf) {
        var page := PageTextAt(pdf, pageNum);
        if page.Err? {
          return Err(page.error);
        }
        assert text + (page.value + Separator) == text + page.value + Separator;
        text := text + page.value + Separator;
      } else {
        assert text + "" == text;
      }
    }
    assert pages[|pages|..] == [];
    assert text + "" == text;
    return Ok(text);
  }

  /** With the default page list, the first two pages are read; a page the
      PDF does not have is skipped. */
  lemma DefaultPagesText(pdf: Pdf)
    ensures |pdf| >= 2 ==> Extracted(pdf, DefaultPages, Separator) == Ok(pdf[0] + Separator + pdf[1] + Separator)
    ensures |pdf| == 1 ==> Extracted(pdf, DefaultPages, Separator) == Ok(pdf[0] + Separator)
    ensures |pdf| == 0 ==> Extracted(pdf, DefaultPages, Separator) == Ok("")
  {
    ExtractedAppend(pdf, [1], [2], Separator);
    assert [1] + [2] == DefaultPages;
    assert [1][1..] == [] && [2][1..] == [];
    if |pdf| >= 1 {
      assert pdf[0] + Separator + "" == pdf[0] + Separator;
    }
    if |pdf| >= 2 {
      assert pdf[1] + Separator + "" == pdf[1] + Separator;
      assert (pdf[0] + Separator) + (pdf[1] + Separator) == pdf[0] + Separator + pdf[1] + Separator;
    }
  }

  /** The length of the text is the total length of the kept pages' texts
      plus two characters per kept page; nothing is deduplicated, so a page
      requested twice counts twice. */
  lemma {:induction false} ExtractTextLength(pdf: Pdf, pages: seq<int>)
    ensures Selected(pdf, pages).Ok? <==> Extracted(pdf, pages, Separator).Ok?
    ensures Selected(pdf, pages).Ok? ==>
      |Extracted(pdf, pages, Separator).value| ==
        |Terminated(Selected(pdf, pages).value, "")| + 2 * |Selected(pdf, pages).value|
  {
    ExtractedIsTerminatedSelection(pdf, pages, Separator);
    if Selected(pdf, pages).Ok? {
      TerminatedLength(Selected(pdf, pages).value, Separator);
    }
  }
}
