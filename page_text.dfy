/** The page-by-page text extraction loop shared by `extract_text` and by the
    stand-alone `extract_text_from_pdf` script, modelled on an abstract PDF:
    the sequence of the texts pdfplumber extracts from its pages.  The two
    copies of the loop differ only in the string appended after each page,
    so the specification here takes that string as a parameter, `sep`.  It
    follows every kept page, the last one too, so it terminates each page's
    text rather than separating pages (see `Terminated`). */
module PageText {
  import opened Errors

  /** A PDF as pdfplumber shows it: `pdf[i]` is the text of page `i + 1`. */
  type Pdf = seq<string>

  /** `pdf.pages[pageNum - 1].extract_text()` with Python's list indexing:
      a negative index counts back from the last page, and an index outside
      `[-|pdf|, |pdf|)` raises `IndexError`. */
  function PageTextAt(pdf: Pdf, pageNum: int): Result<string>
  {
    var i := pageNum - 1;
    if 0 <= i < |pdf| then Ok(pdf[i])
    else if -|pdf| <= i < 0 then Ok(pdf[|pdf| + i])
    else Err(PageIndexError(pageNum))
  }

  /** A page number the loop can get past: either the `<= page count` guard
      skips it, or Python can index it (possibly from the end). */
  predicate Readable(pdf: Pdf, pageNum: int)
  {
    -|pdf| < pageNum
  }

  /** What one iteration of the loop appends to the accumulated text. */
  function Piece(pdf: Pdf, pageNum: int, sep: string): Result<string>
  {
    if pageNum > |pdf| then Ok("")
    else match PageTextAt(pdf, pageNum)
      case Ok(t) => Ok(t + sep)
      case Err(e) => Err(e)
  }

  /** Two outcomes one after the other: the texts concatenate, and the first
      exception aborts the rest. */
  function Then(a: Result<string>, b: Result<string>): Result<string>
  {
    if a.Err? then a else if b.Err? then b else Ok(a.value + b.value)
  }

  /** The text the loop returns for `pages`, or the exception of the first
      page number it cannot index. */
  function Extracted(pdf: Pdf, pages: seq<int>, sep: string): (r: Result<string>)
    ensures r.Ok? <==> forall i :: 0 <= i < |pages| ==> Readable(pdf, pages[i])
    ensures r.Err? ==>
      exists i :: 0 <= i < |pages| && !Readable(pdf, pages[i]) &&
        r.error == PageIndexError(pages[i]) &&
        forall j :: 0 <= j < i ==> Readable(pdf, pages[j])
  {
    if pages == [] then Ok("")
    else
      var rest := Extracted(pdf, pages[1..], sep);
      var r := Then(Piece(pdf, pages[0], sep), rest);
      assert r.Err? && Readable(pdf, pages[0]) ==> rest.Err? && r == rest;
      assert r.Err? && Readable(pdf, pages[0]) ==>
        exists i :: 1 <= i < |pages| && !Readable(pdf, pages[i]) &&
          r.error == PageIndexError(pages[i]) &&
          forall j :: 0 <= j < i ==> Readable(pdf, pages[j]);
      r
  }

  /** The texts of the pages that pass the guard, in the order requested
      (repetitions included), or the exception of the first page that
      cannot be indexed. */
  function Selected(pdf: Pdf, pages: seq<int>): Result<seq<string>>
  {
    if pages == [] then Ok([])
    else if pages[0] > |pdf| then Selected(pdf, pages[1..])
    else match PageTextAt(pdf, pages[0])
      case Err(e) => Err(e)
      case Ok(t) =>
        match Selected(pdf, pages[1..])
        case Err(e) => Err(e)
        case Ok(ts) => Ok([t] + ts)
  }

  /** Each text followed by the separator, all concatenated. */
  function Terminated(texts: seq<string>, sep: string): string
  {
    if texts == [] then "" else texts[0] + sep + Terminated(texts[1..], sep)
  }

  /** The loop's output is exactly the selected page texts, each followed by
      the separator; the separator plays no part in which pages are taken. */
  lemma {:induction false} ExtractedIsTerminatedSelection(pdf: Pdf, pages: seq<int>, sep: string)
    ensures Selected(pdf, pages).Err? ==>
      Extracted(pdf, pages, sep) == Err(Selected(pdf, pages).error)
    ensures Selected(pdf, pages).Ok? ==>
      Extracted(pdf, pages, sep) == Ok(Terminated(Selected(pdf, pages).value, sep))
  {
    if pages != [] {
      ExtractedIsTerminatedSelection(pdf, pages[1..], sep);
      var rest := Selected(pdf, pages[1..]);
      if pages[0] > |pdf| {
        if rest.Ok? {
          assert "" + Terminated(rest.value, sep) == Terminated(rest.value, sep);
        }
      } else if PageTextAt(pdf, pages[0]).Ok? && rest.Ok? {
        var t, ts := PageTextAt(pdf, pages[0]).value, rest.value;
        assert ([t] + ts)[0] == t && ([t] + ts)[1..] == ts;
        assert Terminated([t] + ts, sep) == t + sep + Terminated(ts, sep);
      }
    }
  }

  lemma ThenAssociative(a: Result<string>, b: Result<string>, c: Result<string>)
    ensures Then(Then(a, b), c) == Then(a, Then(b, c))
  {
    if a.Ok? && b.Ok? && c.Ok? {
      assert (a.value + b.value) + c.value == a.value + (b.value + c.value);
    }
  }

  lemma ThenUnitLeft(a: Result<string>)
    ensures Then(Ok(""), a) == a
  {
    if a.Ok? { assert "" + a.value == a.value; }
  }

  /** Extraction distributes over concatenation of the page list: running the
      loop on `p + q` is running it on `p`, then on `q`. */
  lemma {:induction false} ExtractedAppend(pdf: Pdf, p: seq<int>, q: seq<int>, sep: string)
    ensures Extracted(pdf, p + q, sep) == Then(Extracted(pdf, p, sep), Extracted(pdf, q, sep))
  {
    if p == [] {
      assert p + q == q;
      var e := Extracted(pdf, q, sep);
      if e.Ok? { assert "" + e.value == e.value; }
    } else {
      assert (p + q)[0] == p[0];
      assert (p + q)[1..] == p[1..] + q;
      ExtractedAppend(pdf, p[1..], q, sep);
      ThenAssociative(Piece(pdf, p[0], sep), Extracted(pdf, p[1..], sep), Extracted(pdf, q, sep));
    }
  }

  /** A page number beyond the page count is skipped wherever it appears: it
      adds no text and raises nothing. */
  lemma SkipsMissingPage(pdf: Pdf, p: seq<int>, pageNum: int, q: seq<int>, sep: string)
    requires pageNum > |pdf|
    ensures Extracted(pdf, p + [pageNum] + q, sep) == Extracted(pdf, p + q, sep)
  {
    ExtractedAppend(pdf, p + [pageNum], q, sep);
    ExtractedAppend(pdf, p, [pageNum], sep);
    ExtractedAppend(pdf, p, q, sep);
    assert Extracted(pdf, [pageNum], sep) == Ok("") by {
      assert [pageNum][1..] == [];
    }
    var e := Extracted(pdf, p, sep);
    assert Then(e, Ok("")) == e by {
      if e.Ok? { assert e.value + "" == e.value; }
    }
  }

  /** Only the upper bound is guarded: page number 0 passes the guard and
      Python's index -1 reads the last page, while on a PDF without pages it
      raises. */
  lemma PageZeroWrapsToLastPage(pdf: Pdf, sep: string)
    ensures pdf != [] ==> Extracted(pdf, [0], sep) == Ok(pdf[|pdf| - 1] + sep)
    ensures pdf == [] ==> Extracted(pdf, [0], sep) == Err(PageIndexError(0))
  {
    assert [0][1..] == [];
    if pdf != [] {
      assert pdf[|pdf| - 1] + sep + "" == pdf[|pdf| - 1] + sep;
    }
  }

  /** Nothing is deduplicated: a page requested twice contributes its text
      twice. */
  lemma RepeatedPageRepeatsText(pdf: Pdf, pageNum: int, sep: string)
    requires 1 <= pageNum <= |pdf|
    ensures Extracted(pdf, [pageNum, pageNum], sep) ==
      Ok(pdf[pageNum - 1] + sep + pdf[pageNum - 1] + sep)
  {
    ExtractedAppend(pdf, [pageNum], [pageNum], sep);
    assert [pageNum] + [pageNum] == [pageNum, pageNum];
    assert [pageNum][1..] == [];
    var t := pdf[pageNum - 1] + sep;
    assert Extracted(pdf, [pageNum], sep) == Ok(t) by {
      assert t + "" == t;
    }
    assert t + t == pdf[pageNum - 1] + sep + pdf[pageNum - 1] + sep;
  }

  /** For page numbers that all name existing pages, the selection is the
      requested pages' texts, one for one and in order. */
  lemma {:induction false} SelectedInRange(pdf: Pdf, pages: seq<int>)
    requires forall i :: 0 <= i < |pages| ==> 1 <= pages[i] <= |pdf|
    ensures Selected(pdf, pages).Ok?
    ensures |Selected(pdf, pages).value| == |pages|
    ensures forall i :: 0 <= i < |pages| ==> Selected(pdf, pages).value[i] == pdf[pages[i] - 1]
  {
    if pages != [] {
      SelectedInRange(pdf, pages[1..]);
      var ts := Selected(pdf, pages[1..]).value;
      assert Selected(pdf, pages).value == [pdf[pages[0] - 1]] + ts;
      forall i | 1 <= i < |pages|
        ensures Selected(pdf, pages).value[i] == pdf[pages[i] - 1]
      {
        assert pages[1..][i - 1] == pages[i];
      }
    }
  }

  /** The text's length is the selected texts' total length plus one
      separator per selected page. */
  lemma {:induction false} TerminatedLength(texts: seq<string>, sep: string)
    ensures |Terminated(texts, sep)| == |Terminated(texts, "")| + |texts| * |sep|
  {
    if texts != [] {
      TerminatedLength(texts[1..], sep);
      assert |texts| * |sep| == |texts[1..]| * |sep| + |sep|;
    }
  }
}
