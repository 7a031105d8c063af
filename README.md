# celery-map-reduce PDF pipeline, modelled in Dafny

This project models the sequential logic of a Celery/Django PDF pipeline.
`process_pdf_task` lists the document's pages `1..page_count` and cuts
them into chunks of two with `chunk_list`. For each chunk it chains
`extract_text_from_pdf` (read the chunk's pages with pdfplumber) and
`extract_named_entities`. `combine_result` runs once all chunks are done.
It sorts the chunk results by their first page and concatenates their
texts and entity lists.

A PDF is modelled as `Pdf = seq<string>`, the text of each page in order.
Python exceptions become `Errors.Result`. The modules follow the source
files and components:

- `Errors`: the two `IndexError`s the code can raise, and `Result`.
- `PageText`: the specification of the page loop that `src/foo/utils.py`
  and `pdf_text_extraction.py` both contain. `Extracted(pdf, pages, sep)`
  takes the separator as a parameter. Python list indexing is modelled
  exactly. Only `page_num <= page count` is guarded, so page `0` reads the
  last page, and a page number `<= -page count` raises `IndexError`.
- `Utils`: `get_no_of_pages` and `extract_text`. Its loop appends `"\n\n"`
  after each kept page.
- `PdfTextExtraction`: the stand-alone `extract_text_from_pdf`. Its loop
  appends `"\n\n\n"` after each kept page.
- `Chunking`: `chunk_list`. The method walks one shared iterator position
  and takes `islice`s until a take is empty.
- `Stages`: the `{text, pages}` and `{entities, text, pages}` records and
  the two per-chunk stages.
- `Aggregation`: `combine_result`. Python's `sorted` is modelled by a
  stable insertion sort. `StableSortUnique` shows that every stable sort
  gives the same sequence, so the choice of algorithm does not matter.
- `Pipeline`: the page list, the size-2 chunking, and the end-to-end
  theorem. Whatever order the chunk results arrive in, the combined text
  equals the text of all pages extracted at once.

Behaviour of the code worth knowing, all of it modelled:

- The entity stage returns `["entity1", "entity2", "entity3"]` whatever
  the text.
- A chunk size of 0 yields no chunks.
- The string called the separator (`"\n\n"` in `extract_text`,
  `"\n\n\n"` in `extract_text_from_pdf`) follows every kept page, the
  last one included.
- Page number 0 and negative page numbers pass the `<= page count` guard.
  Python's negative indexing maps them onto pages from the end.
- Both `extract_text` and `extract_text_from_pdf` default to
  `pages=[1, 2]` (`Utils.DefaultPages`, `PdfTextExtraction.DefaultPages`).

## Model

| member | source | states |
|---|---|---|
| `PageText.Extracted` | src/foo/utils.py:16-19 | The loop succeeds exactly when every requested page number is above `-page count`. Otherwise the error names the first page number Python cannot index, and every page number before it is `Readable`: either the `<= page count` guard skipped it, or Python can index it. |
| `PageText.ExtractedIsTerminatedSelection` | src/foo/utils.py:16-18 | The output is exactly the texts of the kept pages, in request order, each followed by the separator. An error is the selection's error. |
| `PageText.ExtractedAppend` | src/foo/utils.py:16-18 | Extraction distributes over concatenation of the page list: `pages = p + q` gives the text for `p` followed by the text for `q`, with the first error winning. |
| `PageText.SkipsMissingPage` | src/foo/utils.py:17 | A page number above the page count, wherever it appears, adds no text and raises nothing. |
| `PageText.PageZeroWrapsToLastPage` | src/foo/utils.py:17-18 | Page 0 passes the guard and reads the last page. On a PDF without pages it raises `IndexError`. |
| `PageText.RepeatedPageRepeatsText` | src/foo/utils.py:16-18 | A page requested twice contributes its text and separator twice. Nothing is deduplicated. |
| `PageText.SelectedInRange` | src/foo/utils.py:17-18 | When every page number names an existing page, the selection has one text per requested page, in order: `pdf[p - 1]` for page `p`. |
| `PageText.TerminatedLength` | src/foo/utils.py:18 | The output length is the total length of the page texts plus one separator length per kept page. |
| `Utils.PageCount` | src/foo/utils.py:4-9 | The page count is the number of pages. Page numbers `1..n` read the pages front to back, and page `n + 1` cannot be read. |
| `Utils.ExtractText` | src/foo/utils.py:11-19 | The guard-and-append loop returns `Extracted(pdf, pages, "\n\n")`: kept pages' texts in request order, each followed by `"\n\n"`. An empty page list gives `""`. |
| `Utils.DefaultPagesText` | src/foo/utils.py:11-19 | With the default `pages=[1, 2]`, the call reads the first two pages and skips the ones the PDF lacks. |
| `Utils.ExtractTextLength` | src/foo/utils.py:16-18 | The call succeeds exactly when the selection does. The text length is the total length of the kept pages' texts plus 2 per kept page. |
| `PdfTextExtraction.ExtractTextFromPdf` | pdf_text_extraction.py:3-10 | The same loop returns `Extracted(pdf, pages, "\n\n\n")`. An empty page list gives `""`. |
| `PdfTextExtraction.DiffersOnlyInSeparator` | pdf_text_extraction.py:7-9 | It succeeds or fails exactly when `extract_text` does, with the same error, and takes the same pages in the same order. Its text has exactly one more newline per kept page. |
| `Chunking.ChunkList` | src/foo/tasks.py:12-17 | Repeated takes from one shared iterator, stopping at the first empty take, yield exactly `Chunks(lst, chunkSize)`. |
| `Chunking.FlattenChunks` | src/foo/tasks.py:16-17 | For a positive chunk size, the joined chunks give back the list: same order, nothing dropped or repeated. |
| `Chunking.ChunkAt` | src/foo/tasks.py:16-17 | Chunk `i` is the slice of the list starting at `i * chunkSize`, at most `chunkSize` long. |
| `Chunking.ChunkSizes` | src/foo/tasks.py:16-17 | Every chunk holds between 1 and `chunkSize` items, and every chunk except the last is full. |
| `Chunking.ChunkCount` | src/foo/tasks.py:16-17 | There are `ceil(|lst| / chunkSize)` chunks. An empty list or a chunk size of 0 yields none. |
| `Stages.ExtractTextFromPdf` | src/foo/tasks.py:57-73 | The text stage fails exactly when `extract_text` fails on the chunk's pages. Otherwise it returns `extract_text`'s text tagged with the same pages. |
| `Stages.ExtractNamedEntities` | src/foo/tasks.py:76-88 | The entity stage passes text and pages through unchanged. Its entities are always `["entity1", "entity2", "entity3"]`. |
| `Stages.RunChunk` | src/foo/tasks.py:38-41 | The two-stage chain succeeds exactly when text extraction does. The record it yields has the chunk's pages, the fixed entities, and the extracted text. |
| `Aggregation.Combine` | src/foo/tasks.py:97-104 | The result is an error (`IndexError` from `pages[0]`) exactly when some result has no pages. No results give `("", [])`. |
| `Aggregation.CombineResult` | src/foo/tasks.py:92-104 | Sorting, then the loop that extends the entity list and appends the text, returns `Combine(results)`. |
| `Aggregation.SortSpec` | src/foo/tasks.py:98 | The sort orders the results by first page and keeps their multiset. It is stable: results with the same first page keep their arrival order. |
| `Aggregation.StableSortUnique` | src/foo/tasks.py:98 | Two sequences sorted by first page that agree on the order of the results under every key are equal. So any stable sort, Python's included, gives this model's order. |
| `Aggregation.CombineInPageOrder` | src/foo/tasks.py:98-104 | For every stable sort `s` of the results by first page, the combined text is the texts of `s` in turn, and the combined entities are the entity lists of `s` in turn. |
| `Aggregation.CombineSizes` | src/foo/tasks.py:100-104 | There is no deduplication. The entity count is the sum of the per-result counts, and the text length is the sum of the text lengths. |
| `Aggregation.StrictSortUnique` | src/foo/tasks.py:98 | A sequence strictly ordered by first page is the only sorted arrangement of its elements. |
| `Aggregation.CombineOrderIndependent` | src/foo/tasks.py:97-98 | When first pages are pairwise distinct, every permutation of the results combines to the same text and entities. The missing-page error is order-independent too. |
| `Pipeline.PageList` | src/foo/tasks.py:31 | The page list contains exactly the numbers `1..page_count`, once each, in strictly ascending order. |
| `Pipeline.PlannedChunks` | src/foo/tasks.py:31-41 | The size-2 chunks of the page list cover it exactly, in order. There are `ceil(page_count / 2)` of them. Chunk `i` starts at page `2i + 1`, so first pages strictly increase. Every page named exists. |
| `Pipeline.FivePages` | src/foo/tasks.py:31-41 | Five pages are planned as `[1, 2]`, `[3, 4]`, `[5]`. |
| `Pipeline.PlannedChunksSucceed` | src/foo/tasks.py:38-41 | Every planned chunk's stages succeed and keep the chunk's pages. |
| `Pipeline.ChunkResultsJoin` | src/foo/tasks.py:98-104 | Concatenating the chunk results in chunk order gives the extraction of all the chunks' pages at once, and the fixed entity list once per chunk. |
| `Pipeline.WholeDocumentText` | src/foo/utils.py:16-18 | Extracting pages `1..page_count` gives every page's text, each followed by `"\n\n"`. |
| `Pipeline.PipelineMatchesWholeDocument` | src/foo/tasks.py:31-44 | In any arrival order, combining the chunk results gives the whole-document extraction `extract_text(1..n)`. That is every page's text in page order, each followed by `"\n\n"`, plus `ceil(n / 2)` copies of the entity list. |

## Left out

- Celery orchestration (`chord`, `group`, `chain`, `apply_async`, queue routing, `@shared_task`) is left out. Its guarantees are about concurrency: run each chain once, then `combine_result` once after all succeed. The model keeps only the sequential functions it connects. Arrival order is a free permutation in `Pipeline.PipelineMatchesWholeDocument`.
- Retries, timeouts, cancellation and a coordinator state machine are left out. The code has none of them.
- The Django ORM is left out: `apps.get_model`, `objects.get`, `save`, and the `Document` record in `src/foo/models.py`. The model stops at the combined `(text, entities)` pair. `Document` declares no `entities` field, so that half of the result is not stored.
- pdfplumber is left out: opening the file and `extract_text()` on a page. The PDF is a sequence of page texts. The case where the library returns `None` for a page, which makes `+ "\n\n"` raise `TypeError`, is not modelled.
- Logging, `print`, the constant return values of the tasks, and the `__main__` block of `pdf_text_extraction.py` are left out. They are output only.
- `Chunking.ChunkList`: the chunk size is a `nat`. A negative size, which makes `islice` raise `ValueError`, and `None`, which means "no limit", are not modelled. The pipeline always passes 2.
- `Utils.ExtractText`: non-integer page numbers are not modelled. Page numbers are `int`.
