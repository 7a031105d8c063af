/** `process_pdf_task` of `src/foo/tasks.py` with the task queue taken out:
    the page list `1..page_count` is cut into chunks of two pages, each
    chunk runs through the text and entity stages, and `combine_result`
    merges the chunk results in whatever order they arrive. */
module Pipeline {
  import opened Errors
  import opened PageText
  import Utils
  import opened Chunking
  import opened Stages
  import opened Aggregation

  /** The chunk size `process_pdf_task` passes to `chunk_list`. */
  const ChunkSize: nat := 2

  /** `list(range(1, page_count + 1))`: every page number of the document,
      once each, in ascending order. */
  function PageList(pageCount: nat): (pages: seq<int>)
    ensures |pages| == pageCount
    ensures forall p :: p in pages <==> 1 <= p <= pageCount
    ensures forall i, j :: 0 <= i < j < |pages| ==> pages[i] < pages[j]
  {
    var pages := seq(pageCount, i => i + 1);
    assert forall p :: 1 <= p <= pageCount ==> p in pages by {
      forall p | 1 <= p <= pageCount ensures p in pages {
        assert pages[p - 1] == p;
      }
    }
    pages
  }

  /** `chunk_list(pages, 2)` over that page list. */
  function PlanChunks(pageCount: nat): seq<seq<int>>
  {
    Chunks(PageList(pageCount), ChunkSize)
  }

  /** `n` copies of `s`, concatenated. */
  function Repeat<T>(s: seq<T>, n: nat): seq<T>
  {
    if n == 0 then [] else s + Repeat(s, n - 1)
  }

  /** The planned chunks cover the pages `1..pageCount` exactly, in order;
      there are `ceil(pageCount / 2)` of them; chunk `i` starts at page
      `2 * i + 1`, so the first pages are strictly increasing and pairwise
      distinct; and every page a chunk names exists. */
  lemma PlannedChunks(pageCount: nat)
    ensures Flatten(PlanChunks(pageCount)) == PageList(pageCount)
    ensures |PlanChunks(pageCount)| == (pageCount + 1) / 2
    ensures forall i :: 0 <= i < |PlanChunks(pageCount)| ==>
      PlanChunks(pageCount)[i] != [] && PlanChunks(pageCount)[i][0] == 2 * i + 1
    ensures forall i, p :: 0 <= i < |PlanChunks(pageCount)| && p in PlanChunks(pageCount)[i] ==>
      1 <= p <= pageCount
  {
    var pages := PageList(pageCount);
    var chunks := PlanChunks(pageCount);
    FlattenChunks(pages, ChunkSize);
    ChunkCount(pages, ChunkSize);
    forall i | 0 <= i < |chunks|
      ensures chunks[i] != [] && chunks[i][0] == 2 * i + 1
      ensures forall p :: p in chunks[i] ==> 1 <= p <= pageCount
    {
      ChunkAt(pages, ChunkSize, i);
      var lo := i * ChunkSize;
      assert chunks[i] == pages[lo..Min(lo + ChunkSize, |pages|)];
      assert chunks[i][0] == pages[lo];
      forall p | p in chunks[i] ensures 1 <= p <= pageCount {
        assert p in pages;
      }
    }
  }

  /** Every page a planned chunk names exists, so every chunk's stages
      succeed. */
  lemma PlannedChunksSucceed(pdf: Pdf, i: nat)
    requires i < |PlanChunks(|pdf|)|
    ensures RunChunk(pdf, PlanChunks(|pdf|)[i]).Ok?
    ensures RunChunk(pdf, PlanChunks(|pdf|)[i]).value.pages == PlanChunks(|pdf|)[i]
  {
    PlannedChunks(|pdf|);
    var chunk := PlanChunks(|pdf|)[i];
    forall k | 0 <= k < |chunk| ensures Readable(pdf, chunk[k]) {
      assert chunk[k] in chunk;
    }
  }

  /** Combining chunk results in chunk order reproduces extraction of all
      the chunks' pages at once, with one copy of the entity list per
      chunk. */
  lemma {:induction false} ChunkResultsJoin(pdf: Pdf, chunks: seq<seq<int>>, rs: seq<EntityResult>)
    requires |rs| == |chunks|
    requires forall i :: 0 <= i < |chunks| ==> RunChunk(pdf, chunks[i]) == Ok(rs[i])
    ensures Extracted(pdf, Flatten(chunks), Utils.Separator) == Ok(ConcatTexts(rs))
    ensures ConcatEntities(rs) == Repeat(Entities, |rs|)
  {
    if chunks == [] {
    } else {
      assert RunChunk(pdf, chunks[0]) == Ok(rs[0]);
      forall i | 0 <= i < |chunks[1..]| ensures RunChunk(pdf, chunks[1..][i]) == Ok(rs[1..][i]) {
        assert RunChunk(pdf, chunks[i + 1]) == Ok(rs[i + 1]);
      }
      ChunkResultsJoin(pdf, chunks[1..], rs[1..]);
      ExtractedAppend(pdf, chunks[0], Flatten(chunks[1..]), Utils.Separator);
    }
  }

  /** Extracting every page of the document in order gives each page's text
      followed by the separator. */
  lemma WholeDocumentText(pdf: Pdf)
    ensures Extracted(pdf, PageList(|pdf|), Utils.Separator) == Ok(Terminated(pdf, Utils.Separator))
  {
    var pages := PageList(|pdf|);
    SelectedInRange(pdf, pages);
    assert Selected(pdf, pages).value == pdf;
    ExtractedIsTerminatedSelection(pdf, pages, Utils.Separator);
  }

  /** The result of a whole run: whatever order the chunk results arrive
      in, combining them gives the text of every page in page order, each
      followed by the separator (the text `extract_text` gives for all
      pages at once), and the fixed entity list once per chunk. */
  lemma PipelineMatchesWholeDocument(pdf: Pdf, rs: seq<EntityResult>, arrived: seq<EntityResult>)
    requires |rs| == |PlanChunks(|pdf|)|
    requires forall i :: 0 <= i < |rs| ==> RunChunk(pdf, PlanChunks(|pdf|)[i]) == Ok(rs[i])
    requires multiset(arrived) == multiset(rs)
    ensures Combine(arrived).Ok?
    ensures Ok(Combine(arrived).value.text) == Extracted(pdf, PageList(|pdf|), Utils.Separator)
    ensures Combine(arrived).value.text == Terminated(pdf, Utils.Separator)
    ensures Combine(arrived).value.entities == Repeat(Entities, (|pdf| + 1) / 2)
  {
    var chunks := PlanChunks(|pdf|);
    PlannedChunks(|pdf|);
    forall i | 0 <= i < |rs| ensures Key(rs[i]) == 2 * i + 1 && rs[i].pages != [] {
      assert RunChunk(pdf, chunks[i]) == Ok(rs[i]);
    }
    assert HasPages(rs);
    assert SortedByKey(rs);
    assert DistinctKeys(rs);
    CombineOrderIndependent(rs, arrived);
    CombineInPageOrder(rs, rs);
    ChunkResultsJoin(pdf, chunks, rs);
    WholeDocumentText(pdf);
  }

  /** A worked example: five pages make the chunks
      `[1, 2]`, `[3, 4]` and `[5]`. */
  lemma FivePages()
    ensures PlanChunks(5) == [[1, 2], [3, 4], [5]]
  {
    var pages := PageList(5);
    assert pages == [1, 2, 3, 4, 5];
    assert pages[2..][2..] == [5] && pages[2..][..2] == [3, 4] && pages[..2] == [1, 2];
    assert Chunks([5], ChunkSize) == [[5]] by {
      assert [5][1..] == [] && [5][..1] == [5];
    }
    assert Chunks(pages[2..], ChunkSize) == [[3, 4]] + Chunks([5], ChunkSize);
  }
}
