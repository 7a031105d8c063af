/** The two per-chunk stages of `src/foo/tasks.py`, as transforms of the
    records the tasks pass along the chain: `extract_text_from_pdf` builds
    `{text, pages}` and `extract_named_entities` adds `entities`. */
module Stages {
  import opened Errors
  import opened PageText
  import Utils

  /** `{"text": ..., "pages": ...}` returned by the text stage. */
  datatype TextResult = TextResult(text: string, pages: seq<int>)

  /** `{"entities": ..., "text": ..., "pages": ...}` returned by the entity
      stage and consumed by the aggregation. */
  datatype EntityResult = EntityResult(entities: seq<string>, text: string, pages: seq<int>)

  /** The entity list the entity stage attaches to every chunk, whatever its
      text. */
  const Entities: seq<string> := ["entity1", "entity2", "entity3"]

  /** `extract_text_from_pdf(document_id, pages)`: the text `extract_text`
      produces for the chunk's pages, tagged with those pages. */
  function ExtractTextFromPdf(pdf: Pdf, pages: seq<int>): (r: Result<TextResult>)
    ensures r.Ok? <==> forall i :: 0 <= i < |pages| ==> Readable(pdf, pages[i])
    ensures r.Ok? ==> r.value.pages == pages && Extracted(pdf, pages, Utils.Separator) == Ok(r.value.text)
    ensures r.Err? ==> Extracted(pdf, pages, Utils.Separator) == Err(r.error)
  {
    match Extracted(pdf, pages, Utils.Separator)
    case Ok(text) => Ok(TextResult(text, pages))
    case Err(e) => Err(e)
  }

  /** `extract_named_entities(result)`: passes the text and the pages through
      unchanged and attaches the fixed entity list. */
  function ExtractNamedEntities(result: TextResult): (r: EntityResult)
    ensures r.text == result.text && r.pages == result.pages
    ensures r.entities == ["entity1", "entity2", "entity3"]
  {
    EntityResult(Entities, result.text, result.pages)
  }

  /** One `chain(extract_text_from_pdf.s(document_id, pages),
      extract_named_entities.s())`: the two stages in sequence; an exception
      in the text stage means the entity stage never runs. */
  function RunChunk(pdf: Pdf, pages: seq<int>): (r: Result<EntityResult>)
    ensures r.Ok? <==> Extracted(pdf, pages, Utils.Separator).Ok?
    ensures r.Ok? ==>
      r.value.pages == pages && r.value.entities == Entities &&
      Extracted(pdf, pages, Utils.Separator) == Ok(r.value.text)
  {
    match ExtractTextFromPdf(pdf, pages)
    case Ok(t) => Ok(ExtractNamedEntities(t))
    case Err(e) => Err(e)
  }
}
