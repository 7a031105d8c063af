/** The exceptions the modelled Python code can raise, and a result type that
    carries either a value or the exception that aborted the computation. */
module Errors {

  datatype Error =
      /** `IndexError` from `pdf.pages[page_num - 1]`: the page number lies
          below the range Python's negative indexing can reach. */
    | PageIndexError(pageNum: int)
      /** `IndexError` from the sort key `x["pages"][0]`: a chunk result
          whose page list is empty. */
    | MissingFirstPage

  datatype Result<T> = Ok(value: T) | Err(error: Error)
}
