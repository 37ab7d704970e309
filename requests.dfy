/** What both edit handlers take in and what they give back: a request to
    `/edit`, the page they render or the error they pass on, and the failures
    the surrounding system can inject. */
module Requests {
  import opened Wrappers

  /** `req.method`: the edit route answers every method, but only GET and POST are
      told apart. */
  datatype Method = Get | Post | Other

  /** `req.query.filename` and, for a POST, `req.body.content`. */
  datatype EditRequest = EditRequest(verb: Method, filename: string, content: string)

  /** Which way an edit request ended when it rendered a page. */
  datatype Outcome =
    | Loaded(content: string)
    | Saved(content: string)
    | ValidationFailed(content: string, message: string)
    | SaveFailed(content: string, message: string)

  /** Errors the handlers throw and hand to the next error handler instead of
      rendering a page; each names the path involved. */
  datatype RequestError =
    | OutsideEditableDir(filePath: string)
    | CouldNotCreateDirectories(filePath: string)
    | CouldNotList(editableDir: string)
    | StatFailed(filePath: string)

  /** The values the `edit` template receives. */
  datatype EditView = EditView(title: string, content: string, editError: string, editSuccess: string)

  /** One row of the `list` template. */
  datatype ListingEntry = ListingEntry(name: string, url: string)

  /** Failures of the filesystem calls, decided by the environment. */
  datatype Faults = Faults(mkdirFails: bool, writeFails: bool, readFails: bool)

  const NoFaults := Faults(false, false, false)

  const SaveError: string := "Could not save the file"

  const SavedMessage: string := "File saved."

  /** The rendered page for an outcome, or the thrown error unchanged. */
  function Response(r: Result<Outcome, RequestError>, view: Outcome -> EditView): Result<EditView, RequestError> {
    match r
    case Ok(o) => Ok(view(o))
    case Err(e) => Err(e)
  }
}
