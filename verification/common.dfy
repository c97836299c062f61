/** Values shared by every part of the reconciliation model: optional values,
    the outcome of a remote request, and the process-wide session state
    (the in-flight guard and the title index). */
module Common {

  /** A value that may be absent: JavaScript's `undefined`. */
  datatype Option<T> = None | Some(value: T)

  /** Identifier of a page (record) in the remote database. */
  type PageId = string

  /** Download URL returned by the asset upload. */
  type Url = string

  /** The HTTP status the record store answers when a write conflicts. */
  const ConflictStatus: int := 409

  /** What one remote request produced, as the caller's `try`/`catch` sees it:
      a response body, an error carrying an HTTP response with its status
      (`error.response.status`), or an error without any response
      (network failure, timeout). */
  datatype Outcome<T> = Success(value: T) | HttpError(status: int) | NoResponse

  /** The two process-wide maps of a reconciliation script:
      `processing` holds the base names whose call is in flight
      (`processingFiles`), and `index` maps a title to the page id last
      recorded for it (`fileToPageId`). */
  datatype Session = Session(processing: set<string>, index: map<string, PageId>)
}
