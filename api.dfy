/** Values exchanged between the browser controller and the server: the
    status vocabulary, the records the upload endpoint returns, and the
    error and option wrappers both sides use. */
module Api {

  datatype Option<+T> = None | Some(value: T)

  /** An HTTP error response: status code and detail text. */
  datatype HttpError = HttpError(code: int, detail: string)

  datatype Result<+T> = Ok(value: T) | Err(error: HttpError)

  /** A clock reading (`datetime.now()`); its ISO rendering is not modelled,
      only its order. */
  type Timestamp = nat

  /** The `status` column of the `files` table and the `status` field of the
      status endpoint's reply. */
  datatype Status = Uploaded | Queued | Processing | Completed | Failed
  {
    /** The two statuses at which the browser stops polling. */
    predicate IsTerminal() {
      this == Completed || this == Failed
    }
  }

  /** One element of the upload endpoint's reply. */
  datatype UploadedFile = UploadedFile(id: string, name: string, status: Status, createdAt: Timestamp)
}
