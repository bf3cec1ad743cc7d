/** Optional values and success-or-error results: Python's `None` and raised exceptions made explicit. */
module Wrappers {

  /** A value that may be absent, as a Python function that may return `None`. */
  datatype Option<+T> = None | Some(value: T)

  /** Either a value or the error that was raised instead. */
  datatype Result<+R, +E> = Success(value: R) | Failure(error: E)
}

/** The Python exceptions the modelled code can raise and let escape to its caller. */
module Exceptions {

  datatype PyError =
    | IndexError                   // `url.split('/')[-2]` on a string without any '/'
    | NoTranscriptFound(code: string)
    | TranscriptsDisabledError
    | ServiceError(message: string)
    | FetchError                   // fetching a listed track's segments failed
    | UnboundLocalError(name: string)
}
