/** Optional values, the failures the pipeline distinguishes, and results that carry one or the other. */
module Outcomes {

  datatype Option<T> = None | Some(value: T)

  /** The ways a ranking request can fail. */
  datatype Error =
    | UnsupportedFormat(what: string)  // ValueError for an extension the pipeline does not read
    | ArchiveError                     // an uploaded ZIP that cannot be opened or unpacked
    | ExtractionError(path: string)    // a document whose text could not be read
    | NoExtractableText                // no resolved document yielded text
    | ValidationError                  // request parameters rejected before processing
    | InternalError                    // any other exception (a missing key, for one)

  datatype Result<T> = Ok(value: T) | Err(error: Error)
}
