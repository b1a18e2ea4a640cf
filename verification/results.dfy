/** Failure-carrying values shared by the codec and the merger. */
module Results {

  /** A value that may be missing (a part that did not parse). */
  datatype Option<+T> = None | Some(value: T)

  /** Either a computed value or the reason none could be computed. */
  datatype Result<+T, +E> = Ok(value: T) | Err(error: E)
}
