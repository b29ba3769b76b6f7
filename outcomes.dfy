/** Optional values and the run-time faults (Go panics) the server can hit. */
module Outcomes {

  datatype Option<T> = None | Some(value: T)

  /** The places where the Go code indexes or slices out of range and panics. */
  datatype Fault =
    | HeaderSlice     // data[headersStartIdx:headersEndIdx] with the bounds out of order or missing
    | StartLineSlice  // data[:strings.Index(data, "\r\n")] with no "\r\n" in the buffer
    | StartLineIndex  // startLineSegments[2] on a start line with fewer than two spaces
    | BodySlice       // data[bodyStartIdx:bodyStartIdx+n] past the buffer or with n < 0
    | PathIndex       // paths[1] on a target with a single path segment

  /** A value, or the fault at which the Go code would have panicked. */
  datatype Result<T> = Ok(value: T) | Panic(fault: Fault) {
    predicate IsFailure() {
      Panic?
    }

    function PropagateFailure<U>(): Result<U>
      requires Panic?
    {
      Panic(fault)
    }

    function Extract(): T
      requires Ok?
    {
      value
    }
  }
}
