/** Absent values and error results shared by both extractors. */
module Wrappers {

  /** A value that may be absent; `None` plays the part of Python's `None`. */
  datatype Option<+T> = None | Some(value: T)

  /** The outcome of an extraction step: a value, or the error that aborts the extraction. */
  datatype Result<+R, +E> = Ok(value: R) | Err(error: E)

  /** A capture that Python treats as true: present and not the empty string. */
  predicate Captured(s: Option<string>) {
    s.Some? && s.value != ""
  }
}
