/** Optional values, results, and the fatal conditions of iniq.

    Every call to `die` in the C program ends the process with a failure
    status; here it becomes a `Failure` value that carries which condition
    was met. */
module Outcomes {

  /** A value that may be absent (NULL in the C program). */
  datatype Option<+T> = None | Some(value: T) {

    /** The held value, or `default` when there is none. */
    function GetOr(default: T): T {
      match this
      case Some(v) => v
      case None => default
    }
  }

  /** Either a value or the reason the process stopped. Usable with `:-`. */
  datatype Result<+T, +E> = Success(value: T) | Failure(error: E) {

    predicate IsFailure() {
      Failure?
    }

    function PropagateFailure<U>(): Result<U, E>
      requires Failure?
    {
      Failure(error)
    }

    function Extract(): T
      requires Success?
    {
      value
    }
  }

  /** The fatal conditions of iniq; each one ends the run with a failure status. */
  datatype Error =
      /** A pair format with neither the needed `%k` nor `%v`. */
    | BadPairFormat
      /** A section format without `%s`. */
    | BadSectionFormat
      /** The path named a section (or an index of it) that does not exist. */
    | SectionNotFound(section: string, index: nat)
      /** The key is neither in the section nor inherited from DEFAULT. */
    | KeyNotFound(key: string, section: string)
      /** Section listing over a configuration with no sections at all. */
    | NoSections
      /** Failure status after `printed` reached standard output: a zero
          section count, or the full output of an empty configuration. */
    | Empty(printed: string)
}
