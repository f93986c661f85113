/** Vocabulary shared by every module: bytes, optional values and the outcome of a call. */
module Basics {

  type Byte = x: int | 0 <= x < 256

  datatype Option<+T> = None | Some(value: T)

  /** The errors the code tells apart; everything else is Other. */
  datatype Error =
    | Eof
    | Exists
    | NotExist
    | Permission
    | PoolClosed
    | TooLarge
    | FragmentInvariant
    | Other(code: int)

  /** Go's `error` result: nil or an error value. */
  datatype Status = Ok | Failed(error: Error)

  /** Outcomes the retry engine hands straight to the caller instead of retrying. */
  predicate IsSuccessOrBenign(st: Status) {
    match st
    case Ok => true
    case Failed(e) => e.Eof? || e.Exists? || e.NotExist? || e.Permission?
  }

  /** Errors that come from HDFS, as opposed to those the code makes itself. */
  predicate FromBackend(e: Error) {
    !e.PoolClosed? && !e.TooLarge? && !e.FragmentInvariant?
  }

  function Min(a: int, b: int): int {
    if a < b then a else b
  }

  function Max(a: int, b: int): int {
    if a < b then b else a
  }
}
