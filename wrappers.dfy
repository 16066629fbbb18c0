/** Optional values and two-way results, the Dafny shape of TypeScript's
    `T | undefined` and of fp-ts's `Either<L, R>`. */
module Wrappers {

  datatype Option<+T> = None | Some(value: T) {
    function GetOr(default: T): T {
      match this
      case Some(v) => v
      case None => default
    }
  }

  /** fp-ts `Either`: `Left` carries the error, `Right` the value. */
  datatype Either<+L, +R> = Left(left: L) | Right(right: R)
}
