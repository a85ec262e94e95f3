/** Failure-carrying results shared by every stage of the feature pipeline. */
module Wrappers {

  /** A possibly missing value. In the tables, `None` stands for a pandas NaN. */
  datatype Option<+T> = None | Some(value: T)

  /** The outcome of a stage that can raise (a failed dictionary lookup, say). */
  datatype Result<+T, +E> = Success(value: T) | Failure(error: E) {
    /** Whether `:-` stops here. */
    predicate IsFailure() {
      Failure?
    }

    /** The failure, carried on under another value type. */
    function PropagateFailure<U>(): (r: Result<U, E>)
      requires Failure?
      ensures r.Failure? && r.error == error
    {
      Failure(error)
    }

    /** The value `:-` binds. */
    function Extract(): (v: T)
      requires Success?
      ensures Success(v) == this
    {
      value
    }
  }

  /** Why a stage of the pipeline raised. */
  datatype Error =
    | MissingMirror(gameKey: seq<string>, team: string, opponent: string)
    | MissingHistory(team: string, gameKey: seq<string>)
    | AmbiguousGameKey(team: string, gameKey: seq<string>)
    | MissingColumn(name: string)
}
