/** Failure-carrying datatypes used throughout the model. */
module Wrappers {

  datatype Option<+T> = None | Some(value: T) {
    function GetOr(default: T): T {
      match this
      case Some(v) => v
      case None => default
    }
  }

  datatype Result<+R, +E> = Success(value: R) | Failure(error: E)

  datatype Outcome<+E> = Pass | Fail(error: E)
}

/** The two ways a fact-gathering run ends without facts. */
module Errors {

  datatype Error =
    | BadSubset            // fail_json(msg='Bad subset') on an unknown gather_subset token
    | KeyError(key: string) // the exception parse_interfaces raises on `parsed[key] += ...`
}
