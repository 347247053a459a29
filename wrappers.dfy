/** Optional values and the outcomes of the catalog's operations. */
module Wrappers {

  /** A value that may be absent: what a lookup returns instead of `null`. */
  datatype Option<+T> = None | Some(value: T) {
    /** `value ?? default` */
    function GetOr(default: T): T {
      if Some? then value else default
    }
  }

  /** The three exception kinds the business layer can raise. */
  datatype Error =
    | BusinessRule  // BusinessRuleException: blank field, bad range, duplicate, wrong role, not owner, wrapped store failure
    | NotFound      // NotFoundException: a referenced id or name does not exist
    | DataAccess    // DataAccessException: the store refused a write

  /** An operation that returns a value or raises one of the exceptions above. */
  datatype Result<+T> = Success(value: T) | Failure(error: Error)

  /** An operation that returns nothing (`void` / `Task`) or raises one of the exceptions above. */
  datatype Outcome = Done | Fail(error: Error)
}
