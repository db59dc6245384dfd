/** Option and Result values, and the error kinds a request can end with. */
module Outcomes {

  datatype Option<+T> = None | Some(value: T)

  /** The terminal outcomes of a request other than success. Status codes are not modelled:
      AuthRequired is the 401 class, Forbidden the 403 class, NotFound the 404 class,
      Invalid a field-level validation failure, Duplicate the duplicate-review rejection
      (with its detail text) and Protected a deletion refused by a PROTECT foreign key. */
  datatype Error = AuthRequired | Forbidden | NotFound | Invalid | Duplicate(detail: string) | Protected

  datatype Result<+T> = Ok(value: T) | Err(error: Error)

  datatype Outcome = Pass | Fail(error: Error)
}
