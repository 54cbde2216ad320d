/** Optional values: an absent request field, a null date, a failed lookup. */
module Wrappers {

  datatype Option<+T> = None | Some(value: T) {

    /** The value, or `default` when absent. */
    function GetOr(default: T): T {
      match this
      case Some(v) => v
      case None => default
    }
  }
}

/** HTTP status codes the handlers answer with, and request-body truthiness. */
module Http {
  import opened Wrappers

  const Ok: int := 200
  const Found: int := 302
  const BadRequest: int := 400
  const NotFound: int := 404
  const Gone: int := 410
  const ServerError: int := 500

  /** A reply that either carries a body (status 200) or an error status. */
  datatype Response<+T> = Reply(body: T) | Fail(status: int)

  /** JavaScript truthiness of a string field of a request body:
      an absent field and the empty string are both falsy. */
  predicate Given(field: Option<string>) {
    field.Some? && field.value != ""
  }
}
