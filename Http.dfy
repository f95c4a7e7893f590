/** Response statuses of the controllers and the JavaScript falsiness test
    the controllers apply to optional string inputs. */
module Http {
  import opened Wrappers

  /** The HTTP statuses the controllers answer with: 200, 201, 400, 404 and 500. */
  datatype Status = Ok | Created | BadRequest | NotFound | ServerError

  /** `!x` is false for an optional string exactly when it is present and non-empty. */
  predicate Truthy(s: Option<string>) {
    s.Some? && s.value != ""
  }
}
