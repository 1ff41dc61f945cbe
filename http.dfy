/** What the three API routes answer: a status code with a JSON body. The status codes
    are those of RFC 9110: section 15.3.1 (200 OK), section 15.5.1 (400 Bad Request),
    section 15.5.6 (405 Method Not Allowed) and section 15.6.1 (500 Internal Server Error). */
module Http {
  import opened Wrappers

  const StatusBadRequest: nat := 400
  const StatusMethodNotAllowed: nat := 405
  const StatusInternalError: nat := 500

  /** A route's reply: `Success` is sent with status 200 and the route's payload,
      `Failure` with an error status and the `{ message }` body the route sends. */
  datatype Response<+T> = Success(value: T) | Failure(status: nat, message: string)

  /** JavaScript truthiness of a string field read from a request body: a missing
      field (`undefined`) and the empty string are both falsy. */
  predicate Truthy(field: Option<string>)
  {
    field.Some? && field.value != ""
  }
}
