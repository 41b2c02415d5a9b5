/** Shared vocabulary of the backend model: optional values, bytes, and the
    JSON envelope that every handler answers with. */
module Common {

  /** A value that may be absent (a missing body field, a NULL column). */
  datatype Option<+T> = None | Some(value: T)

  /** One octet of a binary large object column. */
  newtype byte = x: int | 0 <= x < 256

  /** The envelope `{success, message, data?}` sent with an HTTP status code. */
  datatype Response<D> = Response(status: int, message: string, data: Option<D>)
  {
    /** The envelope's `success` flag: every handler sets it on its 2xx answers only. */
    predicate Success() { 200 <= status < 300 }
  }

  /** An error answer: no `data` member. */
  function Fail<D>(status: int, message: string): Response<D>
  {
    Response(status, message, None)
  }

  /** A successful answer carrying `data`. */
  function Ok<D>(status: int, message: string, data: D): Response<D>
  {
    Response(status, message, Some(data))
  }

  /** JavaScript truthiness of a string body field: absent, null and "" are falsy. */
  predicate Present(field: Option<string>)
    ensures Present(field) ==> field.Some? && |field.value| > 0
    ensures field.Some? && |field.value| > 0 ==> Present(field)
  {
    field.Some? && field.value != ""
  }
}
