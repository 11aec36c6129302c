/**
 * Value types shared by the server and the client models: optional values
 * (a JavaScript `null` or `undefined` field is `None`) and bytes.
 */
module Wrappers {

  datatype Option<+T> = None | Some(value: T)

  /** One element of a `Buffer` or `Uint8Array`. */
  newtype byte = b: int | 0 <= b < 256

  /** JavaScript truthiness of an optional string field: absent and "" are falsy. */
  predicate Truthy(o: Option<string>)
  {
    o.Some? && o.value != ""
  }

  /** The expression `x || null`: a falsy field is stored as `null`. */
  function OrNull(o: Option<string>): (r: Option<string>)
    ensures r.Some? <==> Truthy(o)
    ensures r.Some? ==> r == o
  {
    if Truthy(o) then o else None
  }

  /** The expression `x || fallback` for a string field. */
  function OrDefault(o: Option<string>, fallback: string): (r: string)
    ensures Truthy(o) ==> r == o.value
    ensures !Truthy(o) ==> r == fallback
  {
    if Truthy(o) then o.value else fallback
  }
}
