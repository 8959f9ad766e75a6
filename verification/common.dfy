/** Shared result shapes for the route handlers. */
module Common {

  /** A value that may be absent: a missing JSON body field, a null database
      column, or a lookup that found nothing. */
  datatype Option<+T> = None | Some(value: T)

  /** JavaScript truthiness of an optional string: `undefined`, `null` and the
      empty string are all falsy. */
  predicate Truthy(o: Option<string>)
  {
    o.Some? && o.value != ""
  }

  /** The JSON body of most replies: either `{ msg }` or `{ error }`. */
  datatype Body = Msg(msg: string) | Error(error: string)

  /** An HTTP reply: status code and JSON body. Every route answers with this
      shape; the body type is the route's own (`Body` where it answers with
      a bare message). */
  datatype Reply<+B> = Reply(status: nat, body: B)
}
