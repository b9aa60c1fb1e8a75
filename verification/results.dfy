/** Outcomes of the operations that can fail.  JavaScript signals failure by
    throwing an `Error` whose `message` is a string; the model returns that
    message in `Err`. */
module Results {

  /** A value that may be absent: `undefined`/`null` in JavaScript. */
  datatype Option<+T> = None | Some(value: T)

  /** A computed value, or the message of the error that was thrown. */
  datatype Result<+T> = Ok(value: T) | Err(message: string) {

    /** `catch (e) { throw new Error(prefix + e.message) }` */
    function WithPrefix(prefix: string): (r: Result<T>)
      ensures r.Ok? <==> Ok?
      ensures Ok? ==> r == this
      ensures Err? ==> r.Err? && r.message == prefix + message
    {
      match this
      case Ok(v) => Ok(v)
      case Err(m) => Err(prefix + m)
    }
  }

  /** The JavaScript truthiness of an optional string: neither absent nor `''`. */
  predicate Truthy(s: Option<string>) {
    s.Some? && s.value != ""
  }
}
