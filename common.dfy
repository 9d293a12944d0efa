/** Small wrappers shared by both widgets. */
module Common {

  /** A value that may be absent: JavaScript's `undefined` / `null`. */
  datatype Option<+T> = None | Some(value: T)

  /** How an event handler ends: normally, or by a JavaScript `TypeError`
      (reading a property of `undefined`), in which case the handler stops
      before it touches the state or calls back into the host. */
  datatype Outcome = Ok | TypeError
}
