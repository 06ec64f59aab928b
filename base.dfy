/** Small shared vocabulary: optional values (Java's nullable references),
    bytes, and the exceptions the request/response core can raise. */
module Base {

  /** A Java reference that may be null. */
  datatype Option<+T> = None | Some(value: T)

  /** One octet of a response body. */
  newtype byte = b: int | 0 <= b < 256

  /** The exceptions that can leave the static or dynamic branch of
      `RequestHandler.run` and reach the error handler. */
  datatype Exception =
    | IOException                 // FileManager.getFile could not read the file
    | NullPointerException        // a null file body, or an SID naming no session user
    | RouteNotFound(key: string)  // no handler is registered under the route key
    | HandlerFailed(reason: string) // the registered handler threw
}
