/** Error values shared by the pool and the connection, and the Option/Result
    wrappers the model uses for Go's `(value, error)` returns. */
module Errors {

  datatype Option<+T> = None | Some(value: T)

  datatype Result<+T> = Ok(value: T) | Err(error: Error)

  /** The errors the package creates, plus the ones it only passes along. */
  datatype Error =
    | PoolExhausted          // ErrPoolExhausted
    | GetOnClosedPool        // returned by get once the pool is closed
    | ConnClosed             // stored by conn.Close
    | Protocol(why: Malformed) // protocolError: a malformed reply line
    | External(code: int)    // an error from Dial, net.Conn or bufio, passed along unchanged

  /** Why readLine or readReply rejected a reply line. */
  datatype Malformed = LongLine | BadTerminator | ShortLine | UnexpectedLine

  /** The reason text a protocolError carries. */
  function Reason(m: Malformed): string
  {
    match m
    case LongLine => "long response line"
    case BadTerminator => "bad response line terminator"
    case ShortLine => "short response line"
    case UnexpectedLine => "unexpected response line"
  }

  /** The text Error() gives for the errors the package itself creates. */
  function Message(e: Error): (m: Option<string>)
    ensures m.None? <==> e.External?
    ensures e.PoolExhausted? ==> m == Some("mingo: connection pool exhausted")
    ensures e.GetOnClosedPool? ==> m == Some("mingo: get on closed pool")
    ensures e.ConnClosed? ==> m == Some("mingo: closed")
    ensures e.Protocol? ==> m == Some("mingo: " + Reason(e.why))
  {
    match e
    case PoolExhausted => Some("mingo: connection pool exhausted")
    case GetOnClosedPool => Some("mingo: get on closed pool")
    case ConnClosed => Some("mingo: closed")
    case Protocol(why) => Some("mingo: " + Reason(why))
    case External(_) => None
  }
}
