/** The low-level connection: the CRLF framing of command and reply lines as
    functions on bytes, and the conn object with its first-error latch.
    The net.Conn and the bufio reader and writer are outside the model: what
    they report comes in as parameters (`netErr`, `wErr`, `fErr`, `read`). */
module ConnCore {
  import opened Errors
  import PoolState

  newtype byte = b: int | 0 <= b < 256

  const CR: byte := 13
  const LF: byte := 10

  // ===== Framing =====

  /** What writeBytes and writeString put in the write buffer: the payload, then "\r\n". */
  function Framed(p: seq<byte>): (q: seq<byte>)
    ensures |q| == |p| + 2
    ensures q[..|p|] == p && q[|p|] == CR && q[|p| + 1] == LF
  {
    p + [CR, LF]
  }

  /** What ReadSlice('\n') reported: the bytes up to and including the first
      '\n' (so the slice ends with LF), a full buffer before any '\n', or
      another read error. */
  datatype SliceRead = Slice(p: seq<byte>) | BufferFull | ReadFailed(e: Error)

  /** readLine: the reply line without its "\r\n" terminator. */
  function ReadLine(read: SliceRead): (r: Result<seq<byte>>)
    ensures read.BufferFull? ==> r == Err(Protocol(LongLine))
    ensures read.ReadFailed? ==> r == Err(read.e)
    ensures read.Slice? && r.Ok? ==> |read.p| >= 2 && read.p == r.value + [CR, read.p[|read.p| - 1]]
    ensures read.Slice? && r.Err? ==> r == Err(Protocol(BadTerminator))
  {
    match read
    case BufferFull => Err(Protocol(LongLine))
    case ReadFailed(e) => Err(e)
    case Slice(p) =>
      if |p| < 2 || p[|p| - 2] != CR then Err(Protocol(BadTerminator))
      else Ok(p[..|p| - 2])
  }

  /** readLine undoes the framing: a framed line reads back as that line. */
  lemma ReadLineOfFramed(line: seq<byte>)
    ensures ReadLine(Slice(Framed(line))) == Ok(line)
  {
    assert Framed(line)[..|line|] == line;
  }

  /** For a slice that ends with '\n', readLine succeeds exactly on a framed
      line, and then returns that line; otherwise it reports a bad terminator. */
  lemma ReadLineAcceptsOnlyFramed(p: seq<byte>, line: seq<byte>)
    requires |p| > 0 && p[|p| - 1] == LF
    ensures ReadLine(Slice(p)) == Ok(line) <==> p == Framed(line)
    ensures ReadLine(Slice(p)).Err? <==> (|p| < 2 || p[|p| - 2] != CR)
    ensures ReadLine(Slice(p)).Err? ==> ReadLine(Slice(p)).error == Protocol(BadTerminator)
  {
    if p == Framed(line) {
      ReadLineOfFramed(line);
    }
  }

  /** readReply: every line is rejected; an empty one as short, any other as unexpected. */
  function ReadReply(read: SliceRead): (r: Result<()>)
    ensures ReadLine(read).Err? ==> r == Err(ReadLine(read).error)
    ensures ReadLine(read) == Ok([]) ==> r == Err(Protocol(ShortLine))
    ensures ReadLine(read).Ok? && ReadLine(read).value != [] ==> r == Err(Protocol(UnexpectedLine))
  {
    match ReadLine(read)
    case Err(e) => Err(e)
    case Ok(line) =>
      if |line| == 0 then Err(Protocol(ShortLine))
      else Err(Protocol(UnexpectedLine))
  }

  /** readReply never yields a reply: whatever the server sends, it is an error. */
  lemma ReadReplyNeverSucceeds(read: SliceRead)
    ensures ReadReply(read).Err?
    ensures read.Slice? && read.p == Framed([]) ==> ReadReply(read) == Err(Protocol(ShortLine))
  {
    if read.Slice? && read.p == Framed([]) {
      ReadLineOfFramed([]);
    }
  }

  // ===== The error latch =====

  /** fatal's effect on the stored error: the first error stays. */
  function Latch(stored: Option<Error>, e: Error): (r: Option<Error>)
    ensures r.Some?
    ensures stored.Some? ==> r == stored
    ensures stored.None? ==> r == Some(e)
  {
    if stored.None? then Some(e) else stored
  }

  /** The stored error after a series of fatal calls. */
  function LatchAll(stored: Option<Error>, es: seq<Error>): Option<Error>
    decreases |es|
  {
    if es == [] then stored else LatchAll(Latch(stored, es[0]), es[1..])
  }

  /** However many fatal calls follow, the stored error is the first one ever
      latched: a fresh connection keeps its first failure, an errored one keeps its error. */
  lemma {:induction false} LatchAllKeepsFirst(stored: Option<Error>, es: seq<Error>)
    ensures stored.Some? ==> LatchAll(stored, es) == stored
    ensures stored.None? && es != [] ==> LatchAll(stored, es) == Some(es[0])
    ensures stored.None? && es == [] ==> LatchAll(stored, es) == None
    decreases |es|
  {
    if es != [] {
      LatchAllKeepsFirst(Latch(stored, es[0]), es[1..]);
    }
  }

  /** The error Post ends with on a non-empty command: the first of the write,
      flush and reply failures; the reply always fails. */
  function PostFailure(wErr: Option<Error>, fErr: Option<Error>, read: SliceRead): (e: Error)
    ensures wErr.Some? ==> e == wErr.value
    ensures wErr.None? && fErr.Some? ==> e == fErr.value
    ensures wErr.None? && fErr.None? ==> ReadReply(read) == Err(e)
  {
    if wErr.Some? then wErr.value
    else if fErr.Some? then fErr.value
    else ReadReply(read).error
  }

  // ===== The connection object =====

  class Conn {
    /** The first error seen; set once and never cleared. */
    var err: Option<Error>
    /** How many times the underlying net.Conn was closed. */
    var netCloses: nat
    /** What MarkIdleTime stored, reported by GetIdleTime. */
    var idleTime: PoolState.Time
    /** Bytes in the write buffer, not yet flushed. */
    var pending: seq<byte>
    /** Bytes flushed to the network. */
    var sent: seq<byte>

    /** The net.Conn is closed exactly when an error is stored, and only once. */
    ghost predicate Valid()
      reads this
    {
      netCloses == (if err.Some? then 1 else 0)
    }

    /** NewConn: no error, nothing buffered or sent, the zero idle time. */
    constructor ()
      ensures Valid()
      ensures err == None && netCloses == 0 && pending == [] && sent == []
      ensures idleTime == PoolState.ZeroTime
    {
      err := None;
      netCloses := 0;
      idleTime := PoolState.ZeroTime;
      pending := [];
      sent := [];
    }

    /** Close: the first call stores "mingo: closed", closes the net.Conn and
        returns what that returned (`netErr`); later calls return the stored
        error and close nothing. */
    method Close(netErr: Option<Error>) returns (r: Option<Error>)
      requires Valid()
      modifies this
      ensures Valid()
      ensures err == Latch(old(err), ConnClosed)
      ensures old(err).None? ==> r == netErr && netCloses == 1
      ensures old(err).Some? ==> r == old(err) && netCloses == old(netCloses)
      ensures pending == old(pending) && sent == old(sent) && idleTime == old(idleTime)
    {
      r := err;
      if err.None? {
        err := Some(ConnClosed);
        netCloses := netCloses + 1;
        r := netErr;
      }
    }

    /** fatal: latch the error, closing the net.Conn on the first call only,
        and return the argument. */
    method Fatal(e: Error) returns (r: Error)
      requires Valid()
      modifies this
      ensures Valid()
      ensures r == e
      ensures err == Latch(old(err), e)
      ensures old(err).Some? ==> netCloses == old(netCloses)
      ensures pending == old(pending) && sent == old(sent) && idleTime == old(idleTime)
    {
      if err.None? {
        err := Some(e);
        netCloses := netCloses + 1;
      }
      r := e;
    }

    /** Err: the stored error. */
    method Err() returns (r: Option<Error>)
      requires Valid()
      ensures r == err
      ensures r.None? <==> netCloses == 0
    {
      r := err;
    }

    /** writeBytes: buffer the payload and "\r\n"; `wErr` is what the buffered
        writer reported, and on an error nothing is buffered. */
    method WriteBytes(p: seq<byte>, wErr: Option<Error>) returns (r: Option<Error>)
      modifies this
      ensures r == wErr
      ensures pending == (if wErr.None? then old(pending) + Framed(p) else old(pending))
      ensures err == old(err) && netCloses == old(netCloses) && sent == old(sent) && idleTime == old(idleTime)
    {
      if wErr.None? {
        pending := pending + Framed(p);
      }
      r := wErr;
    }

    /** writeString: the same framing for a string payload (a Go string is its bytes). */
    method WriteString(s: seq<byte>, wErr: Option<Error>) returns (r: Option<Error>)
      modifies this
      ensures r == wErr
      ensures pending == (if wErr.None? then old(pending) + Framed(s) else old(pending))
      ensures err == old(err) && netCloses == old(netCloses) && sent == old(sent) && idleTime == old(idleTime)
    {
      r := WriteBytes(s, wErr);
    }

    /** writeCommand: only the command is written; the arguments are ignored. */
    method WriteCommand<A>(cmd: seq<byte>, args: seq<A>, wErr: Option<Error>) returns (r: Option<Error>)
      modifies this
      ensures r == wErr
      ensures pending == (if wErr.None? then old(pending) + Framed(cmd) else old(pending))
      ensures err == old(err) && netCloses == old(netCloses) && sent == old(sent) && idleTime == old(idleTime)
    {
      r := WriteBytes(cmd, wErr);
    }

    /** Send: write the command; a write error is latched through fatal. */
    method Send<A>(cmd: seq<byte>, args: seq<A>, wErr: Option<Error>) returns (r: Option<Error>)
      requires Valid()
      modifies this
      ensures Valid()
      ensures r == wErr
      ensures err == (if wErr.Some? then Latch(old(err), wErr.value) else old(err))
      ensures pending == (if wErr.None? then old(pending) + Framed(cmd) else old(pending))
      ensures sent == old(sent) && idleTime == old(idleTime)
    {
      r := WriteCommand(cmd, args, wErr);
      if r.Some? {
        var e := Fatal(r.value);
        r := Some(e);
      }
    }

    /** Flush: send the buffered bytes; `fErr` is what the writer reported,
        and a flush error is latched through fatal, leaving the buffer as it was. */
    method Flush(fErr: Option<Error>) returns (r: Option<Error>)
      requires Valid()
      modifies this
      ensures Valid()
      ensures r == fErr
      ensures err == (if fErr.Some? then Latch(old(err), fErr.value) else old(err))
      ensures fErr.None? ==> sent == old(sent) + old(pending) && pending == []
      ensures fErr.Some? ==> sent == old(sent) && pending == old(pending)
      ensures idleTime == old(idleTime)
    {
      if fErr.None? {
        sent := sent + pending;
        pending := [];
        r := None;
      } else {
        var e := Fatal(fErr.value);
        r := Some(e);
      }
    }

    /** Receive: read one reply; since readReply always fails, the error is
        latched and returned (the reply is always nil). */
    method Receive(read: SliceRead) returns (r: Option<Error>)
      requires Valid()
      modifies this
      ensures Valid()
      ensures r == Some(ReadReply(read).error)
      ensures err == Latch(old(err), ReadReply(read).error)
      ensures pending == old(pending) && sent == old(sent) && idleTime == old(idleTime)
    {
      var reply := ReadReply(read);
      ReadReplyNeverSucceeds(read);
      var e := Fatal(reply.error);
      r := Some(e);
    }

    /** Post: an empty command returns at once and touches nothing; otherwise
        write, flush and read a reply, latching the first failure, which
        always comes since readReply always fails (the reply is always nil). */
    method Post<A>(cmd: seq<byte>, args: seq<A>, wErr: Option<Error>, fErr: Option<Error>, read: SliceRead)
      returns (r: Option<Error>)
      requires Valid()
      modifies this
      ensures Valid()
      ensures cmd == [] ==>
        (r == None && err == old(err) && netCloses == old(netCloses) && pending == old(pending) && sent == old(sent))
      ensures cmd != [] ==> r == Some(PostFailure(wErr, fErr, read)) && err == Latch(old(err), r.value)
      ensures cmd != [] && wErr.Some? ==> pending == old(pending) && sent == old(sent)
      ensures cmd != [] && wErr.None? && fErr.Some? ==> pending == old(pending) + Framed(cmd) && sent == old(sent)
      ensures cmd != [] && wErr.None? && fErr.None? ==> sent == old(sent) + old(pending) + Framed(cmd) && pending == []
      ensures idleTime == old(idleTime)
    {
      if |cmd| == 0 {
        return None;
      }
      r := WriteCommand(cmd, args, wErr);
      if r.Some? {
        var e := Fatal(r.value);
        return Some(e);
      }
      r := Flush(fErr);
      if r.Some? {
        return r;
      }
      var reply := ReadReply(read);
      ReadReplyNeverSucceeds(read);
      var e := Fatal(reply.error);
      r := Some(e);
    }

    /** MarkIdleTime: remember when the connection became idle. */
    method MarkIdleTime(now: PoolState.Time)
      modifies this
      ensures idleTime == now
      ensures err == old(err) && netCloses == old(netCloses) && pending == old(pending) && sent == old(sent)
    {
      idleTime := now;
    }

    /** GetIdleTime: the time MarkIdleTime last stored. */
    method GetIdleTime() returns (t: PoolState.Time)
      ensures t == idleTime
    {
      t := idleTime;
    }
  }
}
