# mingo connection pool — a Dafny model

This project models the core of `mingo`, a Go connection pool for a
line-oriented network service. The model has two parts.

- **The pool** (`pool.go`). The pool keeps an `active` count, a stack of
  idle connections with the most recently returned at the front, a one-way
  `closed` flag, and a prune schedule (`initialized`, `nextGCTime`).
  - `get` first prunes stale connections from the back of the stack, at
    most half of it and at most once per `GCInterval`.
  - It then pops idle connections from the front through the
    `TestOnBorrow` health check.
  - Failing that, it fails on a closed pool, dials under the `MaxActive`
    limit, fails with `ErrPoolExhausted`, or waits.
  - `put` re-idles a healthy connection, evicting the oldest entry when
    `MaxIdle` is exceeded, or closes the connection.
  - `Close` drains the idle stack.
  - `Get` and `Put` wrap errors into, and filter out, the sentinel
    `errorConnection`.
- **The connection** (`conn.go`). Each connection has a first-error latch
  shared by `Close`, `fatal` and `Err`. It frames every command line with a
  trailing CRLF (carriage return, line feed). It checks that every reply
  line ends with CRLF.

Layout:

- `errors.dfy` (module `Errors`): the error values, plus `Option` and `Result`.
- `pool_state.dfy` (module `PoolState`): the pool's state as a value.
  - Each part of `get`, `put` and `Close` is a function from the old state
    to the new one.
  - The pool invariant `Inv` is proved preserved by every operation.
  - Every property of the operations is a lemma about these functions.
- `pool.dfy` (module `PoolCore`): the class `Pool`, whose fields are
  updated in place by methods with loops.
  - The public operations (the constructor, `NewPool`, `TryGet`, `Get`,
    `PutBack`, `Put`, `Close`) keep `Valid()`, which is `Inv` of the fields.
    Each of `TryGet`, `PutBack`, `Put` and `Close` is proved to produce
    exactly the state its `PoolState` function describes.
  - The parts of `get` (`Prune`, `EvictStale`, `Borrow`, `Answer`) are each
    proved equal to their `PoolState` function. They neither need nor keep
    `Valid()` on their own; `TryGet` gets it back through
    `GetStepPreservesInv`.
  - `Release` only decrements `active`, which on its own breaks `Valid()`;
    `ActiveCount` and `IdleCount` only read.
- `conn.dfy` (module `ConnCore`): the framing functions `Framed`,
  `ReadLine` and `ReadReply`, their lemmas, and the class `Conn` with the
  error latch.

How the outside world enters the model:

- Connections are identities (`ConnId`).
- Time is an integer. Each operation gets one reading of `nowFunc` as its
  `now` parameter.
- What the application's `Dial` and `TestOnBorrow` return is a parameter:
  `DialResult`, and `HealthCheck`, a function that accepts or rejects.
- So is what a connection's `Err` and `Close` report to the pool
  (`connErr`, `closeErr`).
- So is what `net.Conn` and `bufio` report to a connection (`netErr`,
  `wErr`, `fErr`, `read`).
- The pool records every `Close` it calls on a connection, in order, in
  `closeCalls`. The ghost set `inUse` holds the connections handed out and
  not yet put back.
- The invariant states:
  - `active == |idle| + |inUse|`;
  - no connection is idle twice, idle and in use, or both closed by the
    pool and still idle or in use;
  - no connection is closed twice by the pool;
  - a closed pool holds nothing idle;
  - the idle stack respects `MaxIdle`.

The doc comment of `IdleTimeout` (pool.go:134-137) says the pool closes
connections after they have been idle for that long. The code does not
guarantee this:

- pruning runs only once `now` is after `nextGCTime`, so at most once per
  `GCInterval` (pool.go:237);
- it looks at only `int(float32(n)*0.5)` entries, from the back of the idle
  stack (pool.go:242), so a lone idle connection is never pruned;
- the idle-reuse loop does not check staleness at all (pool.go:263-278).

The model follows the code. `PoolState.StaleConnectionCanBeReused` shows a
stale connection being handed out before pruning is due, and
`PoolState.LoneIdleEntryNeverPruned` shows that a lone idle connection is
handed out however stale it is, even when pruning is due.

## Model

| member | source | states |
|---|---|---|
| Errors.Message | conn.go:91-95 | The package's own errors have the texts "mingo: connection pool exhausted" (pool.go:30), "mingo: get on closed pool" (pool.go:284) and "mingo: closed" (conn.go:49). A protocol error reads "mingo: " followed by its reason. Errors passed along from outside have no text of their own. |
| PoolState.EvictBackPreservesInv | pool.go:243-253 | Removing the back idle entry, closing it and releasing its slot keeps the pool invariant. |
| PoolState.PruneLoopKeepsPrefix | pool.go:242-256 | The prune loop removes at most `steps` entries and keeps a prefix of the idle stack. It releases exactly one active slot per removed entry. It changes nothing but the stack, `active` and the close calls. |
| PoolState.PruneLoopClosesTail | pool.go:242-256 | The prune loop closes exactly the removed tail, back to front, one Close per entry. |
| PoolState.PruneLoopRemovesOnlyStale | pool.go:242-256 | Every entry pruned was stale: its idle time plus `IdleTimeout` is not after `now`. If the loop stops with iterations to spare, the entry left at the back is not stale. |
| PoolState.PruneLoopPreservesInv | pool.go:242-256 | The prune loop keeps the pool invariant. |
| PoolState.PruneStepBounded | pool.go:237-257 | Pruning runs only when `IdleTimeout > 0` and `now` is after `nextGCTime`. Then it moves `nextGCTime` to `now + GCInterval` and removes at most ⌊n/2⌋ entries from the back, each one closed and its slot released. Otherwise the state is unchanged. |
| PoolState.PruneStepPreservesInv | pool.go:229-257 | Initialisation plus the prune pass keep the invariant. They conserve `active + closes`, keep only entries that were idle, and close only idle entries. |
| PoolState.BorrowLoopFrame | pool.go:263-278 | The idle-reuse loop changes only the idle stack, `active` and the close calls. |
| PoolState.BorrowLoopTakesFromFront | pool.go:263-278 | The idle-reuse loop hands out the first front entry that the health check accepts, and leaves the entries behind it idle. When no entry is accepted, it hands out nothing and empties the stack. |
| PoolState.RejectedPrefix | pool.go:263-278 | Every entry the idle-reuse loop rejects fails the health check, and the entry right after them, if any, passes it. |
| PoolState.BorrowLoopClosesRejected | pool.go:263-278 | Every entry rejected before the accepted one is closed, in order, and releases one active slot. |
| PoolState.CloseFrontPreservesInv | pool.go:268-277 | Removing and closing the front entry after a rejection keeps the invariant. |
| PoolState.TakeFrontPreservesInv | pool.go:268-272 | Handing out the front entry keeps the invariant once that entry counts as in use. |
| PoolState.BorrowLoopPreservesInv | pool.go:263-278 | The idle-reuse loop keeps the invariant. A connection it hands out was idle before. |
| PoolState.ScanStepPreservesInv | pool.go:226-278 | Everything `get` does before it decides keeps the invariant and closes only idle connections. It ends with an empty idle stack when nothing was found. |
| PoolState.GetStepPreservesInv | pool.go:226-313 | `get` keeps the invariant on every path, given that `Dial` returns a connection the pool has not seen. |
| PoolState.GetStepHandsOutOnce | pool.go:263-301 | A connection `get` returns was not in use before, is in use after and is no longer idle. So no connection is handed out twice. |
| PoolState.GetStepOnClosedPool | pool.go:282-285 | On a closed pool, `get` fails with "get on closed pool" and changes neither `active`, the idle stack, the in-use set nor the close calls. |
| PoolState.GetStepAtCapacity | pool.go:303-311 | With nothing idle, the pool open and `active` at `MaxActive`, `get` fails with `ErrPoolExhausted` when `Wait` is off and would block when it is on. No count changes. |
| PoolState.ExhaustedOnlyAtCapacity | pool.go:303-306 | `ErrPoolExhausted` comes only from an open pool with `Wait` off, `MaxActive` set, nothing idle and `active` at the limit. |
| PoolState.GetStepDials | pool.go:289-301 | Under the limit with nothing idle, `get` dials. Success adds one active, in-use connection. A failed dial returns the dial error and is net zero on `active`. |
| PoolState.ScanFromEmpty | pool.go:237-278 | With nothing idle, pruning and the reuse loop find nothing and change no count. |
| PoolState.StaleConnectionCanBeReused | pool.go:237-272 | Before the prune schedule is due, a connection idle far longer than `IdleTimeout` is still handed out by `get`. |
| PoolState.FrontReusedWhilePruneNotDue | pool.go:237-272 | For every state with something idle, while pruning is not due, `get` without `TestOnBorrow` hands out the front idle connection whatever its idle time. |
| PoolState.LoneIdleEntryNeverPruned | pool.go:237-272 | With a single idle entry the prune pass removes nothing, even when due, so `get` without `TestOnBorrow` hands that entry out however long it has been idle. |
| PoolState.Wrap | pool.go:174-180 | `Get` never returns nil. It returns the connection from `get`, or a sentinel that holds `get`'s error, or it blocks exactly when `get` would wait. |
| PoolState.SentinelCall | pool.go:359-364 | Every error-reporting operation of `errorConnection` returns the stored error. |
| PoolState.GetErrorFromEveryCall | pool.go:169-180 | When `get` fails, `Get` returns the sentinel, and every error-reporting method of that handle returns `get`'s error. |
| PoolState.PutHandleStep | pool.go:316-326 | `Put` with nil or with the sentinel returns nil and leaves the pool state untouched. Any other connection goes through `put`. |
| PoolState.PutStepReidles | pool.go:331-339 | With the pool open, no error from the connection and no forced close, `put` pushes the connection to the front and stamps its idle time. It evicts and closes the back entry exactly when the stack already held `MaxIdle` or more, releasing one slot. Otherwise `active` and the close calls are unchanged. With an empty stack and `MaxIdle <= 0`, the returned connection itself is the one closed. |
| PoolState.PutStepCloses | pool.go:328-352 | On a closed pool, with an errored connection, or with `forceClose`, `put` closes that connection and releases exactly one slot, leaving the idle stack as it was. |
| PoolState.PutStepKeepsIdleBound | pool.go:332-336 | `put` grows the idle stack by at most one and never beyond `MaxIdle` when it was within `MaxIdle` before. |
| PoolState.PushFrontKeepsInv | pool.go:330-334 | Pushing a returned connection onto the front of the idle stack of an open pool keeps the invariant, with the idle bound relaxed to the new stack length until the eviction check runs. |
| PoolState.CloseReturnedKeepsInv | pool.go:341-351 | Closing a returned connection and releasing its slot keeps the invariant. |
| PoolState.PutStepPreservesInv | pool.go:328-352 | Putting back an in-use connection keeps the invariant, and the connection is no longer in use. |
| PoolState.CloseStepDrains | pool.go:199-213 | `Close` empties the idle stack and marks the pool closed. It closes each formerly idle connection exactly once, reduces `active` by the old idle length, and keeps the invariant. |
| PoolState.CloseStepIdempotent | pool.go:199-213 | A second `Close` changes nothing. |
| PoolState.GetAfterCloseFails | pool.go:282-285 | After `Close`, every `get` fails with "get on closed pool" and the pool stays closed. |
| PoolCore.Pool.constructor | pool.go:111-160 | A Pool literal starts with the zero state, which satisfies the invariant. |
| PoolCore.Pool.NewPool | pool.go:165-167 | `NewPool` sets only `MaxIdle`, starts the prune schedule at `now`, and satisfies the invariant. |
| PoolCore.Pool.Release | pool.go:217-222 | `release` takes one from `active` and changes nothing else. |
| PoolCore.Pool.ActiveCount | pool.go:183-188 | `ActiveCount` is the number of idle plus in-use connections. |
| PoolCore.Pool.IdleCount | pool.go:191-196 | `IdleCount` is the idle stack's length, which is 0 or at most `MaxIdle`. |
| PoolCore.Pool.Prune | pool.go:229-257 | The initialisation and prune loop over the fields have exactly the effect of `InitStep` then `PruneStep`. |
| PoolCore.Pool.EvictStale | pool.go:242-256 | The prune loop over the fields has exactly the effect of `PruneLoop` for the given iteration bound. |
| PoolCore.Pool.Borrow | pool.go:263-278 | The idle-reuse loop over the fields has exactly the effect of `BorrowLoop` over the initial idle length. |
| PoolCore.Pool.Answer | pool.go:263-311 | After the idle scan, the fields change exactly as `PoolState.Answer` says: the found connection is handed out, or a closed pool fails, or a dial under the limit takes a slot (given back on a dial error), or the pool is exhausted or would wait. |
| PoolCore.Pool.TryGet | pool.go:226-313 | `get`, as `Prune`, `Borrow` and `Answer` in sequence, returns what `GetStep` says, leaves the fields in `GetStep`'s new state, and keeps the invariant. |
| PoolCore.Pool.Get | pool.go:174-180 | `Get` is `get` with its error wrapped into the sentinel. |
| PoolCore.Pool.PutBack | pool.go:328-352 | `put` leaves the fields in `PutStep`'s new state and keeps the invariant. It returns the closed connection's `Close` error when it closed one, and nil otherwise. |
| PoolCore.Pool.Put | pool.go:316-326 | `Put` ignores nil and the sentinel and otherwise behaves as `put`. |
| PoolCore.Pool.Close | pool.go:199-213 | `Close` leaves the fields in `CloseStep`'s state, closing the detached connections front to back. It keeps the invariant and returns nil. |
| ConnCore.Framed | conn.go:75-85 | A written line is the payload followed by exactly CR LF. |
| ConnCore.ReadLine | conn.go:97-113 | A full buffer gives "long response line" and other read errors pass through. A slice without CR before its last byte gives "bad response line terminator". A success returns the slice minus its last two bytes, the first of which is CR. |
| ConnCore.ReadLineOfFramed | conn.go:97-113 | Reading back a framed line yields that line: `ReadLine` undoes `Framed`. |
| ConnCore.ReadLineAcceptsOnlyFramed | conn.go:97-113 | For a slice ending in LF, `readLine` returns a line exactly when the slice is that line framed. It fails, with "bad response line terminator", exactly when the CR is missing. |
| ConnCore.ReadReply | conn.go:115-126 | `readReply` passes `readLine` errors through. It rejects an empty line as "short response line" and any other line as "unexpected response line". |
| ConnCore.ReadReplyNeverSucceeds | conn.go:115-126 | `readReply` fails on every input, so no reply is ever produced. A bare CRLF is a short line. |
| ConnCore.Latch | conn.go:56-66 | After `fatal` an error is always stored. An earlier error stays; otherwise the new one is stored. |
| ConnCore.LatchAllKeepsFirst | conn.go:56-66 | After any series of `fatal` calls, the stored error is the first one ever stored. |
| ConnCore.PostFailure | conn.go:181-198 | The error `Post` returns for a non-empty command is the write error, else the flush error, else `readReply`'s error. |
| ConnCore.Conn.constructor | conn.go:219-227 | A new connection has no error, no closes of the net connection, empty buffers and the zero idle time. |
| ConnCore.Conn.Close | conn.go:45-54 | The first `Close` stores "mingo: closed", closes the net connection once and returns its error. Later calls return the stored error and close nothing. |
| ConnCore.Conn.Fatal | conn.go:56-66 | `fatal` latches the first error, closes the net connection only on that first call, and returns its argument. |
| ConnCore.Conn.Err | conn.go:68-73 | `Err` is the stored error. It is nil exactly when the net connection was never closed. |
| ConnCore.Conn.WriteBytes | conn.go:81-85 | On success, `writeBytes` buffers the payload plus CRLF. It returns the writer's error. |
| ConnCore.Conn.WriteString | conn.go:75-79 | `writeString` frames the same way as `writeBytes`. |
| ConnCore.Conn.WriteCommand | conn.go:87-89 | `writeCommand` writes only the command framed, whatever the arguments. |
| ConnCore.Conn.Send | conn.go:128-139 | `Send` buffers the framed command. A write error is returned and latched, so `Err` is non-nil afterwards. |
| ConnCore.Conn.Flush | conn.go:141-152 | A successful `Flush` moves the buffer to the sent bytes. A flush error is returned and latched. In the model the buffer is then kept whole; a prefix the writer may already have sent is not modelled. |
| ConnCore.Conn.Receive | conn.go:154-170 | `Receive` always returns `readReply`'s error and latches it. The reply is always nil. |
| ConnCore.Conn.Post | conn.go:172-206 | An empty command returns nil and touches nothing. Any other command ends with the first failure, which always comes, and latches it. On a clean write and flush, the framed command is sent. After a write error nothing is buffered or sent; after a flush error the framed command stays buffered and nothing more is sent. |
| ConnCore.Conn.MarkIdleTime | conn.go:209-211 | `MarkIdleTime` stores the given time and changes nothing else. |
| ConnCore.Conn.GetIdleTime | conn.go:214-216 | `GetIdleTime` reports the stored time. |

## Left out

- Locking: the mutexes, the condition variable, and the unlock and relock windows inside `get`'s loops are left out. Every pool method is one sequential step.
- `PoolCore.Pool.TryGet`: with `Wait` on and the pool at capacity, it returns `WouldBlock` instead of waiting on the condition variable and retrying. `Signal` and `Broadcast` are not modelled.
- `PoolCore.Pool.PutBack` requires the connection to be one the pool handed out and not yet taken back (`c in inUse`). The Go code does not check this; the invariant cannot hold for a foreign connection.
- `PoolCore.Pool.Put` has the same requirement for a live connection.
- `PoolState.PruneStep`: the prune bound `int(float32(n)*0.5)` is modelled as `n / 2`. The two agree for every idle length a float32 represents exactly.
- `PoolCore.Pool.TryGet`: a `Dial` that returns a nil connection with a nil error is not modelled. A successful dial is assumed to return a connection the pool has not seen.
- Time is read once per operation (`now`). The Go code calls `nowFunc` several times within one `get`.
- `conn.MarkIdleTime` uses `time.Now` rather than `nowFunc`. In the pool model, `MarkIdleTime` is the update `idleTime[c := now]` in `PutStep`, with the `now` given to `put`, and `GetIdleTime` is `IdleTimeIn`, which reads that map.
- `log.Printf` calls in `get`: these are only logging.
- `errorConnection.MarkIdleTime` has a value receiver and so updates nothing, and `GetIdleTime` returns the zero time. Neither is reachable from the pool, because `Put` drops sentinels. Only the error-returning sentinel operations are modelled, by `PoolState.SentinelCall`.
- Read and write deadlines, `net.Conn` itself, and the `bufio` buffers' internals are not modelled. What they report enters as parameters.
- `ConnCore.Conn.WriteBytes`: when the writer reports an error, the model buffers nothing. Partial writes and the writer's sticky error are not modelled.
- `ConnCore.Conn.Flush`: on a flush error the model keeps the whole buffer and sends nothing. A failed flush may in fact have sent a prefix of the buffer, which `bufio.Writer` then drops. What the model does keep true is that the sent bytes followed by the pending ones are the same before and after.
- `ConnCore.Conn.Flush`: the automatic flush of a full `bufio.Writer` during a write is not modelled. Sent plus pending bytes are the same either way.
- `reply.(Error)` in `Receive` and `Post` is dead code, because `readReply` always returns a nil reply and an error. The model's methods return only the error.
- The `Conn` interface in `mingo.go` declares string commands and no `MarkIdleTime`/`GetIdleTime`. The model follows the capability set the pool and `conn` actually use.
- `log.go`, the logging decorator, is not part of this model: it only formats and forwards.
- `examples/example.go` is demo wiring and is not modelled.
- The package has no maximum connection lifetime and no cancellation of a waiting `Get`, so neither is modelled.
