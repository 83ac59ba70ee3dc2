/** The pool's bookkeeping as values: the state the Pool object keeps under its
    mutex, the effect of each pool operation on that state as a function, and
    the properties those functions have. The Pool class (module PoolCore) is
    proved to change its fields exactly as these functions say. */
module PoolState {
  import opened Errors

  /** A connection as the pool sees it: an identity. */
  type ConnId = nat

  /** A reading of nowFunc; durations are differences of these. */
  type Time = int

  /** The zero time.Time a connection reports before it was ever marked idle. */
  const ZeroTime: Time := 0

  /** The pool's configuration fields, which the pool reads and never writes. */
  datatype Config = Config(
    maxIdle: int,     // MaxIdle
    maxActive: int,   // MaxActive; 0 means no limit
    idleTimeout: int, // IdleTimeout; 0 (or less) disables pruning
    gcInterval: int,  // GCInterval: the least time between two prune passes
    wait: bool)       // Wait

  /** The pool's mutable state, plus two bookkeeping components:
      `inUse`, the connections handed out and not yet put back, and
      `closeCalls`, the connections the pool called Close on, in call order. */
  datatype State = State(
    initialized: bool,
    nextGCTime: Time,
    closed: bool,
    active: int,
    idle: seq<ConnId>,            // idle[0] is the front: the most recently returned
    idleTime: map<ConnId, Time>,  // what each connection's GetIdleTime reports
    inUse: set<ConnId>,
    closeCalls: seq<ConnId>)

  /** TestOnBorrow: None when the hook is nil, otherwise the hook, true when it
      returns a nil error for the connection and its idle time. */
  type HealthCheck = Option<(ConnId, Time) -> bool>

  /** What the application's Dial returned. */
  datatype DialResult = Dialed(c: ConnId) | DialFailed(code: int)

  /** What get returns; WouldBlock stands for the cond.Wait() at capacity. */
  datatype GetResult = Got(c: ConnId) | Failed(err: Error) | WouldBlock

  /** A value of the Conn interface: nil, the sentinel errorConnection, or a real connection. */
  datatype Handle = NilConn | ErrorConnection(err: Error) | Live(c: ConnId)

  /** What Get returns, or Blocked when it would wait for a connection. */
  datatype GetOutcome = Handed(h: Handle) | Blocked

  /** The operations of the sentinel errorConnection that report an error. */
  datatype SentinelOp = PostOp | SendOp | ErrOp | CloseOp | FlushOp | ReceiveOp

  function IdleTimeIn(m: map<ConnId, Time>, c: ConnId): Time {
    if c in m then m[c] else ZeroTime
  }

  predicate Accepts(test: HealthCheck, c: ConnId, t: Time) {
    test.None? || test.value(c, t)
  }

  /** An idle connection survives pruning while its idle time plus the timeout is after now. */
  predicate NotStale(cfg: Config, s: State, c: ConnId, now: Time) {
    IdleTimeIn(s.idleTime, c) + cfg.idleTimeout > now
  }

  predicate Distinct(s: seq<ConnId>) {
    forall i, j :: 0 <= i < j < |s| ==> s[i] != s[j]
  }

  /** The pool's invariant: active counts exactly the idle and the in-use
      connections, no connection is in two places, no connection the pool
      closed is still idle or in use, a closed pool holds nothing idle, and
      the idle list respects MaxIdle. */
  ghost predicate Inv(cfg: Config, s: State) {
    && s.active == |s.idle| + |s.inUse|
    && Distinct(s.idle)
    && Distinct(s.closeCalls)
    && (forall c :: c in s.idle ==> c !in s.inUse)
    && (forall c :: c in s.closeCalls ==> c !in s.idle && c !in s.inUse)
    && (s.closed ==> s.idle == [])
    && (|s.idle| <= cfg.maxIdle || s.idle == [])
  }

  /** A connection the pool has never seen: what Dial is expected to return. */
  predicate Unseen(s: State, c: ConnId) {
    c !in s.idle && c !in s.inUse && c !in s.closeCalls
  }

  // ----- get -----

  /** get's lazy initialisation of the prune schedule. */
  function InitStep(cfg: Config, s: State, now: Time): State {
    if s.initialized then s else s.(initialized := true, nextGCTime := now + cfg.gcInterval)
  }

  predicate PruneDue(cfg: Config, s: State, now: Time) {
    cfg.idleTimeout > 0 && now > s.nextGCTime
  }

  /** Remove the back (oldest) idle entry, close it and release its slot. */
  function EvictBack(s: State): State
    requires s.idle != []
  {
    s.(idle := s.idle[..|s.idle| - 1], active := s.active - 1,
       closeCalls := s.closeCalls + [s.idle[|s.idle| - 1]])
  }

  /** Remove the front (newest) idle entry, close it and release its slot. */
  function CloseFront(s: State): State
    requires s.idle != []
  {
    s.(idle := s.idle[1..], active := s.active - 1, closeCalls := s.closeCalls + [s.idle[0]])
  }

  /** The prune loop with `steps` iterations left: evict the back entry while it is stale. */
  function PruneLoop(cfg: Config, s: State, now: Time, steps: nat): State
    decreases steps
  {
    if steps == 0 || s.idle == [] || NotStale(cfg, s, s.idle[|s.idle| - 1], now) then s
    else PruneLoop(cfg, EvictBack(s), now, steps - 1)
  }

  /** The prune pass: when due, reschedule and examine at most half of the idle list. */
  function PruneStep(cfg: Config, s: State, now: Time): State {
    if PruneDue(cfg, s, now) then
      PruneLoop(cfg, s.(nextGCTime := now + cfg.gcInterval), now, |s.idle| / 2)
    else s
  }

  /** The idle-reuse loop with `steps` iterations left: pop the front entry,
      hand it out if the health check accepts it, otherwise close it. */
  function BorrowLoop(s: State, test: HealthCheck, steps: nat): (Option<ConnId>, State)
    decreases steps
  {
    if steps == 0 || s.idle == [] then (None, s)
    else if Accepts(test, s.idle[0], IdleTimeIn(s.idleTime, s.idle[0])) then
      (Some(s.idle[0]), s.(idle := s.idle[1..]))
    else BorrowLoop(CloseFront(s), test, steps - 1)
  }

  /** How many entries at the front of `idle` the health check rejects before it accepts one. */
  function Rejected(idle: seq<ConnId>, idleTime: map<ConnId, Time>, test: HealthCheck): (k: nat)
    ensures k <= |idle|
  {
    if idle == [] then 0
    else if Accepts(test, idle[0], IdleTimeIn(idleTime, idle[0])) then 0
    else 1 + Rejected(idle[1..], idleTime, test)
  }

  /** The rejected prefix is exactly that: every entry in it fails the health
      check, and the entry right after it, if any, passes. */
  lemma {:induction false} RejectedPrefix(idle: seq<ConnId>, idleTime: map<ConnId, Time>, test: HealthCheck)
    ensures var k := Rejected(idle, idleTime, test);
      && (forall i :: 0 <= i < k ==> !Accepts(test, idle[i], IdleTimeIn(idleTime, idle[i])))
      && (k < |idle| ==> Accepts(test, idle[k], IdleTimeIn(idleTime, idle[k])))
  {
    if idle != [] && !Accepts(test, idle[0], IdleTimeIn(idleTime, idle[0])) {
      RejectedPrefix(idle[1..], idleTime, test);
      var k := Rejected(idle, idleTime, test);
      forall i | 0 < i < k
        ensures !Accepts(test, idle[i], IdleTimeIn(idleTime, idle[i]))
      {
        assert idle[i] == idle[1..][i - 1];
      }
    }
  }

  /** Everything get does before it decides how to answer: initialisation, pruning, idle scan. */
  function ScanStep(cfg: Config, s: State, now: Time, test: HealthCheck): (Option<ConnId>, State) {
    var s1 := PruneStep(cfg, InitStep(cfg, s, now), now);
    BorrowLoop(s1, test, |s1.idle|)
  }

  predicate UnderLimit(cfg: Config, s: State) {
    cfg.maxActive == 0 || s.active < cfg.maxActive
  }

  /** How get answers once the scan is done: the idle connection it found,
      or else closed-pool failure, a dial, exhaustion, or a wait. */
  function Answer(cfg: Config, found: Option<ConnId>, s2: State, dial: DialResult): (GetResult, State) {
    if found.Some? then (Got(found.value), s2.(inUse := s2.inUse + {found.value}))
    else if s2.closed then (Failed(GetOnClosedPool), s2)
    else if UnderLimit(cfg, s2) then
      match dial
      case Dialed(c) => (Got(c), s2.(active := s2.active + 1, inUse := s2.inUse + {c}))
      case DialFailed(code) => (Failed(External(code)), s2)
    else if !cfg.wait then (Failed(PoolExhausted), s2)
    else (WouldBlock, s2)
  }

  /** get: the connection or error it returns, and the new state. */
  function GetStep(cfg: Config, s: State, now: Time, test: HealthCheck, dial: DialResult): (GetResult, State) {
    var p := ScanStep(cfg, s, now, test);
    Answer(cfg, p.0, p.1, dial)
  }

  /** Get: an error from get is handed out inside the sentinel instead of being returned. */
  function Wrap(r: GetResult): (o: GetOutcome)
    ensures o.Blocked? <==> r.WouldBlock?
    ensures o.Handed? ==> !o.h.NilConn?
    ensures r.Got? ==> o == Handed(Live(r.c))
    ensures r.Failed? ==> o == Handed(ErrorConnection(r.err))
  {
    match r
    case Got(c) => Handed(Live(c))
    case Failed(e) => Handed(ErrorConnection(e))
    case WouldBlock => Blocked
  }

  /** Every error-reporting operation of the sentinel returns its stored error. */
  function SentinelCall(h: Handle, op: SentinelOp): (r: Option<Error>)
    requires h.ErrorConnection?
    ensures r.Some? && r.value == h.err
  {
    Some(h.err)
  }

  /** The error get reported comes back from every error-reporting method
      of the handle Get returns in its place. */
  lemma GetErrorFromEveryCall(r: GetResult, op: SentinelOp)
    requires r.Failed?
    ensures Wrap(r).Handed? && Wrap(r).h.ErrorConnection?
    ensures SentinelCall(Wrap(r).h, op) == Some(r.err)
  {
  }

  // ----- put, Put -----

  /** put keeps the connection when the pool is open, it reports no error and no close is forced. */
  predicate Reidles(s: State, connErr: Option<Error>, forceClose: bool) {
    !s.closed && connErr.None? && !forceClose
  }

  /** put: the connection it closes, if any, and the new state. */
  function PutStep(cfg: Config, s: State, c: ConnId, connErr: Option<Error>, forceClose: bool, now: Time)
    : (Option<ConnId>, State)
  {
    var back := s.(inUse := s.inUse - {c});
    if Reidles(s, connErr, forceClose) then
      var pushed := back.(idle := [c] + s.idle, idleTime := s.idleTime[c := now]);
      if |pushed.idle| > cfg.maxIdle then (Some(pushed.idle[|pushed.idle| - 1]), EvictBack(pushed))
      else (None, pushed)
    else (Some(c), back.(active := s.active - 1, closeCalls := s.closeCalls + [c]))
  }

  /** Put: nil and the sentinel are dropped; anything else goes through put. */
  function PutHandleStep(cfg: Config, s: State, h: Handle, connErr: Option<Error>, forceClose: bool, now: Time)
    : (r: (Option<ConnId>, State))
    ensures h.NilConn? || h.ErrorConnection? ==> r.0.None? && r.1 == s
    ensures h.Live? ==> r == PutStep(cfg, s, h.c, connErr, forceClose, now)
  {
    match h
    case Live(c) => PutStep(cfg, s, c, connErr, forceClose, now)
    case _ => (None, s)
  }

  // ----- Close -----

  /** Close: detach the idle list, mark the pool closed, and close every detached connection. */
  function CloseStep(s: State): State {
    s.(idle := [], closed := true, active := s.active - |s.idle|, closeCalls := s.closeCalls + s.idle)
  }

  // ===== Properties of the prune pass =====

  /** The entries of q, last first: the order in which pruning closes a tail. */
  function Backwards(q: seq<ConnId>): (b: seq<ConnId>)
    ensures |b| == |q|
  {
    if q == [] then [] else [q[|q| - 1]] + Backwards(q[..|q| - 1])
  }

  /** Closing a tail back to front closes exactly the entries of the tail. */
  lemma {:induction false} BackwardsKeepsEntries(q: seq<ConnId>)
    ensures forall c :: c in Backwards(q) <==> c in q
  {
    if q != [] {
      BackwardsKeepsEntries(q[..|q| - 1]);
      assert q == q[..|q| - 1] + [q[|q| - 1]];
    }
  }

  lemma BackwardsSnoc(q: seq<ConnId>, c: ConnId)
    ensures Backwards(q + [c]) == [c] + Backwards(q)
  {
    assert (q + [c])[..|q|] == q;
  }

  /** Closing the tail from m back to front starts with the last entry. */
  lemma BackwardsOfTail(q: seq<ConnId>, m: nat)
    requires m < |q|
    ensures Backwards(q[m..]) == [q[|q| - 1]] + Backwards(q[..|q| - 1][m..])
  {
    assert q[m..] == q[..|q| - 1][m..] + [q[|q| - 1]];
    BackwardsSnoc(q[..|q| - 1][m..], q[|q| - 1]);
  }

  /** Removing one idle entry, closing it and releasing its slot keeps the invariant. */
  lemma ClosingIdleEntryKeepsInv(cfg: Config, s: State, t: State, c: ConnId)
    requires Inv(cfg, s) && c in s.idle && c !in t.idle
    requires |t.idle| + 1 == |s.idle| && Distinct(t.idle)
    requires forall x :: x in t.idle ==> x in s.idle
    requires t == s.(idle := t.idle, active := s.active - 1, closeCalls := s.closeCalls + [c])
    ensures Inv(cfg, t)
  {
    assert c !in s.closeCalls && c !in s.inUse;
    forall i, j | 0 <= i < j < |t.closeCalls|
      ensures t.closeCalls[i] != t.closeCalls[j]
    {
      if j == |s.closeCalls| {
        assert t.closeCalls[i] in s.closeCalls;
      } else {
        assert t.closeCalls[i] == s.closeCalls[i] && t.closeCalls[j] == s.closeCalls[j];
      }
    }
    forall x | x in t.closeCalls
      ensures x !in t.idle && x !in t.inUse
    {
      if x != c {
        assert x in s.closeCalls;
      }
    }
  }

  /** Evicting the back entry keeps the invariant. */
  lemma EvictBackPreservesInv(cfg: Config, s: State)
    requires Inv(cfg, s) && s.idle != []
    ensures Inv(cfg, EvictBack(s))
  {
    var c := s.idle[|s.idle| - 1];
    var t := EvictBack(s);
    assert s.idle == t.idle + [c];
    assert c !in t.idle;
    ClosingIdleEntryKeepsInv(cfg, s, t, c);
  }

  /** One pruned back entry: the loop goes on from EvictBack(s). */
  lemma PruneLoopEvictStep(cfg: Config, s: State, now: Time, steps: nat)
    requires steps > 0 && s.idle != [] && !NotStale(cfg, s, s.idle[|s.idle| - 1], now)
    ensures PruneLoop(cfg, s, now, steps) == PruneLoop(cfg, EvictBack(s), now, steps - 1)
  {
  }

  /** The prune loop stops at an empty list or a back entry that is not stale. */
  lemma PruneLoopStop(cfg: Config, s: State, now: Time, steps: nat)
    requires steps == 0 || s.idle == [] || NotStale(cfg, s, s.idle[|s.idle| - 1], now)
    ensures PruneLoop(cfg, s, now, steps) == s
  {
  }

  /** The prune loop keeps a prefix of the idle list, removes at most `steps`
      entries, releases one active slot per removal, and changes nothing else
      but the close calls. */
  lemma {:induction false} PruneLoopKeepsPrefix(cfg: Config, s: State, now: Time, steps: nat)
    ensures var r := PruneLoop(cfg, s, now, steps);
      && |s.idle| - steps <= |r.idle| <= |s.idle|
      && r.idle == s.idle[..|r.idle|]
      && r.active == s.active - (|s.idle| - |r.idle|)
      && r.initialized == s.initialized && r.nextGCTime == s.nextGCTime && r.closed == s.closed
      && r.idleTime == s.idleTime && r.inUse == s.inUse
    decreases steps
  {
    if !(steps == 0 || s.idle == [] || NotStale(cfg, s, s.idle[|s.idle| - 1], now)) {
      var t := EvictBack(s);
      PruneLoopKeepsPrefix(cfg, t, now, steps - 1);
      var r := PruneLoop(cfg, t, now, steps - 1);
      assert r.idle == s.idle[..|r.idle|];
    }
  }

  /** The prune loop closes the entries it removes, back to front. */
  lemma {:induction false} PruneLoopClosesTail(cfg: Config, s: State, now: Time, steps: nat)
    ensures var r := PruneLoop(cfg, s, now, steps);
      |r.idle| <= |s.idle| && r.closeCalls == s.closeCalls + Backwards(s.idle[|r.idle|..])
    decreases steps
  {
    if steps == 0 || s.idle == [] || NotStale(cfg, s, s.idle[|s.idle| - 1], now) {
      PruneLoopStop(cfg, s, now, steps);
      assert s.idle[|s.idle|..] == [];
    } else {
      var t := EvictBack(s);
      PruneLoopEvictStep(cfg, s, now, steps);
      PruneLoopClosesTail(cfg, t, now, steps - 1);
      var r := PruneLoop(cfg, t, now, steps - 1);
      assert t.idle == s.idle[..|s.idle| - 1];
      assert t.closeCalls == s.closeCalls + [s.idle[|s.idle| - 1]];
      BackwardsOfTail(s.idle, |r.idle|);
      assert r.closeCalls == s.closeCalls + Backwards(s.idle[|r.idle|..]);
    }
  }

  /** Every entry the prune loop removes is stale, and when it stops with
      steps to spare the entry left at the back is not stale. */
  lemma {:induction false} PruneLoopRemovesOnlyStale(cfg: Config, s: State, now: Time, steps: nat)
    ensures var r := PruneLoop(cfg, s, now, steps);
      && |r.idle| <= |s.idle|
      && (forall j :: |r.idle| <= j < |s.idle| ==> !NotStale(cfg, s, s.idle[j], now))
      && (|r.idle| > |s.idle| - steps && r.idle != [] ==> NotStale(cfg, s, r.idle[|r.idle| - 1], now))
    decreases steps
  {
    PruneLoopKeepsPrefix(cfg, s, now, steps);
    if !(steps == 0 || s.idle == [] || NotStale(cfg, s, s.idle[|s.idle| - 1], now)) {
      var t := EvictBack(s);
      PruneLoopEvictStep(cfg, s, now, steps);
      PruneLoopRemovesOnlyStale(cfg, t, now, steps - 1);
      PruneLoopKeepsPrefix(cfg, t, now, steps - 1);
    }
  }

  /** A prune pass runs only when the timeout is set and its time has come;
      it then moves the schedule on and removes at most half of the idle list,
      from the back, closing each removed entry and releasing its slot;
      otherwise it changes nothing. */
  lemma PruneStepBounded(cfg: Config, s: State, now: Time)
    ensures var r := PruneStep(cfg, s, now);
      && (!PruneDue(cfg, s, now) ==> r == s)
      && (PruneDue(cfg, s, now) ==> r.nextGCTime == now + cfg.gcInterval)
      && |s.idle| - |s.idle| / 2 <= |r.idle| <= |s.idle|
      && r.idle == s.idle[..|r.idle|]
      && r.active == s.active - (|s.idle| - |r.idle|)
      && r.closeCalls == s.closeCalls + Backwards(s.idle[|r.idle|..])
      && r.inUse == s.inUse && r.closed == s.closed && r.initialized == s.initialized
      && r.idleTime == s.idleTime
  {
    if PruneDue(cfg, s, now) {
      PruneLoopKeepsPrefix(cfg, s.(nextGCTime := now + cfg.gcInterval), now, |s.idle| / 2);
      PruneLoopClosesTail(cfg, s.(nextGCTime := now + cfg.gcInterval), now, |s.idle| / 2);
    } else {
      assert s.idle[|s.idle|..] == [];
    }
  }

  /** Each prune iteration keeps the invariant. */
  lemma {:induction false} PruneLoopPreservesInv(cfg: Config, s: State, now: Time, steps: nat)
    requires Inv(cfg, s)
    ensures Inv(cfg, PruneLoop(cfg, s, now, steps))
    decreases steps
  {
    if !(steps == 0 || s.idle == [] || NotStale(cfg, s, s.idle[|s.idle| - 1], now)) {
      EvictBackPreservesInv(cfg, s);
      PruneLoopPreservesInv(cfg, EvictBack(s), now, steps - 1);
    }
  }

  // ===== Properties of the idle-reuse loop =====

  /** The idle-reuse loop changes only the idle list, active and the close calls. */
  lemma {:induction false} BorrowLoopFrame(s: State, test: HealthCheck, steps: nat)
    ensures var r := BorrowLoop(s, test, steps).1;
      && r.initialized == s.initialized && r.nextGCTime == s.nextGCTime && r.closed == s.closed
      && r.idleTime == s.idleTime && r.inUse == s.inUse
    decreases steps
  {
    if steps != 0 && s.idle != [] && !Accepts(test, s.idle[0], IdleTimeIn(s.idleTime, s.idle[0])) {
      BorrowLoopFrame(CloseFront(s), test, steps - 1);
    }
  }

  /** The idle-reuse loop hands out the first entry the health check accepts,
      if any, and leaves the entries behind it idle. */
  lemma {:induction false} BorrowLoopTakesFromFront(s: State, test: HealthCheck, steps: nat)
    requires |s.idle| <= steps
    ensures var p := BorrowLoop(s, test, steps);
      var k := Rejected(s.idle, s.idleTime, test);
      && p.0 == (if k < |s.idle| then Some(s.idle[k]) else None)
      && p.1.idle == (if k < |s.idle| then s.idle[k + 1..] else [])
    decreases steps
  {
    if s.idle != [] && !Accepts(test, s.idle[0], IdleTimeIn(s.idleTime, s.idle[0])) {
      var t := CloseFront(s);
      BorrowLoopRejectStep(s, test, steps);
      BorrowLoopTakesFromFront(t, test, steps - 1);
      var k := Rejected(s.idle, s.idleTime, test);
      if k < |s.idle| {
        assert t.idle[k - 1] == s.idle[k] && t.idle[k..] == s.idle[k + 1..];
      }
    }
  }

  lemma PrefixCons(q: seq<ConnId>, k: nat)
    requires 0 < k <= |q|
    ensures q[..k] == [q[0]] + q[1..][..k - 1]
  {
  }

  lemma ConcatAssoc(a: seq<ConnId>, b: seq<ConnId>, c: seq<ConnId>)
    ensures (a + b) + c == a + (b + c)
  {
  }

  /** One rejected front entry: the loop goes on from CloseFront(s), and the
      rejected count is one more than from there. */
  lemma BorrowLoopRejectStep(s: State, test: HealthCheck, steps: nat)
    requires steps > 0 && s.idle != [] && !Accepts(test, s.idle[0], IdleTimeIn(s.idleTime, s.idle[0]))
    ensures BorrowLoop(s, test, steps) == BorrowLoop(CloseFront(s), test, steps - 1)
    ensures Rejected(s.idle, s.idleTime, test) == 1 + Rejected(CloseFront(s).idle, s.idleTime, test)
  {
  }

  /** The entries the idle-reuse loop rejects are closed in order, each
      releasing one active slot. */
  lemma {:induction false} BorrowLoopClosesRejected(s: State, test: HealthCheck, steps: nat)
    requires |s.idle| <= steps
    ensures var p := BorrowLoop(s, test, steps);
      var k := Rejected(s.idle, s.idleTime, test);
      && p.1.active == s.active - k
      && p.1.closeCalls == s.closeCalls + s.idle[..k]
    decreases steps
  {
    if s.idle != [] && !Accepts(test, s.idle[0], IdleTimeIn(s.idleTime, s.idle[0])) {
      var t := CloseFront(s);
      BorrowLoopRejectStep(s, test, steps);
      BorrowLoopClosesRejected(t, test, steps - 1);
      var k := Rejected(s.idle, s.idleTime, test);
      assert BorrowLoop(s, test, steps).1.closeCalls == s.closeCalls + s.idle[..k] by {
        PrefixCons(s.idle, k);
        ConcatAssoc(s.closeCalls, [s.idle[0]], t.idle[..k - 1]);
      }
    }
  }

  /** Closing the front entry keeps the invariant. */
  lemma CloseFrontPreservesInv(cfg: Config, s: State)
    requires Inv(cfg, s) && s.idle != []
    ensures Inv(cfg, CloseFront(s))
  {
    var c := s.idle[0];
    var t := CloseFront(s);
    assert s.idle == [c] + t.idle;
    assert c !in t.idle;
    ClosingIdleEntryKeepsInv(cfg, s, t, c);
  }

  /** Handing out the front entry keeps the invariant once it counts as in use. */
  lemma TakeFrontPreservesInv(cfg: Config, s: State)
    requires Inv(cfg, s) && s.idle != []
    ensures Inv(cfg, s.(idle := s.idle[1..], inUse := s.inUse + {s.idle[0]}))
  {
    var c := s.idle[0];
    assert s.idle == [c] + s.idle[1..];
    assert c !in s.idle[1..];
    assert |s.inUse + {c}| == |s.inUse| + 1;
  }

  /** The idle-reuse loop keeps the invariant, counting the connection it
      hands out (which was idle) as in use. */
  lemma {:induction false} BorrowLoopPreservesInv(cfg: Config, s: State, test: HealthCheck, steps: nat)
    requires Inv(cfg, s)
    ensures var p := BorrowLoop(s, test, steps);
      && (p.0.None? ==> Inv(cfg, p.1))
      && (p.0.Some? ==> p.0.value in s.idle && Inv(cfg, p.1.(inUse := p.1.inUse + {p.0.value})))
    decreases steps
  {
    if steps != 0 && s.idle != [] {
      if Accepts(test, s.idle[0], IdleTimeIn(s.idleTime, s.idle[0])) {
        TakeFrontPreservesInv(cfg, s);
      } else {
        CloseFrontPreservesInv(cfg, s);
        BorrowLoopPreservesInv(cfg, CloseFront(s), test, steps - 1);
      }
    }
  }

  /** get's initialisation and prune pass keep the invariant and close only idle connections. */
  lemma PruneStepPreservesInv(cfg: Config, s: State, now: Time)
    requires Inv(cfg, s)
    ensures var r := PruneStep(cfg, InitStep(cfg, s, now), now);
      && Inv(cfg, r)
      && r.active + |r.closeCalls| == s.active + |s.closeCalls|
      && (forall c :: c in r.idle ==> c in s.idle)
      && (forall c :: c in r.closeCalls ==> c in s.closeCalls || c in s.idle)
  {
    var s0 := InitStep(cfg, s, now);
    var r := PruneStep(cfg, s0, now);
    PruneStepBounded(cfg, s0, now);
    if PruneDue(cfg, s0, now) {
      PruneLoopPreservesInv(cfg, s0.(nextGCTime := now + cfg.gcInterval), now, |s0.idle| / 2);
    }
    BackwardsKeepsEntries(s0.idle[|r.idle|..]);
  }

  /** The scan before get decides keeps the invariant: the connection it finds
      came from the idle list, it closes only connections that were idle, and
      every slot it releases matches one Close call. */
  lemma ScanStepPreservesInv(cfg: Config, s: State, now: Time, test: HealthCheck)
    requires Inv(cfg, s)
    ensures var p := ScanStep(cfg, s, now, test);
      && p.1.inUse == s.inUse && p.1.closed == s.closed
      && p.1.active + |p.1.closeCalls| == s.active + |s.closeCalls|
      && (forall c :: c in p.1.closeCalls ==> c in s.closeCalls || c in s.idle)
      && (p.0.None? ==> p.1.idle == [] && Inv(cfg, p.1))
      && (p.0.Some? ==> p.0.value in s.idle && Inv(cfg, p.1.(inUse := p.1.inUse + {p.0.value})))
  {
    var s1 := PruneStep(cfg, InitStep(cfg, s, now), now);
    PruneStepPreservesInv(cfg, s, now);
    PruneStepBounded(cfg, InitStep(cfg, s, now), now);
    BorrowLoopPreservesInv(cfg, s1, test, |s1.idle|);
    BorrowLoopTakesFromFront(s1, test, |s1.idle|);
    BorrowLoopClosesRejected(s1, test, |s1.idle|);
    BorrowLoopFrame(s1, test, |s1.idle|);
    var k := Rejected(s1.idle, s1.idleTime, test);
    assert forall c :: c in s1.idle[..k] ==> c in s1.idle;
  }

  // ===== Properties of get =====

  /** get keeps the invariant, whichever way it answers. */
  lemma GetStepPreservesInv(cfg: Config, s: State, now: Time, test: HealthCheck, dial: DialResult)
    requires Inv(cfg, s)
    requires dial.Dialed? ==> Unseen(s, dial.c)
    ensures Inv(cfg, GetStep(cfg, s, now, test, dial).1)
  {
    ScanStepPreservesInv(cfg, s, now, test);
    var p := ScanStep(cfg, s, now, test);
    if p.0.None? && !p.1.closed && UnderLimit(cfg, p.1) && dial.Dialed? {
      assert dial.c !in p.1.closeCalls;
      assert |p.1.inUse + {dial.c}| == |p.1.inUse| + 1;
    }
  }

  /** A connection get hands out was not in use before, is in use afterwards
      and is no longer idle: no connection is handed out twice. */
  lemma GetStepHandsOutOnce(cfg: Config, s: State, now: Time, test: HealthCheck, dial: DialResult)
    requires Inv(cfg, s)
    requires dial.Dialed? ==> Unseen(s, dial.c)
    ensures var p := GetStep(cfg, s, now, test, dial);
      p.0.Got? ==> p.0.c !in s.inUse && p.1.inUse == s.inUse + {p.0.c} && p.0.c !in p.1.idle
  {
    ScanStepPreservesInv(cfg, s, now, test);
    GetStepPreservesInv(cfg, s, now, test, dial);
  }

  /** On a closed pool get fails with "get on closed pool" and changes no count. */
  lemma GetStepOnClosedPool(cfg: Config, s: State, now: Time, test: HealthCheck, dial: DialResult)
    requires Inv(cfg, s) && s.closed
    ensures var p := GetStep(cfg, s, now, test, dial);
      && p.0 == Failed(GetOnClosedPool)
      && p.1.active == s.active && p.1.idle == s.idle && p.1.inUse == s.inUse
      && p.1.closeCalls == s.closeCalls && p.1.closed
  {
    ScanFromEmpty(cfg, s, now, test);
  }

  /** With nothing idle on an open pool at its MaxActive limit, get fails with
      ErrPoolExhausted when Wait is off and would block when it is on; either
      way no count changes. */
  lemma GetStepAtCapacity(cfg: Config, s: State, now: Time, test: HealthCheck, dial: DialResult)
    requires s.idle == [] && !s.closed && !UnderLimit(cfg, s)
    ensures var p := GetStep(cfg, s, now, test, dial);
      && p.0 == (if cfg.wait then WouldBlock else Failed(PoolExhausted))
      && p.1.active == s.active && p.1.idle == s.idle && p.1.inUse == s.inUse
      && p.1.closeCalls == s.closeCalls && !p.1.closed
  {
    ScanFromEmpty(cfg, s, now, test);
  }

  /** ErrPoolExhausted comes only from an open pool with Wait off, a MaxActive
      limit, nothing left idle and active at the limit. */
  lemma ExhaustedOnlyAtCapacity(cfg: Config, s: State, now: Time, test: HealthCheck, dial: DialResult)
    ensures var p := GetStep(cfg, s, now, test, dial);
      p.0 == Failed(PoolExhausted) ==>
        !cfg.wait && cfg.maxActive != 0 && p.1.active >= cfg.maxActive && !p.1.closed && p.1.idle == []
  {
    var s1 := PruneStep(cfg, InitStep(cfg, s, now), now);
    BorrowLoopTakesFromFront(s1, test, |s1.idle|);
  }

  /** With nothing idle on an open pool under its limit, get dials: success
      adds one active in-use connection, failure returns the dial error and is
      net zero on every count. */
  lemma GetStepDials(cfg: Config, s: State, now: Time, test: HealthCheck, dial: DialResult)
    requires s.idle == [] && !s.closed && UnderLimit(cfg, s)
    ensures var p := GetStep(cfg, s, now, test, dial);
      && p.1.idle == [] && p.1.closeCalls == s.closeCalls && !p.1.closed
      && (dial.Dialed? ==> p.0 == Got(dial.c) && p.1.active == s.active + 1 && p.1.inUse == s.inUse + {dial.c})
      && (dial.DialFailed? ==> p.0 == Failed(External(dial.code)) && p.1.active == s.active && p.1.inUse == s.inUse)
  {
    ScanFromEmpty(cfg, s, now, test);
  }

  /** With nothing idle, the scan finds nothing and only touches the prune schedule. */
  lemma ScanFromEmpty(cfg: Config, s: State, now: Time, test: HealthCheck)
    requires s.idle == []
    ensures var p := ScanStep(cfg, s, now, test);
      && p.0.None? && p.1.idle == [] && p.1.active == s.active && p.1.inUse == s.inUse
      && p.1.closeCalls == s.closeCalls && p.1.closed == s.closed
  {
  }

  /** The configuration does not decide everything: with pruning not yet due, a
      connection idle far longer than IdleTimeout is still handed out. */
  lemma StaleConnectionCanBeReused()
    ensures var cfg := Config(10, 0, 5, 100, false);
      var s := State(true, 1000, false, 1, [7], map[7 := 0], {}, []);
      var (res, r) := GetStep(cfg, s, 500, None, DialFailed(0));
      && !NotStale(cfg, s, 7, 500) && res == Got(7)
  {
  }

  /** A lone idle connection is never pruned: the prune pass examines
      ⌊1/2⌋ = 0 entries. So without TestOnBorrow, get hands it out however
      long it has been idle, even when pruning is due. */
  lemma LoneIdleEntryNeverPruned(cfg: Config, s: State, now: Time, dial: DialResult)
    requires |s.idle| == 1
    ensures PruneStep(cfg, InitStep(cfg, s, now), now).idle == s.idle
    ensures GetStep(cfg, s, now, None, dial).0 == Got(s.idle[0])
  {
    var s0 := InitStep(cfg, s, now);
    if PruneDue(cfg, s0, now) {
      PruneLoopStop(cfg, s0.(nextGCTime := now + cfg.gcInterval), now, 0);
    }
  }

  /** While pruning is not due, get without TestOnBorrow hands out the front
      idle connection, whatever its idle time. */
  lemma FrontReusedWhilePruneNotDue(cfg: Config, s: State, now: Time, dial: DialResult)
    requires s.idle != [] && !PruneDue(cfg, InitStep(cfg, s, now), now)
    ensures GetStep(cfg, s, now, None, dial).0 == Got(s.idle[0])
  {
  }

  // ===== Properties of put and Put =====

  /** put on an open pool with a healthy connection and no forced close pushes
      the connection to the front; when that exceeds MaxIdle the back entry is
      closed instead and one active slot released, so the returned connection
      keeps its slot unless MaxIdle leaves room for none. */
  lemma PutStepReidles(cfg: Config, s: State, c: ConnId, connErr: Option<Error>, forceClose: bool, now: Time)
    requires Reidles(s, connErr, forceClose)
    ensures var (victim, r) := PutStep(cfg, s, c, connErr, forceClose, now);
      && (victim.Some? <==> |s.idle| >= cfg.maxIdle)
      && (victim.None? ==> r.idle == [c] + s.idle && r.active == s.active && r.closeCalls == s.closeCalls)
      && (victim.Some? && s.idle != [] ==>
            && victim.value == s.idle[|s.idle| - 1]
            && r.idle == [c] + s.idle[..|s.idle| - 1])
      && (victim.Some? && s.idle == [] ==> victim.value == c && r.idle == [])
      && (victim.Some? ==> r.active == s.active - 1 && r.closeCalls == s.closeCalls + [victim.value])
      && r.idleTime == s.idleTime[c := now] && r.inUse == s.inUse - {c} && !r.closed
  {
  }

  /** put on a closed pool, with a connection that reports an error, or with a
      forced close, closes that connection and releases its slot, leaving the
      idle list as it was. */
  lemma PutStepCloses(cfg: Config, s: State, c: ConnId, connErr: Option<Error>, forceClose: bool, now: Time)
    requires !Reidles(s, connErr, forceClose)
    ensures var (victim, r) := PutStep(cfg, s, c, connErr, forceClose, now);
      && victim == Some(c) && r.idle == s.idle && r.active == s.active - 1
      && r.closeCalls == s.closeCalls + [c] && r.inUse == s.inUse - {c} && r.closed == s.closed
  {
  }

  /** put never grows the idle list past MaxIdle, and grows it by at most one. */
  lemma PutStepKeepsIdleBound(cfg: Config, s: State, c: ConnId, connErr: Option<Error>, forceClose: bool, now: Time)
    ensures var r := PutStep(cfg, s, c, connErr, forceClose, now).1;
      && (|s.idle| <= cfg.maxIdle ==> |r.idle| <= cfg.maxIdle)
      && |r.idle| <= |s.idle| + 1
  {
  }

  /** Pushing a returned in-use connection onto the front keeps the
      invariant, apart from the MaxIdle bound. */
  lemma PushFrontKeepsInv(cfg: Config, s: State, c: ConnId, now: Time)
    requires Inv(cfg, s) && c in s.inUse && !s.closed
    ensures var p := s.(inUse := s.inUse - {c}, idle := [c] + s.idle, idleTime := s.idleTime[c := now]);
      Inv(cfg.(maxIdle := |p.idle|), p)
  {
    assert |s.inUse - {c}| == |s.inUse| - 1;
    assert c !in s.idle && c !in s.closeCalls;
    var p := s.(inUse := s.inUse - {c}, idle := [c] + s.idle, idleTime := s.idleTime[c := now]);
    forall i, j | 0 <= i < j < |p.idle| ensures p.idle[i] != p.idle[j] {
      if i == 0 {
        assert p.idle[j] == s.idle[j - 1];
      } else {
        assert p.idle[i] == s.idle[i - 1] && p.idle[j] == s.idle[j - 1];
      }
    }
  }

  /** Closing a returned in-use connection and releasing its slot keeps the invariant. */
  lemma CloseReturnedKeepsInv(cfg: Config, s: State, c: ConnId)
    requires Inv(cfg, s) && c in s.inUse
    ensures Inv(cfg, s.(inUse := s.inUse - {c}, active := s.active - 1, closeCalls := s.closeCalls + [c]))
  {
    assert |s.inUse - {c}| == |s.inUse| - 1;
    assert c !in s.closeCalls && c !in s.idle;
    var t := s.(inUse := s.inUse - {c}, active := s.active - 1, closeCalls := s.closeCalls + [c]);
    forall i, j | 0 <= i < j < |t.closeCalls| ensures t.closeCalls[i] != t.closeCalls[j] {
      if j == |s.closeCalls| {
        assert t.closeCalls[i] in s.closeCalls;
      } else {
        assert t.closeCalls[i] == s.closeCalls[i] && t.closeCalls[j] == s.closeCalls[j];
      }
    }
  }

  /** Putting back an in-use connection keeps the invariant, and the
      connection is in use no more. */
  lemma PutStepPreservesInv(cfg: Config, s: State, c: ConnId, connErr: Option<Error>, forceClose: bool, now: Time)
    requires Inv(cfg, s) && c in s.inUse
    ensures var r := PutStep(cfg, s, c, connErr, forceClose, now).1;
      Inv(cfg, r) && c !in r.inUse
  {
    if Reidles(s, connErr, forceClose) {
      var p := s.(inUse := s.inUse - {c}, idle := [c] + s.idle, idleTime := s.idleTime[c := now]);
      PushFrontKeepsInv(cfg, s, c, now);
      if |p.idle| > cfg.maxIdle {
        EvictBackPreservesInv(cfg.(maxIdle := |p.idle|), p);
      }
    } else {
      CloseReturnedKeepsInv(cfg, s, c);
    }
  }

  // ===== Properties of Close =====

  /** Close empties the idle list, marks the pool closed, closes each formerly
      idle connection exactly once, and leaves active counting only the
      connections in use. */
  lemma CloseStepDrains(cfg: Config, s: State)
    requires Inv(cfg, s)
    ensures var r := CloseStep(s);
      && r.idle == [] && r.closed && r.active == |s.inUse|
      && r.closeCalls == s.closeCalls + s.idle && Distinct(r.closeCalls)
      && Inv(cfg, r)
  {
    var r := CloseStep(s);
    forall i, j | 0 <= i < j < |r.closeCalls| ensures r.closeCalls[i] != r.closeCalls[j] {
      if i < |s.closeCalls| <= j {
        assert r.closeCalls[j] in s.idle;
      }
    }
  }

  /** A second Close changes nothing. */
  lemma CloseStepIdempotent(s: State)
    ensures CloseStep(CloseStep(s)) == CloseStep(s)
  {
    assert CloseStep(s).closeCalls + [] == CloseStep(s).closeCalls;
  }

  /** Once closed, every later get fails and the pool stays closed. */
  lemma GetAfterCloseFails(cfg: Config, s: State, now: Time, test: HealthCheck, dial: DialResult)
    requires Inv(cfg, s)
    ensures var (res, r) := GetStep(cfg, CloseStep(s), now, test, dial);
      res == Failed(GetOnClosedPool) && r.closed
  {
    CloseStepDrains(cfg, s);
    GetStepOnClosedPool(cfg, CloseStep(s), now, test, dial);
  }
}
