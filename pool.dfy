/** The Pool object: its fields, updated in place by get, put, Close and
    release. The public operations keep Valid(); the parts of get (Prune,
    EvictStale, Borrow, Answer) are each proved to have exactly the effect
    of the matching function of PoolState, and TryGet re-establishes Valid()
    through GetStepPreservesInv. The mutex and the condition variable are
    left out: every method body is one critical section. */
module PoolCore {
  import opened Errors
  import opened PoolState

  class Pool {
    /** MaxIdle, MaxActive, IdleTimeout, GCInterval and Wait; the pool never writes them.
        Dial and TestOnBorrow are given to each get as `dial` and `test`. */
    const cfg: Config

    var initialized: bool
    var nextGCTime: Time
    var closed: bool
    var active: int
    /** The idle stack, most recently returned at the front. */
    var idle: seq<ConnId>
    /** What each connection's GetIdleTime reports: the time MarkIdleTime stored. */
    var idleTime: map<ConnId, Time>
    /** Every Close the pool called on a connection, in order. */
    var closeCalls: seq<ConnId>
    /** The connections handed out by get and not yet put back. */
    ghost var inUse: set<ConnId>

    ghost function Abs(): State
      reads this
    {
      State(initialized, nextGCTime, closed, active, idle, idleTime, inUse, closeCalls)
    }

    ghost predicate Valid()
      reads this
    {
      Inv(cfg, Abs())
    }

    /** A Pool literal: the given configuration and every other field at its zero value. */
    constructor (cfg: Config)
      ensures this.cfg == cfg
      ensures Abs() == State(false, ZeroTime, false, 0, [], map[], {}, [])
      ensures Valid()
    {
      this.cfg := cfg;
      initialized := false;
      nextGCTime := ZeroTime;
      closed := false;
      active := 0;
      idle := [];
      idleTime := map[];
      closeCalls := [];
      inUse := {};
    }

    /** NewPool: only MaxIdle set, and the prune schedule starting at now. */
    static method NewPool(maxIdle: int, now: Time) returns (p: Pool)
      ensures fresh(p)
      ensures p.cfg == Config(maxIdle, 0, 0, 0, false)
      ensures p.Abs() == State(false, now, false, 0, [], map[], {}, [])
      ensures p.Valid()
    {
      p := new Pool(Config(maxIdle, 0, 0, 0, false));
      p.nextGCTime := now;
    }

    /** release: one active slot fewer; nothing else changes. */
    method Release()
      modifies this`active
      ensures active == old(active) - 1
    {
      active := active - 1;
    }

    /** ActiveCount: every connection the pool has open, idle or handed out. */
    method ActiveCount() returns (n: int)
      requires Valid()
      ensures n == |idle| + |inUse|
      ensures n == Abs().active
    {
      n := active;
    }

    /** IdleCount: the length of the idle stack, which never exceeds MaxIdle. */
    method IdleCount() returns (n: int)
      requires Valid()
      ensures n == |idle|
      ensures n == 0 || n <= cfg.maxIdle
    {
      n := |idle|;
    }

    /** get's first part: lazy initialisation of the schedule and, when due,
        the prune pass over at most half of the idle stack, from the back. */
    method Prune(now: Time)
      modifies this
      ensures Abs() == PruneStep(cfg, InitStep(cfg, old(Abs()), now), now)
    {
      if !initialized {
        initialized := true;
        nextGCTime := now + cfg.gcInterval;
      }
      if cfg.idleTimeout > 0 && now > nextGCTime {
        nextGCTime := now + cfg.gcInterval;
        EvictStale(now, |idle| / 2);
      }
    }

    /** The prune loop: for at most `steps` iterations, evict the back idle
        entry while it is stale, closing it and releasing its slot. */
    method EvictStale(now: Time, steps: nat)
      modifies this
      ensures Abs() == PruneLoop(cfg, old(Abs()), now, steps)
    {
      var i := 0;
      while i < steps
        invariant 0 <= i <= steps
        invariant PruneLoop(cfg, Abs(), now, steps - i) == PruneLoop(cfg, old(Abs()), now, steps)
      {
        if idle == [] {
          break;
        }
        var c := idle[|idle| - 1];
        if IdleTimeIn(idleTime, c) + cfg.idleTimeout > now {
          break;
        }
        ghost var before := Abs();
        idle := idle[..|idle| - 1];
        Release();
        closeCalls := closeCalls + [c];
        assert Abs() == EvictBack(before);
        PruneLoopEvictStep(cfg, before, now, steps - i);
        i := i + 1;
      }
      PruneLoopStop(cfg, Abs(), now, steps - i);
    }

    /** get's idle-reuse loop: pop the front entry and hand it out if the
        health check accepts it; otherwise close it and release its slot. */
    method Borrow(test: HealthCheck) returns (found: Option<ConnId>)
      modifies this
      ensures (found, Abs()) == BorrowLoop(old(Abs()), test, |old(idle)|)
    {
      var n := |idle|;
      var i := 0;
      while i < n
        invariant 0 <= i <= n
        invariant BorrowLoop(Abs(), test, n - i) == BorrowLoop(old(Abs()), test, n)
      {
        if idle == [] {
          break;
        }
        ghost var before := Abs();
        var c := idle[0];
        idle := idle[1..];
        if test.None? || test.value(c, IdleTimeIn(idleTime, c)) {
          return Some(c);
        }
        closeCalls := closeCalls + [c];
        Release();
        assert Abs() == CloseFront(before);
        i := i + 1;
      }
      found := None;
    }

    /** get after the idle scan: hand out what the scan found, or else fail
        on a closed pool, dial under the limit, fail with ErrPoolExhausted,
        or wait. */
    method Answer(found: Option<ConnId>, dial: DialResult) returns (r: GetResult)
      modifies this
      ensures (r, Abs()) == PoolState.Answer(cfg, found, old(Abs()), dial)
    {
      if found.Some? {
        inUse := inUse + {found.value};
        r := Got(found.value);
      } else if closed {
        r := Failed(GetOnClosedPool);
      } else if cfg.maxActive == 0 || active < cfg.maxActive {
        active := active + 1;
        match dial
        case Dialed(c) =>
          inUse := inUse + {c};
          r := Got(c);
        case DialFailed(code) =>
          Release();
          r := Failed(External(code));
      } else if !cfg.wait {
        r := Failed(PoolExhausted);
      } else {
        r := WouldBlock;
      }
    }

    /** get: prune, reuse an idle connection, or else dial or fail. */
    method TryGet(now: Time, test: HealthCheck, dial: DialResult) returns (r: GetResult)
      requires Valid()
      requires dial.Dialed? ==> Unseen(Abs(), dial.c)
      modifies this
      ensures Valid()
      ensures (r, Abs()) == GetStep(cfg, old(Abs()), now, test, dial)
    {
      GetStepPreservesInv(cfg, Abs(), now, test, dial);
      Prune(now);
      var found := Borrow(test);
      r := Answer(found, dial);
    }

    /** Get: the result of get, with an error handed out inside the sentinel. */
    method Get(now: Time, test: HealthCheck, dial: DialResult) returns (o: GetOutcome)
      requires Valid()
      requires dial.Dialed? ==> Unseen(Abs(), dial.c)
      modifies this
      ensures Valid()
      ensures var (r, s) := GetStep(cfg, old(Abs()), now, test, dial);
        o == Wrap(r) && Abs() == s
    {
      var r := TryGet(now, test, dial);
      o := Wrap(r);
    }

    /** put: take back a connection handed out earlier. `connErr` is what its
        Err reports and `closeErr` what its Close returns, should the pool close it. */
    method PutBack(c: ConnId, forceClose: bool, connErr: Option<Error>, closeErr: Option<Error>, now: Time)
      returns (r: Option<Error>)
      requires Valid() && c in inUse
      modifies this
      ensures Valid()
      ensures var (victim, s) := PutStep(cfg, old(Abs()), c, connErr, forceClose, now);
        Abs() == s && r == (if victim.Some? then closeErr else None)
    {
      ghost var s0 := Abs();
      PutStepPreservesInv(cfg, s0, c, connErr, forceClose, now);
      var victim: Option<ConnId> := Some(c);
      inUse := inUse - {c};
      if !closed && connErr.None? && !forceClose {
        idleTime := idleTime[c := now];
        idle := [c] + idle;
        if |idle| > cfg.maxIdle {
          victim := Some(idle[|idle| - 1]);
          idle := idle[..|idle| - 1];
        } else {
          victim := None;
        }
      }
      if victim.None? {
        r := None;
        assert (victim, Abs()) == PutStep(cfg, s0, c, connErr, forceClose, now);
      } else {
        Release();
        closeCalls := closeCalls + [victim.value];
        r := closeErr;
        assert (victim, Abs()) == PutStep(cfg, s0, c, connErr, forceClose, now);
      }
    }

    /** Put: nil and the sentinel are ignored; anything else goes through put. */
    method Put(h: Handle, forceClose: bool, connErr: Option<Error>, closeErr: Option<Error>, now: Time)
      returns (r: Option<Error>)
      requires Valid() && (h.Live? ==> h.c in inUse)
      modifies this
      ensures Valid()
      ensures var (victim, s) := PutHandleStep(cfg, old(Abs()), h, connErr, forceClose, now);
        Abs() == s && r == (if victim.Some? then closeErr else None)
    {
      match h
      case NilConn =>
        return None;
      case ErrorConnection(_) =>
        return None;
      case Live(c) =>
        r := PutBack(c, forceClose, connErr, closeErr, now);
    }

    /** Close: detach the idle stack, mark the pool closed, then close each
        detached connection front to back, ignoring their errors. */
    method Close() returns (r: Option<Error>)
      requires Valid()
      modifies this
      ensures Valid()
      ensures Abs() == CloseStep(old(Abs()))
      ensures r == None
    {
      CloseStepDrains(cfg, Abs());
      var detached := idle;
      idle := [];
      closed := true;
      active := active - |detached|;
      var i := 0;
      while i < |detached|
        invariant 0 <= i <= |detached|
        invariant Abs() == CloseStep(old(Abs())).(closeCalls := old(closeCalls) + detached[..i])
      {
        closeCalls := closeCalls + [detached[i]];
        i := i + 1;
        assert detached[..i] == detached[..i - 1] + [detached[i - 1]];
      }
      assert detached[..|detached|] == detached;
      r := None;
    }
  }
}
