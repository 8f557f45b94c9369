/**
 * mutex.go: an RWMutex that records, per goroutine id, who holds it for
 * writing (wlockInfo) and for reading (rlockInfo); that refuses a goroutine's
 * second Lock and its Lock or RLock under its own Lock; and that watches every
 * acquisition with a timer whose monitor reports a wait longer than the
 * timeout to a handler.
 *
 * The model is sequential. The embedded sync.RWMutex is the pair (writing,
 * readers), which decides whether an acquisition is granted at once or waits;
 * a waiting acquisition is an Attempt, completed by GrantLock or GrantRLock
 * once the primitive allows it. Clock readings and goroutine ids are
 * parameters, and a handler is a Go func value known by its identity. The
 * timers live in Globals together with the state of their channels, so that
 * a timer's one tick, the monitor's receive and Stop are steps of the model.
 */
module Deadlock {
  import opened Wrappers

  type GoroutineId = int

  /** time.Duration: nanoseconds. */
  type Duration = int

  /** A reading of time.Now, in nanoseconds. */
  type Time = int

  type TimerId = nat

  const Second: Duration := 1_000_000_000

  /** The global timeout the package starts with. */
  const DefaultLockTimeout: Duration := 2 * Second

  /** A func(dur, file, line) value, by identity; a nil func is None. */
  datatype Handler = Handler(id: nat)

  /** The package's own handler, which prints the report to standard error. */
  const DefaultHandler: Handler := Handler(0)

  /** Who holds or waits for the lock, at which call site, and since when. */
  datatype LockInfo = LockInfo(goid: GoroutineId, file: string, line: int, lockTime: Time)

  /** The panics of Lock and RLock: the caller's id and the site recorded by
      the entry that refuses it. */
  datatype LockPanic =
    | DoubleLock(goid: GoroutineId, file: string, line: int)
    | DoubleReadLock(goid: GoroutineId, file: string, line: int)

  /** An acquisition that has passed its checks and armed its timer, if any,
      and now waits for the primitive. */
  datatype Attempt = Attempt(goid: GoroutineId, info: LockInfo, timer: Option<TimerId>)

  datatype Acquire = Panicked(reason: LockPanic) | Acquired | Waiting(attempt: Attempt)

  /** What the monitor hands to the handler. */
  datatype Report = Report(handler: Handler, spent: Duration, file: string, line: int)

  /** A timer from time.NewTimer and its channel C, which is sent at most one
      tick. Armed: running. Ticked: fired, the tick waits in C. Received: the
      tick has been taken from C. Stopped: stopped before it fired. */
  datatype TimerState = Armed | Ticked | Received | Stopped

  /** timer.Stop() changes only a running timer. */
  function AfterStop(s: TimerState): TimerState
  {
    if s == Armed then Stopped else s
  }

  function TimerSet(t: Option<TimerId>): set<TimerId>
  {
    if t.Some? then {t.value} else {}
  }

  // ---------------------------------------------------------------------------
  // The choice of timeout and handler.

  /** The timeout an acquisition arms its timer with: the instance's unless it
      is zero. A timer is armed only when this is positive, so an instance
      timeout of zero falls back to the global one. */
  function AcquireTimeout(instance: Duration, global: Duration): (d: Duration)
    ensures d == instance || d == global
    ensures d <= 0 <==> (instance == 0 && global <= 0) || instance < 0
  {
    if instance == 0 then global else instance
  }

  /** The timeout the monitor compares the wait against: the instance's when
      it is positive. */
  function MonitorTimeout(instance: Duration, global: Duration): (d: Duration)
    ensures d == instance || d == global
    ensures d > 0 ==> d == instance || instance <= 0
  {
    if instance > 0 then instance else global
  }

  /** For every watched acquisition the monitor uses the timeout the timer was
      armed with, although one choice tests `!= 0` and the other `> 0`, as
      long as neither timeout is changed between the acquisition and the
      tick: the monitor reads both settings again when the tick arrives. */
  lemma WatchedTimeoutsAgree(instance: Duration, global: Duration)
    requires AcquireTimeout(instance, global) > 0
    ensures MonitorTimeout(instance, global) == AcquireTimeout(instance, global)
  {
  }

  /** The instance's handler unless it is nil. */
  function ChooseHandler(instance: Option<Handler>, global: Option<Handler>): (h: Option<Handler>)
    ensures h.Some? <==> instance.Some? || global.Some?
    ensures instance.Some? ==> h == instance
  {
    if instance.Some? then instance else global
  }

  datatype Decision = Quiet | Call(handler: Handler) | CallNil

  /** The monitor's decision on a tick, as written: report a wait strictly
      longer than the timeout to the chosen handler, and, when neither the
      instance nor the package has a handler, call the nil func. */
  function DecideAsWritten(spent: Duration, instTimeout: Duration, instHandler: Option<Handler>,
                           globalTimeout: Duration, globalHandler: Option<Handler>): Decision
  {
    if spent > MonitorTimeout(instTimeout, globalTimeout) then
      match ChooseHandler(instHandler, globalHandler)
      case Some(h) => Call(h)
      case None => CallNil
    else Quiet
  }

  /** With both handlers nil, a wait past the timeout calls a nil func, which
      panics in the monitor goroutine, although a nil handler is documented to
      turn checking off. */
  lemma NilHandlersCallNil()
    ensures DecideAsWritten(3 * Second, 0, None, DefaultLockTimeout, None) == CallNil
  {
  }

  /** The monitor's decision with a nil handler turning the report off: the
      same as written, except that it never calls a nil func. */
  function Decide(spent: Duration, instTimeout: Duration, instHandler: Option<Handler>,
                  globalTimeout: Duration, globalHandler: Option<Handler>): (d: Decision)
    ensures !d.CallNil?
    ensures d.Call? <==> spent > MonitorTimeout(instTimeout, globalTimeout) && (instHandler.Some? || globalHandler.Some?)
    ensures d.Call? ==> Some(d.handler) == ChooseHandler(instHandler, globalHandler)
    ensures var w := DecideAsWritten(spent, instTimeout, instHandler, globalTimeout, globalHandler);
      d == w || (w.CallNil? && d.Quiet?)
  {
    match DecideAsWritten(spent, instTimeout, instHandler, globalTimeout, globalHandler)
    case CallNil => Quiet
    case other => other
  }

  // ---------------------------------------------------------------------------
  // Package state: the global timeout and handler, the watched timers.

  class Globals {
    var lockTimeout: Duration
    var lockTimeoutHandler: Option<Handler>
    /** globalTimers: the timers of acquisitions that have not been granted. */
    var globalTimers: set<TimerId>
    /** Every timer made so far, with the state of its channel. */
    var timers: map<TimerId, TimerState>
    var nextTimer: TimerId

    ghost predicate Valid()
      reads this
    {
      && globalTimers <= timers.Keys
      && forall t :: t in timers ==> t < nextTimer
    }

    constructor ()
      ensures Valid()
      ensures lockTimeout == DefaultLockTimeout && lockTimeoutHandler == Some(DefaultHandler)
      ensures globalTimers == {} && timers == map[]
    {
      lockTimeout := DefaultLockTimeout;
      lockTimeoutHandler := Some(DefaultHandler);
      globalTimers := {};
      timers := map[];
      nextTimer := 0;
    }

    method SetGlobalLockTimeout(duration: Duration, handler: Option<Handler>)
      modifies this
      ensures lockTimeout == duration && lockTimeoutHandler == handler
      ensures globalTimers == old(globalTimers) && timers == old(timers) && nextTimer == old(nextTimer)
    {
      lockTimeout := duration;
      lockTimeoutHandler := handler;
    }

    /** time.NewTimer: a new running timer. */
    method NewTimer() returns (t: TimerId)
      requires Valid()
      modifies this
      ensures Valid() && t !in old(timers) && timers == old(timers)[t := Armed]
      ensures globalTimers == old(globalTimers)
      ensures lockTimeout == old(lockTimeout) && lockTimeoutHandler == old(lockTimeoutHandler)
    {
      t := nextTimer;
      timers := timers[t := Armed];
      nextTimer := nextTimer + 1;
    }

    /** The runtime sends the timer's tick once its duration has passed. */
    method Fire(t: TimerId)
      requires Valid() && t in timers && timers[t] == Armed
      modifies this
      ensures Valid() && timers == old(timers)[t := Ticked]
      ensures globalTimers == old(globalTimers) && nextTimer == old(nextTimer)
      ensures lockTimeout == old(lockTimeout) && lockTimeoutHandler == old(lockTimeoutHandler)
    {
      timers := timers[t := Ticked];
    }

    /** A receive from timer.C that finds the tick waiting. */
    method Receive(t: TimerId)
      requires Valid() && t in timers && timers[t] == Ticked
      modifies this
      ensures Valid() && timers == old(timers)[t := Received]
      ensures globalTimers == old(globalTimers) && nextTimer == old(nextTimer)
      ensures lockTimeout == old(lockTimeout) && lockTimeoutHandler == old(lockTimeoutHandler)
    {
      timers := timers[t := Received];
    }

    /** timer.Stop(): true exactly when it stops a running timer. */
    method Stop(t: TimerId) returns (active: bool)
      requires Valid() && t in timers
      modifies this
      ensures Valid() && active == (old(timers[t]) == Armed)
      ensures timers == old(timers)[t := AfterStop(old(timers[t]))]
      ensures globalTimers == old(globalTimers) && nextTimer == old(nextTimer)
      ensures lockTimeout == old(lockTimeout) && lockTimeoutHandler == old(lockTimeoutHandler)
    {
      active := timers[t] == Armed;
      timers := timers[t := AfterStop(timers[t])];
    }

    /** Stop, and receive the tick when Stop reports that the timer had
        already fired, as written after a granted acquisition and in
        ResetGlobalTimers. The result says whether that receive waits forever:
        it does when the timer was stopped before, or when the monitor
        goroutine, which ranges over the same channel, has already taken the
        only tick. */
    method StopAndDrain(t: TimerId) returns (blocked: bool)
      requires Valid() && t in timers
      modifies this
      ensures Valid()
      ensures blocked <==> old(timers[t]) == Received || old(timers[t]) == Stopped
      ensures timers == old(timers)[t := if old(timers[t]) == Ticked then Received else AfterStop(old(timers[t]))]
      ensures globalTimers == old(globalTimers) && nextTimer == old(nextTimer)
      ensures lockTimeout == old(lockTimeout) && lockTimeoutHandler == old(lockTimeoutHandler)
    {
      var active := Stop(t);
      blocked := false;
      if !active {
        if timers[t] == Ticked {
          Receive(t);
        } else {
          blocked := true;
        }
      }
    }

    /** Arms a watch timer when the timeout is positive and adds it to
        globalTimers. */
    method Watch(timeout: Duration) returns (t: Option<TimerId>)
      requires Valid()
      modifies this
      ensures Valid() && (t.Some? <==> timeout > 0)
      ensures t.Some? ==> t.value !in old(timers) && timers == old(timers)[t.value := Armed]
      ensures t.None? ==> timers == old(timers)
      ensures globalTimers == old(globalTimers) + TimerSet(t)
      ensures lockTimeout == old(lockTimeout) && lockTimeoutHandler == old(lockTimeoutHandler)
    {
      t := None;
      if timeout > 0 {
        var id := NewTimer();
        globalTimers := globalTimers + {id};
        t := Some(id);
      }
    }

    /** Stops a watch timer and removes it from globalTimers, once its
        acquisition is granted. */
    method Unwatch(t: Option<TimerId>)
      requires Valid() && (t.Some? ==> t.value in timers)
      modifies this
      ensures Valid() && globalTimers == old(globalTimers) - TimerSet(t)
      ensures t.Some? ==> timers == old(timers)[t.value := AfterStop(old(timers[t.value]))]
      ensures t.None? ==> timers == old(timers)
      ensures lockTimeout == old(lockTimeout) && lockTimeoutHandler == old(lockTimeoutHandler)
    {
      if t.Some? {
        var active := Stop(t.value);
        globalTimers := globalTimers - {t.value};
      }
    }

    /** ResetGlobalTimers: stop every watched timer, then drop them all from
        globalTimers. The timers are stopped without the drain that follows a
        failed Stop in the Go code, which would wait forever for a timer whose
        tick the monitor has already taken (StopAndDrain). */
    method ResetGlobalTimers()
      requires Valid()
      modifies this
      ensures Valid() && globalTimers == {}
      ensures timers.Keys == old(timers).Keys
      ensures forall t :: t in timers ==>
        timers[t] == if t in old(globalTimers) then AfterStop(old(timers)[t]) else old(timers)[t]
      ensures lockTimeout == old(lockTimeout) && lockTimeoutHandler == old(lockTimeoutHandler)
    {
      var reseted: seq<TimerId> := [];
      var pending := globalTimers;
      while pending != {}
        invariant Valid() && globalTimers == old(globalTimers) && pending <= globalTimers
        invariant forall t :: t in reseted <==> t in old(globalTimers) && t !in pending
        invariant timers.Keys == old(timers).Keys
        invariant forall t :: t in timers ==>
          timers[t] == if t in old(globalTimers) && t !in pending then AfterStop(old(timers)[t]) else old(timers)[t]
        invariant lockTimeout == old(lockTimeout) && lockTimeoutHandler == old(lockTimeoutHandler)
        decreases pending
      {
        var t :| t in pending;
        var active := Stop(t);
        reseted := reseted + [t];
        pending := pending - {t};
      }
      ghost var stopped := timers;
      for i := 0 to |reseted|
        invariant Valid() && timers == stopped
        invariant lockTimeout == old(lockTimeout) && lockTimeoutHandler == old(lockTimeoutHandler)
        invariant forall t :: t in globalTimers <==> t in old(globalTimers) && t !in reseted[..i]
      {
        globalTimers := globalTimers - {reseted[i]};
      }
      assert reseted[..|reseted|] == reseted;
    }
  }

  // ---------------------------------------------------------------------------
  // The instrumented RWMutex.

  class RWMutex {
    var wlockInfo: map<GoroutineId, LockInfo>
    var rlockInfo: map<GoroutineId, LockInfo>
    var lockTimeout: Duration
    var lockTimeoutHandler: Option<Handler>
    /** The embedded sync.RWMutex: held for writing, and its number of read holds. */
    var writing: bool
    var readers: nat

    ghost predicate Valid()
      reads this
    {
      writing ==> readers == 0
    }

    /** The zero RWMutex: unlocked, nobody recorded, no own timeout or handler. */
    constructor ()
      ensures Valid() && wlockInfo == map[] && rlockInfo == map[]
      ensures lockTimeout == 0 && lockTimeoutHandler == None && !writing && readers == 0
    {
      wlockInfo := map[];
      rlockInfo := map[];
      lockTimeout := 0;
      lockTimeoutHandler := None;
      writing := false;
      readers := 0;
    }

    method SetLockTimeout(duration: Duration, handler: Option<Handler>)
      modifies this
      ensures lockTimeout == duration && lockTimeoutHandler == handler
      ensures wlockInfo == old(wlockInfo) && rlockInfo == old(rlockInfo)
      ensures writing == old(writing) && readers == old(readers)
    {
      lockTimeout := duration;
      lockTimeoutHandler := handler;
    }

    /** Lock by goroutine goid at file:line, at time now. It panics when goid
        already holds the lock for writing or for reading, before anything is
        recorded; otherwise it arms its watch and is granted at once when the
        primitive is free, or else waits. */
    method Lock(g: Globals, goid: GoroutineId, file: string, line: int, now: Time) returns (r: Acquire)
      requires Valid() && g.Valid()
      modifies this, g
      ensures Valid() && g.Valid()
      ensures r.Panicked? <==> goid in old(wlockInfo) || goid in old(rlockInfo)
      ensures goid in old(wlockInfo) ==>
        r == Panicked(DoubleLock(goid, old(wlockInfo)[goid].file, old(wlockInfo)[goid].line))
      ensures goid !in old(wlockInfo) && goid in old(rlockInfo) ==>
        r == Panicked(DoubleReadLock(goid, old(rlockInfo)[goid].file, old(rlockInfo)[goid].line))
      ensures r.Panicked? ==> unchanged(this) && unchanged(g)
      ensures !r.Panicked? ==> (r.Acquired? <==> !old(writing) && old(readers) == 0)
      ensures r.Acquired? ==> writing && wlockInfo == old(wlockInfo)[goid := LockInfo(goid, file, line, now)]
      ensures r.Acquired? ==> g.globalTimers == old(g.globalTimers)
      ensures r.Acquired? ==> KeepsTimers(g)
      ensures r.Waiting? ==> Watching(g, r.attempt, goid, LockInfo(goid, file, line, now), AcquireTimeout(old(lockTimeout), old(g.lockTimeout)))
      ensures r.Waiting? ==> wlockInfo == old(wlockInfo) && writing == old(writing) && readers == old(readers)
      ensures rlockInfo == old(rlockInfo) && lockTimeout == old(lockTimeout) && lockTimeoutHandler == old(lockTimeoutHandler)
      ensures g.lockTimeout == old(g.lockTimeout) && g.lockTimeoutHandler == old(g.lockTimeoutHandler)
    {
      if goid in wlockInfo {
        var held := wlockInfo[goid];
        return Panicked(DoubleLock(goid, held.file, held.line));
      }
      if goid in rlockInfo {
        var held := rlockInfo[goid];
        return Panicked(DoubleReadLock(goid, held.file, held.line));
      }
      var a := Begin(g, goid, file, line, now);
      if !writing && readers == 0 {
        GrantLock(g, a);
        r := Acquired;
      } else {
        r := Waiting(a);
      }
    }

    /** RLock by goroutine goid: it panics only when goid holds the lock for
        writing; a second RLock by the same goroutine is let through and
        overwrites its entry. */
    method RLock(g: Globals, goid: GoroutineId, file: string, line: int, now: Time) returns (r: Acquire)
      requires Valid() && g.Valid()
      modifies this, g
      ensures Valid() && g.Valid()
      ensures goid in old(wlockInfo) <==> r.Panicked?
      ensures goid in old(wlockInfo) ==>
        r == Panicked(DoubleLock(goid, old(wlockInfo)[goid].file, old(wlockInfo)[goid].line))
      ensures r.Panicked? ==> unchanged(this) && unchanged(g)
      ensures !r.Panicked? ==> (r.Acquired? <==> !old(writing))
      ensures r.Acquired? ==> readers == old(readers) + 1 && rlockInfo == old(rlockInfo)[goid := LockInfo(goid, file, line, now)]
      ensures r.Acquired? ==> g.globalTimers == old(g.globalTimers)
      ensures r.Acquired? ==> KeepsTimers(g)
      ensures r.Waiting? ==> Watching(g, r.attempt, goid, LockInfo(goid, file, line, now), AcquireTimeout(old(lockTimeout), old(g.lockTimeout)))
      ensures r.Waiting? ==> rlockInfo == old(rlockInfo) && writing == old(writing) && readers == old(readers)
      ensures wlockInfo == old(wlockInfo) && lockTimeout == old(lockTimeout) && lockTimeoutHandler == old(lockTimeoutHandler)
      ensures g.lockTimeout == old(g.lockTimeout) && g.lockTimeoutHandler == old(g.lockTimeoutHandler)
    {
      if goid in wlockInfo {
        var held := wlockInfo[goid];
        return Panicked(DoubleLock(goid, held.file, held.line));
      }
      var a := Begin(g, goid, file, line, now);
      if !writing {
        GrantRLock(g, a);
        r := Acquired;
      } else {
        r := Waiting(a);
      }
    }

    /** The attempt waits with the caller's info and a fresh running timer in
        globalTimers exactly when the timeout is positive. */
    twostate predicate Watching(g: Globals, a: Attempt, goid: GoroutineId, info: LockInfo, timeout: Duration)
      reads g
    {
      && a.goid == goid && a.info == info
      && (a.timer.Some? <==> timeout > 0)
      && (a.timer.Some? ==> a.timer.value !in old(g.timers) && g.timers == old(g.timers)[a.timer.value := Armed])
      && (a.timer.None? ==> g.timers == old(g.timers))
      && g.globalTimers == old(g.globalTimers) + TimerSet(a.timer)
    }

    /** An acquisition granted at once leaves every existing timer in its
        state; a timer it armed itself is already stopped. */
    twostate predicate KeepsTimers(g: Globals)
      reads g
    {
      && (forall t :: t in old(g.timers) ==> t in g.timers && g.timers[t] == old(g.timers)[t])
      && (forall t :: t in g.timers && t !in old(g.timers) ==> g.timers[t] == Stopped)
    }

    /** The part Lock and RLock share once the checks pass: record the
        caller's info and arm the watch with the effective timeout. */
    method Begin(g: Globals, goid: GoroutineId, file: string, line: int, now: Time) returns (a: Attempt)
      requires g.Valid()
      modifies g
      ensures g.Valid()
      ensures Watching(g, a, goid, LockInfo(goid, file, line, now), AcquireTimeout(lockTimeout, old(g.lockTimeout)))
      ensures g.lockTimeout == old(g.lockTimeout) && g.lockTimeoutHandler == old(g.lockTimeoutHandler)
    {
      var info := LockInfo(goid, file, line, now);
      var timeout := AcquireTimeout(lockTimeout, g.lockTimeout);
      var t := g.Watch(timeout);
      a := Attempt(goid, info, t);
    }

    /** The primitive grants the write lock: store the caller's info, stop
        the watch timer and drop it from globalTimers. */
    method GrantLock(g: Globals, a: Attempt)
      requires Valid() && g.Valid() && !writing && readers == 0
      requires a.timer.Some? ==> a.timer.value in g.timers
      modifies this, g
      ensures Valid() && g.Valid() && writing && readers == 0
      ensures wlockInfo == old(wlockInfo)[a.goid := a.info] && rlockInfo == old(rlockInfo)
      ensures lockTimeout == old(lockTimeout) && lockTimeoutHandler == old(lockTimeoutHandler)
      ensures g.globalTimers == old(g.globalTimers) - TimerSet(a.timer)
      ensures a.timer.Some? ==> g.timers == old(g.timers)[a.timer.value := AfterStop(old(g.timers[a.timer.value]))]
      ensures a.timer.None? ==> g.timers == old(g.timers)
      ensures g.lockTimeout == old(g.lockTimeout) && g.lockTimeoutHandler == old(g.lockTimeoutHandler)
    {
      writing := true;
      wlockInfo := wlockInfo[a.goid := a.info];
      g.Unwatch(a.timer);
    }

    /** The primitive grants a read lock: count it, store (or overwrite) the
        caller's info, stop the watch timer and drop it from globalTimers. */
    method GrantRLock(g: Globals, a: Attempt)
      requires Valid() && g.Valid() && !writing
      requires a.timer.Some? ==> a.timer.value in g.timers
      modifies this, g
      ensures Valid() && g.Valid() && !writing && readers == old(readers) + 1
      ensures rlockInfo == old(rlockInfo)[a.goid := a.info] && wlockInfo == old(wlockInfo)
      ensures lockTimeout == old(lockTimeout) && lockTimeoutHandler == old(lockTimeoutHandler)
      ensures g.globalTimers == old(g.globalTimers) - TimerSet(a.timer)
      ensures a.timer.Some? ==> g.timers == old(g.timers)[a.timer.value := AfterStop(old(g.timers[a.timer.value]))]
      ensures a.timer.None? ==> g.timers == old(g.timers)
      ensures g.lockTimeout == old(g.lockTimeout) && g.lockTimeoutHandler == old(g.lockTimeoutHandler)
    {
      readers := readers + 1;
      rlockInfo := rlockInfo[a.goid := a.info];
      g.Unwatch(a.timer);
    }

    /** Unlock by goroutine goid: release the write lock and forget goid's
        write entry, whoever took the lock. Unlocking an RWMutex that is not
        locked for writing is a run-time error in Go. */
    method Unlock(goid: GoroutineId)
      requires Valid() && writing
      modifies this
      ensures Valid() && !writing && readers == old(readers)
      ensures wlockInfo == old(wlockInfo) - {goid} && rlockInfo == old(rlockInfo)
      ensures lockTimeout == old(lockTimeout) && lockTimeoutHandler == old(lockTimeoutHandler)
    {
      writing := false;
      wlockInfo := wlockInfo - {goid};
    }

    /** RUnlock by goroutine goid: release one read hold and forget goid's
        read entry. RUnlock without a read hold is a run-time error in Go. */
    method RUnlock(goid: GoroutineId)
      requires Valid() && readers > 0
      modifies this
      ensures Valid() && readers == old(readers) - 1 && writing == old(writing)
      ensures rlockInfo == old(rlockInfo) - {goid} && wlockInfo == old(wlockInfo)
      ensures lockTimeout == old(lockTimeout) && lockTimeoutHandler == old(lockTimeoutHandler)
    {
      readers := readers - 1;
      rlockInfo := rlockInfo - {goid};
    }

    /** Some entry of the registry has this site and has been held this long. */
    ghost predicate HeldIn(registry: map<GoroutineId, LockInfo>, file: string, line: int, held: Duration, now: Time)
    {
      exists k :: k in registry && registry[k].file == file && registry[k].line == line && held == now - registry[k].lockTime
    }

    /** The answers LastLocker may give: a read holder if there is one, else
        a write holder, else nothing. */
    ghost predicate IsLastLocker(file: string, line: int, held: Duration, now: Time)
      reads this
    {
      if rlockInfo.Keys != {} then HeldIn(rlockInfo, file, line, held, now)
      else if wlockInfo.Keys != {} then HeldIn(wlockInfo, file, line, held, now)
      else file == "" && line == 0 && held == 0
    }

    /** LastLocker: the site and age of the first entry that a range over the
        read registry, then the write registry, visits. */
    method LastLocker(now: Time) returns (file: string, line: int, held: Duration)
      ensures IsLastLocker(file, line, held, now)
    {
      if rlockInfo.Keys != {} {
        var keys := rlockInfo.Keys;
        assert exists k :: k in keys by {
          if forall k :: k !in keys { assert false; }
        }
        var k :| k in keys;
        var info := rlockInfo[k];
        return info.file, info.line, now - info.lockTime;
      }
      if wlockInfo.Keys != {} {
        var keys := wlockInfo.Keys;
        assert exists k :: k in keys by {
          if forall k :: k !in keys { assert false; }
        }
        var k :| k in keys;
        var info := wlockInfo[k];
        return info.file, info.line, now - info.lockTime;
      }
      return "", 0, 0;
    }

    /** The monitor goroutine of a waiting attempt, when the timer's tick
        arrives at time now: take the tick, and report a wait longer than the
        timeout, with the site of a holder of the lock, then stop the timer.
        The timer sends no second tick, so each watch reports at most once. */
    method MonitorTick(g: Globals, a: Attempt, now: Time) returns (report: Option<Report>)
      requires g.Valid() && a.timer.Some? && a.timer.value in g.timers && g.timers[a.timer.value] == Ticked
      modifies g
      ensures g.Valid() && g.timers == old(g.timers)[a.timer.value := Received]
      ensures g.globalTimers == old(g.globalTimers)
      ensures g.lockTimeout == old(g.lockTimeout) && g.lockTimeoutHandler == old(g.lockTimeoutHandler)
      ensures var d := Decide(now - a.info.lockTime, lockTimeout, lockTimeoutHandler, g.lockTimeout, g.lockTimeoutHandler);
        && (report.Some? <==> d.Call?)
        && (report.Some? ==> report.value.handler == d.handler && report.value.spent == now - a.info.lockTime)
      ensures report.Some? ==> exists held :: IsLastLocker(report.value.file, report.value.line, held, now)
    {
      var t := a.timer.value;
      g.Receive(t);
      var spent := now - a.info.lockTime;
      var d := Decide(spent, lockTimeout, lockTimeoutHandler, g.lockTimeout, g.lockTimeoutHandler);
      report := None;
      if d.Call? {
        var file, line, held := LastLocker(now);
        report := Some(Report(d.handler, spent, file, line));
        var active := g.Stop(t);
        assert IsLastLocker(file, line, held, now);
      }
    }
  }

  // ---------------------------------------------------------------------------
  // Runs of the lock API.

  /** Lock, Unlock, RLock, RUnlock by one goroutine on a fresh mutex: both
      acquisitions are granted at once, and the registries end empty. */
  method LockUnlockCycle() returns (first: Acquire, second: Acquire,
                                    writers: map<GoroutineId, LockInfo>, readers: map<GoroutineId, LockInfo>)
    ensures first == Acquired && second == Acquired
    ensures writers == map[] && readers == map[]
  {
    var g := new Globals();
    var m := new RWMutex();
    var id := 2;
    first := m.Lock(g, id, "mutex_test.go", 16, 0);
    m.Unlock(id);
    second := m.RLock(g, id, "mutex_test.go", 19, 1);
    m.RUnlock(id);
    writers, readers := m.wlockInfo, m.rlockInfo;
  }

  /** A goroutine's Lock under its own Lock panics with the site of the
      first, and so does its RLock under its own Lock; its Lock under its own
      RLock panics as a double read lock. Each run uses a fresh mutex. */
  method ReentrantLocksPanic() returns (twice: Acquire, readUnderWrite: Acquire, writeUnderRead: Acquire)
    ensures twice == Panicked(DoubleLock(1, "mutex_test.go", 263))
    ensures readUnderWrite == Panicked(DoubleLock(1, "mutex_test.go", 296))
    ensures writeUnderRead == Panicked(DoubleReadLock(1, "mutex_test.go", 314))
  {
    var g := new Globals();
    var m1 := new RWMutex();
    var r1 := m1.Lock(g, 1, "mutex_test.go", 263, 0);
    twice := m1.Lock(g, 1, "mutex_test.go", 264, 1);
    var m2 := new RWMutex();
    var r2 := m2.Lock(g, 1, "mutex_test.go", 296, 2);
    readUnderWrite := m2.RLock(g, 1, "mutex_test.go", 297, 3);
    var m3 := new RWMutex();
    var r3 := m3.RLock(g, 1, "mutex_test.go", 314, 4);
    writeUnderRead := m3.Lock(g, 1, "mutex_test.go", 315, 5);
  }

  /** Two RLocks by the same goroutine are both granted and share one
      registry entry, so a single RUnlock forgets it while one read hold
      remains. */
  method RepeatedReadLock() returns (first: Acquire, second: Acquire,
                                     entries: map<GoroutineId, LockInfo>, holds: nat)
    ensures first == Acquired && second == Acquired
    ensures entries == map[] && holds == 1
  {
    var g := new Globals();
    var m := new RWMutex();
    first := m.RLock(g, 1, "main.go", 10, 0);
    second := m.RLock(g, 1, "main.go", 11, 1);
    m.RUnlock(1);
    entries, holds := m.rlockInfo, m.readers;
  }

  /** A lock granted at once on another mutex, between an acquisition that
      waits and its timer's tick, leaves that timer running: the tick still
      arrives and the monitor still reports the waiter. */
  method UnrelatedGrantKeepsWatch() returns (other: Acquire, report: Option<Report>)
    ensures other.Acquired?
    ensures report == Some(Report(DefaultHandler, 3 * Second, "a.go", 1))
  {
    var g := new Globals();
    var m := new RWMutex();
    var m2 := new RWMutex();
    var first := m.Lock(g, 1, "a.go", 1, 0);
    var second := m.Lock(g, 2, "a.go", 2, 0);
    var a := second.attempt;
    other := m2.Lock(g, 3, "b.go", 1, Second);
    g.Fire(a.timer.value);
    report := m.MonitorTick(g, a, 3 * Second);
  }

  /** The run of the example program, with a handler that returns: goroutine 1
      holds the lock, goroutine 2's Lock waits past the half-second timeout,
      and the monitor reports the holder's site, not the waiter's. When
      goroutine 1 unlocks, goroutine 2's Lock is granted, and the stop and
      drain it runs as written then waits forever, because the monitor has
      taken the timer's only tick. */
  method WaitPastTimeout() returns (report: Option<Report>, blocked: bool)
    ensures report == Some(Report(Handler(1), Second / 2 + 1, "main.go", 18))
    ensures blocked
  {
    var g := new Globals();
    g.SetGlobalLockTimeout(Second / 2, Some(Handler(1)));
    var m := new RWMutex();
    var first := m.Lock(g, 1, "main.go", 18, 0);
    var second := m.Lock(g, 2, "main.go", 25, Second / 10);
    var a := second.attempt;
    g.Fire(a.timer.value);
    report := m.MonitorTick(g, a, Second / 10 + Second / 2 + 1);
    m.Unlock(1);
    blocked := g.StopAndDrain(a.timer.value);
  }
}
