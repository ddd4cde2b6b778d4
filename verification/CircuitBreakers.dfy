/**
 Model of tcbot/utils/circuit_breaker.py.

 The class is the breaker as written: four fields that its methods update, with `now`
 standing for the reading of the monotonic clock that a method takes. Every method is
 proved against a function on the value `Breaker`; what the source promises is then proved
 about those functions, over every log of events and over every schedule of calls.
 */
module CircuitBreakers {

  datatype CircuitState = Closed | Open | HalfOpen

  datatype Config = Config(failureThreshold: int, recoveryTimeout: real)

  datatype Breaker = Breaker(state: CircuitState, failureCount: nat, probeInFlight: bool, openedAt: real)

  const INITIAL := Breaker(Closed, 0, false, 0.0)

  /** The transition that merely reading `state` can make. */
  function Observe(c: Config, b: Breaker, now: real): Breaker {
    if b.state.Open? && now - b.openedAt >= c.recoveryTimeout then b.(state := HalfOpen) else b
  }

  predicate Admits(c: Config, b: Breaker, now: real) {
    var seen := Observe(c, b, now);
    seen.state.Closed? || (seen.state.HalfOpen? && !seen.probeInFlight)
  }

  function Acquired(c: Config, b: Breaker, now: real): Breaker {
    var seen := Observe(c, b, now);
    if seen.state.HalfOpen? then seen.(probeInFlight := true) else seen
  }

  function Succeeded(b: Breaker): Breaker {
    Breaker(Closed, 0, false, b.openedAt)
  }

  function Failed(c: Config, b: Breaker, now: real): Breaker {
    var count := b.failureCount + 1;
    if b.state.HalfOpen? || count >= c.failureThreshold
    then Breaker(Open, count, false, now)
    else Breaker(b.state, count, false, b.openedAt)
  }

  function Released(b: Breaker): Breaker {
    b.(probeInFlight := false)
  }

  /** How an awaited call ended, as `CircuitBreaker.call` distinguishes it. */
  datatype Ending = Returned | Raised | Cancelled

  class CircuitBreaker {
    const config: Config
    var state: CircuitState
    var failureCount: nat
    var halfOpenProbeInFlight: bool
    var openedAt: real

    constructor (config: Config)
      ensures this.config == config && View() == INITIAL
    {
      this.config := config;
      state, failureCount, halfOpenProbeInFlight, openedAt := Closed, 0, false, 0.0;
    }

    function View(): Breaker
      reads this
    {
      Breaker(state, failureCount, halfOpenProbeInFlight, openedAt)
    }

    method State(now: real) returns (seen: CircuitState)
      modifies this
      ensures View() == Observe(config, old(View()), now) && seen == state
    {
      if state.Open? && now - openedAt >= config.recoveryTimeout {
        state := HalfOpen;
      }
      seen := state;
    }

    /** A health check reads the state without waking the breaker up. */
    method PeekState() returns (seen: CircuitState)
      ensures seen == View().state
    {
      seen := state;
    }

    method TryAcquire(now: real) returns (admitted: bool)
      modifies this
      ensures admitted == Admits(config, old(View()), now)
      ensures View() == Acquired(config, old(View()), now)
    {
      var seen := State(now);
      if seen.Open? {
        return false;
      }
      if seen.HalfOpen? {
        if halfOpenProbeInFlight {
          return false;
        }
        halfOpenProbeInFlight := true;
      }
      admitted := true;
    }

    method ReleaseProbe()
      modifies this
      ensures View() == Released(old(View()))
    {
      halfOpenProbeInFlight := false;
    }

    method RecordSuccess()
      modifies this
      ensures View() == Succeeded(old(View()))
    {
      state := Closed;
      failureCount := 0;
      ReleaseProbe();
    }

    method RecordFailure(now: real)
      modifies this
      ensures View() == Failed(config, old(View()), now)
    {
      failureCount := failureCount + 1;
      if state.HalfOpen? {
        state := Open;
        openedAt := now;
      } else if failureCount >= config.failureThreshold {
        state := Open;
        openedAt := now;
      }
      ReleaseProbe();
    }

    method Reset()
      modifies this
      ensures View() == Succeeded(old(View()))
    {
      state := Closed;
      failureCount := 0;
      ReleaseProbe();
    }

    /** What `call` does once the awaited coroutine has ended. */
    method Report(ending: Ending, now: real)
      modifies this
      ensures View() == Reported(config, old(View()), ending, now)
    {
      match ending {
        case Returned => RecordSuccess();
        case Raised => RecordFailure(now);
        case Cancelled => ReleaseProbe();
      }
    }
  }

  function Reported(c: Config, b: Breaker, ending: Ending, now: real): Breaker {
    match ending
    case Returned => Succeeded(b)
    case Raised => Failed(c, b, now)
    case Cancelled => Released(b)
  }

  // ---------------------------------------------------------------------------
  // The breaker as a function of its event log
  // ---------------------------------------------------------------------------

  datatype Event =
    | Read(at: real)
    | Acquire(at: real)
    | Success
    | Failure(at: real)
    | Release
    | Reset

  function Apply(c: Config, b: Breaker, e: Event): Breaker {
    match e
    case Read(at) => Observe(c, b, at)
    case Acquire(at) => Acquired(c, b, at)
    case Success => Succeeded(b)
    case Failure(at) => Failed(c, b, at)
    case Release => Released(b)
    case Reset => Succeeded(b)
  }

  /** The breaker after the events of `log`, oldest first. */
  function After(c: Config, log: seq<Event>): Breaker {
    if log == [] then INITIAL else Apply(c, After(c, Init(log)), Last(log))
  }

  function Init<T>(s: seq<T>): seq<T>
    requires s != []
  {
    s[..|s| - 1]
  }

  function Last<T>(s: seq<T>): T
    requires s != []
  {
    s[|s| - 1]
  }

  /** The clock never runs backwards along the log, nor past `now` at its end. */
  ghost predicate Clocked(log: seq<Event>, now: real) {
    log != [] ==>
      match Last(log)
      case Read(at) => at <= now && Clocked(Init(log), at)
      case Acquire(at) => at <= now && Clocked(Init(log), at)
      case Failure(at) => at <= now && Clocked(Init(log), at)
      case _ => Clocked(Init(log), now)
  }

  /** Reference definitions: read off the log, with no breaker state in them. */
  function FailuresSinceSuccess(log: seq<Event>): nat {
    if log == [] then 0 else
      match Last(log)
      case Success => 0
      case Reset => 0
      case Failure(_) => FailuresSinceSuccess(Init(log)) + 1
      case _ => FailuresSinceSuccess(Init(log))
  }

  function LastFailureAt(log: seq<Event>): real {
    if log == [] then 0.0
    else if Last(log).Failure? then Last(log).at
    else LastFailureAt(Init(log))
  }

  predicate Tripped(c: Config, log: seq<Event>) {
    FailuresSinceSuccess(log) >= 1 && FailuresSinceSuccess(log) >= c.failureThreshold
  }

  predicate RecoveryDue(c: Config, log: seq<Event>, now: real) {
    now - LastFailureAt(log) >= c.recoveryTimeout
  }

  /** Some read or acquire has noticed that the recovery window is over. */
  predicate Woken(c: Config, log: seq<Event>) {
    log != [] &&
      match Last(log)
      case Read(at) => Woken(c, Init(log)) || (Tripped(c, Init(log)) && RecoveryDue(c, Init(log), at))
      case Acquire(at) => Woken(c, Init(log)) || (Tripped(c, Init(log)) && RecoveryDue(c, Init(log), at))
      case Release => Woken(c, Init(log))
      case _ => false
  }

  /** A probe was let through and nobody has reported anything since. */
  predicate ProbeHeld(c: Config, log: seq<Event>) {
    log != [] &&
      match Last(log)
      case Read(_) => ProbeHeld(c, Init(log))
      case Acquire(at) => ProbeHeld(c, Init(log)) || (Tripped(c, Init(log)) && RecoveryDue(c, Init(log), at))
      case _ => false
  }

  /** Every field of the breaker is what the log alone says it is. */
  lemma {:induction false} BreakerIsFunctionOfLog(c: Config, log: seq<Event>, now: real)
    requires Clocked(log, now)
    ensures var b := After(c, log);
      && (b.state.Closed? <==> !Tripped(c, log))
      && (b.state.HalfOpen? <==> Woken(c, log))
      && b.failureCount == FailuresSinceSuccess(log)
      && (!b.state.Closed? ==> b.openedAt == LastFailureAt(log))
      && (b.probeInFlight <==> ProbeHeld(c, log))
      && (b.probeInFlight ==> b.state.HalfOpen?)
      && (b.state.HalfOpen? ==> RecoveryDue(c, log, now))
  {
    if log != [] {
      match Last(log) {
        case Read(at) => BreakerIsFunctionOfLog(c, Init(log), at);
        case Acquire(at) => BreakerIsFunctionOfLog(c, Init(log), at);
        case Failure(at) => BreakerIsFunctionOfLog(c, Init(log), at);
        case _ => BreakerIsFunctionOfLog(c, Init(log), now);
      }
    }
  }

  /**
   The admission rule, stated on the log: a call goes through exactly when too few failures
   have been recorded since the last success or reset, or the recovery window counted from
   the last failure is over and no probe is held.
   */
  lemma {:induction false} AdmissionRule(c: Config, log: seq<Event>, now: real)
    requires Clocked(log, now)
    ensures Admits(c, After(c, log), now) <==>
            !Tripped(c, log) || (RecoveryDue(c, log, now) && !ProbeHeld(c, log))
  {
    BreakerIsFunctionOfLog(c, log, now);
  }

  predicate Heals(e: Event) {
    e.Success? || e.Reset?
  }

  /**
   Once tripped, the circuit rejects every acquire made before the recovery window is over,
   whatever reads, acquires, releases and late failures happen meanwhile: they can only push
   the end of the window later.
   */
  lemma {:induction false} OpenWindowHolds(c: Config, log: seq<Event>, more: seq<Event>, now: real)
    requires Clocked(log + more, now) && Tripped(c, log)
    requires forall i :: 0 <= i < |more| ==> !Heals(more[i])
    ensures Tripped(c, log + more)
    ensures Clocked(log, now) && LastFailureAt(log + more) >= LastFailureAt(log)
    ensures now - LastFailureAt(log) < c.recoveryTimeout ==> !Admits(c, After(c, log + more), now)
  {
    LogOnlyGrows(c, log, more, now);
    AdmissionRule(c, log + more, now);
  }

  lemma {:induction false} LogOnlyGrows(c: Config, log: seq<Event>, more: seq<Event>, now: real)
    requires Clocked(log + more, now) && Tripped(c, log)
    requires forall i :: 0 <= i < |more| ==> !Heals(more[i])
    ensures Tripped(c, log + more)
    ensures Clocked(log, now) && LastFailureAt(log + more) >= LastFailureAt(log)
  {
    if more == [] {
      assert log + more == log;
    } else {
      var all := log + more;
      assert Init(all) == log + Init(more) && Last(all) == Last(more);
      assert !Heals(more[|more| - 1]);
      match Last(all) {
        case Read(at) => LogOnlyGrows(c, log, Init(more), at); ClockedLater(log, at, now);
        case Acquire(at) => LogOnlyGrows(c, log, Init(more), at); ClockedLater(log, at, now);
        case Failure(at) =>
          LogOnlyGrows(c, log, Init(more), at);
          ClockedLater(log, at, now);
          LastFailureNotAfter(c, log, at);
        case Release => LogOnlyGrows(c, log, Init(more), now);
        case _ => assert false;
      }
    }
  }

  lemma {:induction false} ClockedLater(log: seq<Event>, at: real, now: real)
    requires Clocked(log, at) && at <= now
    ensures Clocked(log, now)
  {
    if log != [] && !(Last(log).Read? || Last(log).Acquire? || Last(log).Failure?) {
      ClockedLater(Init(log), at, now);
    }
  }

  lemma {:induction false} LastFailureNotAfter(c: Config, log: seq<Event>, now: real)
    requires Clocked(log, now) && FailuresSinceSuccess(log) >= 1
    ensures LastFailureAt(log) <= now
  {
    match Last(log) {
      case Read(at) => LastFailureNotAfter(c, Init(log), at);
      case Acquire(at) => LastFailureNotAfter(c, Init(log), at);
      case Failure(_) =>
      case Release => LastFailureNotAfter(c, Init(log), now);
      case _ => assert false;
    }
  }
}
