/**
 Model of `fan_out` in tcbot/utils/dispatch.py.

 Each coroutine has a slot that waits for a semaphore permit, asks the shared breaker for
 admission, and either closes the coroutine unawaited or awaits it. A slot is suspended only
 while it waits for a permit and while its coroutine runs, so `Begin` and `Finish` are the
 atomic steps. `Others` is any event that other users of the breaker cause in between.
 Slots begin in input order: `gather` starts their tasks in that order, and the semaphore
 lets its waiters in first in, first out. They may finish in any order.
 Nothing is cancelled here.
 */
module FanOut {
  import opened CircuitBreakers
  import opened FiniteSets

  /** How a coroutine ends; `payload` stands for its result or exception object. */
  datatype Outcome =
    | Value(payload: int)
    | TimedOut(payload: int)
    | NetworkError(payload: int)
    | BadRequest(payload: int)
    | OtherError(payload: int)

  datatype SlotResult = Ended(outcome: Outcome) | CircuitOpenError

  datatype Slot = Waiting | Running | Done(result: SlotResult)

  /** `awaits[i]` and `closes[i]` count what has been done to coroutine `i`. */
  datatype Pool = Pool(
    breaker: Breaker,
    now: real,
    permits: int,
    slots: seq<Slot>,
    awaits: seq<nat>,
    closes: seq<nat>)

  /** A call of `fan_out`: the breaker's configuration, the coroutines and the permits. */
  datatype Call = Call(config: Config, coros: seq<Outcome>, permits: int)

  function Requested(config: Config, coros: seq<Outcome>, maxConcurrent: int): Call {
    Call(config, coros, if maxConcurrent < 1 then 1 else maxConcurrent)
  }

  function Start(c: Call, breaker: Breaker, now: real): Pool {
    var n := |c.coros|;
    Pool(breaker, now, c.permits, seq(n, _ => Waiting), seq(n, _ => 0), seq(n, _ => 0))
  }

  datatype Step =
    | Begin(i: nat, at: real)
    | Finish(i: nat, at: real)
    | Others(event: Event, at: real)

  /** Tasks start in input order and the semaphore wakes its waiters first in, first out. */
  ghost predicate FirstInLine(p: Pool, i: nat) {
    forall j :: 0 <= j < i && j < |p.slots| ==> !p.slots[j].Waiting?
  }

  ghost predicate Enabled(p: Pool, s: Step) {
    && p.now <= s.at
    && (s.Begin? ==> s.i < |p.slots| && p.slots[s.i].Waiting? && FirstInLine(p, s.i) && p.permits > 0)
    && (s.Finish? ==> s.i < |p.slots| && p.slots[s.i].Running?)
    && (s.Others? ==> HappensAt(s.event, s.at))
  }

  /** The event happens at that instant, if it reads the clock. */
  predicate HappensAt(e: Event, at: real) {
    (e.Read? || e.Acquire? || e.Failure?) ==> e.at == at
  }

  predicate CountsAgainstCircuit(o: Outcome) {
    o.TimedOut? || o.NetworkError?
  }

  function Accounted(c: Config, b: Breaker, o: Outcome, now: real): Breaker {
    match o
    case Value(_) => Succeeded(b)
    case TimedOut(_) => Failed(c, b, now)
    case NetworkError(_) => Failed(c, b, now)
    case BadRequest(_) => Released(b)
    case OtherError(_) => Released(b)
  }

  ghost predicate Shaped(c: Call, p: Pool) {
    |p.slots| == |p.awaits| == |p.closes| == |c.coros|
  }

  function Next(c: Call, p: Pool, s: Step): Pool
    requires Shaped(c, p) && Enabled(p, s)
  {
    match s
    case Begin(i, at) =>
      var acquired := p.(breaker := Acquired(c.config, p.breaker, at), now := at);
      if Admits(c.config, p.breaker, at)
      then acquired.(permits := p.permits - 1, slots := p.slots[i := Running], awaits := p.awaits[i := p.awaits[i] + 1])
      else acquired.(slots := p.slots[i := Done(CircuitOpenError)], closes := p.closes[i := p.closes[i] + 1])
    case Finish(i, at) =>
      p.(breaker := Accounted(c.config, p.breaker, c.coros[i], at),
         now := at,
         permits := p.permits + 1,
         slots := p.slots[i := Done(Ended(c.coros[i]))])
    case Others(e, at) => p.(breaker := Apply(c.config, p.breaker, e), now := at)
  }

  ghost predicate Schedule(c: Call, p: Pool, steps: seq<Step>)
    requires Shaped(c, p)
    decreases |steps|
  {
    steps != [] ==> Enabled(p, steps[0]) && Schedule(c, Next(c, p, steps[0]), steps[1..])
  }

  ghost function Run(c: Call, p: Pool, steps: seq<Step>): (q: Pool)
    requires Shaped(c, p) && Schedule(c, p, steps)
    ensures Shaped(c, q)
    decreases |steps|
  {
    if steps == [] then p else Run(c, Next(c, p, steps[0]), steps[1..])
  }

  // ---------------------------------------------------------------------------
  // Bounded concurrency, one use of each coroutine, results in order
  // ---------------------------------------------------------------------------

  ghost function RunningSlots(p: Pool): set<nat> {
    set i: nat | i < |p.slots| && p.slots[i].Running?
  }

  ghost predicate AllDone(p: Pool) {
    forall i :: 0 <= i < |p.slots| ==> p.slots[i].Done?
  }

  ghost predicate Inv(c: Call, p: Pool) {
    && Shaped(c, p)
    && 0 <= p.permits
    && p.permits + |RunningSlots(p)| == c.permits
    && forall i: nat :: i < |p.slots| ==> Used(c, p, i)
  }

  /** What has happened to coroutine `i` matches the state of its slot. */
  ghost predicate Used(c: Call, p: Pool, i: nat)
    requires Shaped(c, p) && i < |p.slots|
  {
    match p.slots[i]
    case Waiting => p.awaits[i] == 0 && p.closes[i] == 0
    case Running => p.awaits[i] == 1 && p.closes[i] == 0
    case Done(CircuitOpenError) => p.awaits[i] == 0 && p.closes[i] == 1
    case Done(Ended(o)) => p.awaits[i] == 1 && p.closes[i] == 0 && o == c.coros[i]
  }

  lemma {:induction false} StepKeepsUse(c: Call, p: Pool, s: Step, k: nat)
    requires Shaped(c, p) && Enabled(p, s) && k < |p.slots| && Used(c, p, k)
    ensures Used(c, Next(c, p, s), k)
  {
  }

  lemma {:induction false} StepKeepsPermits(c: Call, p: Pool, s: Step)
    requires Shaped(c, p) && Enabled(p, s) && 0 <= p.permits && p.permits + |RunningSlots(p)| == c.permits
    ensures var q := Next(c, p, s); 0 <= q.permits && q.permits + |RunningSlots(q)| == c.permits
  {
    var q := Next(c, p, s);
    match s {
      case Begin(i, at) =>
        if Admits(c.config, p.breaker, at) {
          assert RunningSlots(q) == RunningSlots(p) + {i};
        } else {
          assert RunningSlots(q) == RunningSlots(p);
        }
      case Finish(i, _) => assert RunningSlots(q) == RunningSlots(p) - {i};
      case Others(_, _) => assert RunningSlots(q) == RunningSlots(p);
    }
  }

  lemma {:induction false} StepKeepsInv(c: Call, p: Pool, s: Step)
    requires Inv(c, p) && Enabled(p, s)
    ensures Inv(c, Next(c, p, s))
  {
    var q := Next(c, p, s);
    StepKeepsPermits(c, p, s);
    forall k: nat | k < |q.slots| ensures Used(c, q, k) {
      assert Used(c, p, k);
      StepKeepsUse(c, p, s, k);
    }
  }

  lemma {:induction false} ScheduleKeepsInv(c: Call, p: Pool, steps: seq<Step>)
    requires Inv(c, p) && Schedule(c, p, steps)
    ensures Inv(c, Run(c, p, steps))
    decreases |steps|
  {
    if steps != [] {
      StepKeepsInv(c, p, steps[0]);
      ScheduleKeepsInv(c, Next(c, p, steps[0]), steps[1..]);
    }
  }

  lemma {:induction false} StartInv(config: Config, coros: seq<Outcome>, maxConcurrent: int, breaker: Breaker,
      now: real)
    ensures var c := Requested(config, coros, maxConcurrent); Inv(c, Start(c, breaker, now))
  {
    var c := Requested(config, coros, maxConcurrent);
    assert RunningSlots(Start(c, breaker, now)) == {};
  }

  /**
   Over every schedule, with the breaker in any state and shared with anyone: never more
   than `max(1, maxConcurrent)` coroutines run at once, and none is awaited or closed twice,
   or both.
   */
  lemma {:induction false} BoundedAndUsedOnce(config: Config, coros: seq<Outcome>, maxConcurrent: int,
                                              breaker: Breaker, now: real, steps: seq<Step>)
    requires var c := Requested(config, coros, maxConcurrent); Schedule(c, Start(c, breaker, now), steps)
    ensures var c := Requested(config, coros, maxConcurrent);
      var p := Run(c, Start(c, breaker, now), steps);
      && |RunningSlots(p)| <= (if maxConcurrent < 1 then 1 else maxConcurrent)
      && forall i: nat :: i < |coros| ==> p.awaits[i] + p.closes[i] <= 1
  {
    var c := Requested(config, coros, maxConcurrent);
    StartInv(config, coros, maxConcurrent, breaker, now);
    ScheduleKeepsInv(c, Start(c, breaker, now), steps);
    var p := Run(c, Start(c, breaker, now), steps);
    forall i: nat | i < |coros| ensures p.awaits[i] + p.closes[i] <= 1 {
      assert Used(c, p, i);
    }
  }

  /** What `gather` hands back once every slot is done. */
  ghost function Results(p: Pool): seq<SlotResult>
    requires AllDone(p)
  {
    seq(|p.slots|, i requires 0 <= i < |p.slots| => p.slots[i].result)
  }

  /**
   When the gather completes there is one result per coroutine, in input order: the outcome
   of the coroutine if it was awaited, CircuitOpenError if it was closed, and it was exactly
   one of the two.
   */
  lemma {:induction false} OneResultPerCoroutine(config: Config, coros: seq<Outcome>, maxConcurrent: int,
                                                 breaker: Breaker, now: real, steps: seq<Step>)
    requires var c := Requested(config, coros, maxConcurrent);
      Schedule(c, Start(c, breaker, now), steps) && AllDone(Run(c, Start(c, breaker, now), steps))
    ensures var c := Requested(config, coros, maxConcurrent);
      var p := Run(c, Start(c, breaker, now), steps);
      && |Results(p)| == |coros|
      && forall i: nat :: i < |coros| ==>
           || (Results(p)[i] == Ended(coros[i]) && p.awaits[i] == 1 && p.closes[i] == 0)
           || (Results(p)[i] == CircuitOpenError && p.awaits[i] == 0 && p.closes[i] == 1)
  {
    var c := Requested(config, coros, maxConcurrent);
    StartInv(config, coros, maxConcurrent, breaker, now);
    ScheduleKeepsInv(c, Start(c, breaker, now), steps);
    var p := Run(c, Start(c, breaker, now), steps);
    forall i: nat | i < |coros|
      ensures || (Results(p)[i] == Ended(coros[i]) && p.awaits[i] == 1 && p.closes[i] == 0)
              || (Results(p)[i] == CircuitOpenError && p.awaits[i] == 0 && p.closes[i] == 1)
    {
      assert Used(c, p, i);
    }
  }

  // ---------------------------------------------------------------------------
  // Completion
  // ---------------------------------------------------------------------------

  function Weight(slots: seq<Slot>): nat {
    if slots == [] then 0
    else (if slots[0].Waiting? then 2 else if slots[0].Running? then 1 else 0) + Weight(slots[1..])
  }

  lemma {:induction false} WeightUpdate(slots: seq<Slot>, i: nat, s: Slot)
    requires i < |slots|
    ensures Weight(slots[i := s]) == Weight(slots) - Weight([slots[i]]) + Weight([s])
    decreases |slots|
  {
    if i == 0 {
      assert slots[i := s][1..] == slots[1..];
    } else {
      WeightUpdate(slots[1..], i - 1, s);
      assert slots[i := s][1..] == slots[1..][i - 1 := s];
    }
  }

  /** Every step of a slot brings the call closer to its end; other users never set it back. */
  lemma {:induction false} StepsProgress(c: Call, p: Pool, s: Step)
    requires Inv(c, p) && Enabled(p, s)
    ensures if s.Others? then Weight(Next(c, p, s).slots) == Weight(p.slots)
            else Weight(Next(c, p, s).slots) < Weight(p.slots)
  {
    match s {
      case Begin(i, at) => WeightUpdate(p.slots, i, Next(c, p, s).slots[i]);
      case Finish(i, at) => WeightUpdate(p.slots, i, Next(c, p, s).slots[i]);
      case Others(_, _) =>
    }
  }

  /** As long as the gather is not complete some slot can move: no deadlock, no lost permit. */
  lemma {:induction false} NeverStuck(c: Call, p: Pool) returns (s: Step)
    requires Inv(c, p) && c.permits >= 1 && !AllDone(p)
    ensures !s.Others? && Enabled(p, s)
  {
    if i :| 0 <= i < |p.slots| && p.slots[i].Running? {
      s := Finish(i, p.now);
    } else {
      assert RunningSlots(p) == {};
      var i :| 0 <= i < |p.slots| && !p.slots[i].Done?;
      var k := NextInLine(p, i);
      s := Begin(k, p.now);
    }
  }

  lemma {:induction false} NextInLine(p: Pool, i: nat) returns (k: nat)
    requires i < |p.slots| && p.slots[i].Waiting?
    ensures k <= i && p.slots[k].Waiting? && FirstInLine(p, k)
  {
    if j: nat :| j < i && p.slots[j].Waiting? {
      k := NextInLine(p, j);
    } else {
      k := i;
    }
  }

  function OwnSteps(steps: seq<Step>): nat {
    if steps == [] then 0 else (if steps[0].Others? then 0 else 1) + OwnSteps(steps[1..])
  }

  /** A call is over after at most two steps per coroutine, whatever other users do. */
  lemma {:induction false} TwoStepsEach(c: Call, p: Pool, steps: seq<Step>)
    requires Inv(c, p) && Schedule(c, p, steps)
    ensures OwnSteps(steps) + Weight(Run(c, p, steps).slots) <= Weight(p.slots)
    ensures Weight(p.slots) <= 2 * |c.coros|
    ensures Alone(steps) ==> OwnSteps(steps) == |steps|
    decreases |steps|
  {
    WeightBound(p.slots);
    if steps != [] {
      StepsProgress(c, p, steps[0]);
      StepKeepsInv(c, p, steps[0]);
      TwoStepsEach(c, Next(c, p, steps[0]), steps[1..]);
    }
  }

  lemma {:induction false} WeightBound(slots: seq<Slot>)
    ensures Weight(slots) <= 2 * |slots|
  {
    if slots != [] {
      WeightBound(slots[1..]);
    }
  }

  // ---------------------------------------------------------------------------
  // Which slots are skipped
  // ---------------------------------------------------------------------------

  /** What a step is to the breaker; only timeouts and network errors are failures. */
  function EventOf(c: Call, s: Step): Event {
    match s
    case Begin(_, at) => Acquire(at)
    case Others(e, _) => e
    case Finish(i, at) =>
      if i >= |c.coros| then Release
      else
        match c.coros[i]
        case Value(_) => Success
        case TimedOut(_) => Failure(at)
        case NetworkError(_) => Failure(at)
        case BadRequest(_) => Release
        case OtherError(_) => Release
  }

  function Events(c: Call, steps: seq<Step>): seq<Event> {
    seq(|steps|, i requires 0 <= i < |steps| => EventOf(c, steps[i]))
  }

  lemma {:induction false} ClockedOneMore(log: seq<Event>, before: real, e: Event, now: real)
    requires Clocked(log, before) && before <= now && HappensAt(e, now)
    ensures Clocked(log + [e], now)
  {
    assert Init(log + [e]) == log && Last(log + [e]) == e;
    ClockedLater(log, before, now);
  }

  lemma {:induction false} StepIsEvent(c: Call, p: Pool, s: Step, log: seq<Event>)
    requires Shaped(c, p) && Enabled(p, s) && p.breaker == After(c.config, log) && Clocked(log, p.now)
    ensures var q := Next(c, p, s);
      q.now == s.at && q.breaker == After(c.config, log + [EventOf(c, s)]) && Clocked(log + [EventOf(c, s)], q.now)
  {
    var e := EventOf(c, s);
    assert Init(log + [e]) == log && Last(log + [e]) == e;
    assert After(c.config, log + [e]) == Apply(c.config, After(c.config, log), e);
    ClockedOneMore(log, p.now, e, s.at);
  }

  /** Over every schedule, the shared breaker is what the events of the call and of the others, in order, make of it. */
  lemma {:induction false} BreakerSeesEveryStep(c: Call, p: Pool, steps: seq<Step>, log: seq<Event>)
    requires Shaped(c, p) && Schedule(c, p, steps) && p.breaker == After(c.config, log) && Clocked(log, p.now)
    ensures var q := Run(c, p, steps);
      q.breaker == After(c.config, log + Events(c, steps)) && Clocked(log + Events(c, steps), q.now)
    ensures steps != [] ==> Run(c, p, steps).now == steps[|steps| - 1].at
    decreases |steps|
  {
    if steps == [] {
      assert log + Events(c, steps) == log;
    } else {
      StepIsEvent(c, p, steps[0], log);
      hide Next, Enabled, After, Clocked, EventOf;
      BreakerSeesEveryStep(c, Next(c, p, steps[0]), steps[1..], log + [EventOf(c, steps[0])]);
      assert log + Events(c, steps) == log + [EventOf(c, steps[0])] + Events(c, steps[1..]);
    }
  }

  /**
   In every schedule, a slot whose turn has come is skipped unless too few failures have been
   recorded since the last success, by this call or others, or the recovery timeout counted
   from the last one is over and no probe is held.
   */
  lemma {:induction false} SkippedByTheLog(c: Call, p: Pool, steps: seq<Step>, log: seq<Event>, i: nat, at: real)
    requires Shaped(c, p) && Schedule(c, p, steps) && p.breaker == After(c.config, log) && Clocked(log, p.now)
    requires Enabled(Run(c, p, steps), Begin(i, at))
    ensures var all := log + Events(c, steps);
      Next(c, Run(c, p, steps), Begin(i, at)).slots[i] ==
      if !Tripped(c.config, all) || (RecoveryDue(c.config, all, at) && !ProbeHeld(c.config, all)) then Running
      else Done(CircuitOpenError)
  {
    BreakerSeesEveryStep(c, p, steps, log);
    ClockedLater(log + Events(c, steps), Run(c, p, steps).now, at);
    AdmissionRule(c.config, log + Events(c, steps), at);
  }

  // ---------------------------------------------------------------------------
  // The breaker during a call that has it for itself
  // ---------------------------------------------------------------------------

  ghost predicate Alone(steps: seq<Step>) {
    forall i :: 0 <= i < |steps| ==> !steps[i].Others?
  }

  lemma {:induction false} ProbeIsRunning(c: Call, p: Pool, steps: seq<Step>)
    requires Inv(c, p) && Schedule(c, p, steps) && Alone(steps)
    requires p.breaker.probeInFlight ==> RunningSlots(p) != {}
    ensures Run(c, p, steps).breaker.probeInFlight ==> RunningSlots(Run(c, p, steps)) != {}
    decreases |steps|
  {
    if steps != [] {
      var s, q := steps[0], Next(c, p, steps[0]);
      StepKeepsInv(c, p, s);
      if s.Begin? {
        if Admits(c.config, p.breaker, s.at) {
          assert s.i in RunningSlots(q);
        } else {
          assert RunningSlots(q) == RunningSlots(p);
        }
      }
      ProbeIsRunning(c, q, steps[1..]);
    }
  }

  /**
   However its coroutines end, a call that starts with no probe reserved leaves none behind:
   a later caller is never locked out of HALF_OPEN.
   */
  lemma {:induction false} NoProbeLeftBehind(c: Call, breaker: Breaker, now: real, steps: seq<Step>)
    requires c.permits >= 1 && !breaker.probeInFlight
    requires Schedule(c, Start(c, breaker, now), steps) && Alone(steps)
    requires AllDone(Run(c, Start(c, breaker, now), steps))
    ensures !Run(c, Start(c, breaker, now), steps).breaker.probeInFlight
  {
    StartInv(c.config, c.coros, c.permits, breaker, now);
    ProbeIsRunning(c, Start(c, breaker, now), steps);
    assert RunningSlots(Run(c, Start(c, breaker, now), steps)) == {};
  }

  // ---------------------------------------------------------------------------
  // When a coroutine can be lost to the circuit
  // ---------------------------------------------------------------------------

  /** The coroutines from `lo` up to `hi` that end in a network error the circuit counts, and those that succeed. */
  ghost function Faults(coros: seq<Outcome>, lo: nat, hi: nat): set<nat>
    requires hi <= |coros|
  {
    set i: nat | i < hi && lo <= i && CountsAgainstCircuit(coros[i])
  }

  ghost function Values(coros: seq<Outcome>, lo: nat, hi: nat): set<nat>
    requires hi <= |coros|
  {
    set i: nat | i < hi && lo <= i && coros[i].Value?
  }

  /**
   The failures that can be on the count when a stretch beginning at `from` begins: what the
   breaker had counted before the call, or, when the coroutine before it succeeded, the
   earlier faults that kept running beside it.
   */
  ghost function Carried(c: Call, before: nat, from: nat): nat
    requires c.permits >= 1 && from <= |c.coros|
  {
    if from == 0 then before
    else
      var earlier := |Faults(c.coros, 0, from)|;
      if earlier < c.permits then earlier else c.permits - 1
  }

  /**
   The coroutines from `from` up to `to` can trip the circuit while one is left: their faults
   reach the threshold together with what is carried, and a permit is left for them when all
   coroutines among them that succeed keep running.
   */
  ghost predicate TripsOver(c: Call, before: nat, from: nat, to: nat)
    requires c.permits >= 1 && from <= to < |c.coros|
  {
    && (from > 0 ==> c.coros[from - 1].Value?)
    && |Values(c.coros, from, to)| < c.permits
    && Carried(c, before, from) + |Faults(c.coros, from, to)| >= c.config.failureThreshold
  }

  ghost predicate CanTrip(c: Call, before: nat)
    requires c.permits >= 1
  {
    exists from: nat, to: nat :: from <= to < |c.coros| && TripsOver(c, before, from, to)
  }

  ghost predicate Skipped(p: Pool) {
    exists i :: 0 <= i < |p.slots| && p.slots[i] == Done(CircuitOpenError)
  }

  // ---------------------------------------------------------------------------
  // Without such a stretch nothing is skipped
  // ---------------------------------------------------------------------------

  ghost predicate InLine(p: Pool) {
    forall i, j :: 0 <= i < j < |p.slots| && p.slots[i].Waiting? ==> p.slots[j].Waiting?
  }

  ghost function DoneFaults(c: Call, p: Pool, from: nat): set<nat>
    requires Shaped(c, p)
  {
    set i: nat | i < |p.slots| && from <= i && p.slots[i].Done? && CountsAgainstCircuit(c.coros[i])
  }

  ghost function RunningFaults(c: Call, p: Pool, from: nat): set<nat>
    requires Shaped(c, p)
  {
    set i: nat | i < |p.slots| && i < from && p.slots[i].Running? && CountsAgainstCircuit(c.coros[i])
  }

  /**
   The last success that is done, in input order, is the one before `from`; `carried` failures stem
   from before it.
   */
  ghost predicate Stretch(c: Call, p: Pool, before: nat, from: nat, carried: nat) {
    && Inv(c, p) && c.permits >= 1 && from <= |p.slots|
    && p.breaker.state.Closed? && p.breaker.failureCount < c.config.failureThreshold
    && (from > 0 ==> c.coros[from - 1].Value? && p.slots[from - 1].Done?)
    && (forall i :: from <= i < |p.slots| && c.coros[i].Value? ==> !p.slots[i].Done?)
    && p.breaker.failureCount <= |DoneFaults(c, p, from)| + carried
    && carried + |RunningFaults(c, p, from)| <= Carried(c, before, from)
  }

  ghost predicate SomeStretch(c: Call, p: Pool, before: nat) {
    exists from, carried :: Stretch(c, p, before, from, carried)
  }

  ghost predicate NoneWaiting(p: Pool) {
    forall i :: 0 <= i < |p.slots| ==> !p.slots[i].Waiting?
  }

  ghost predicate Calm(c: Call, p: Pool, before: nat) {
    Inv(c, p) && InLine(p) && !Skipped(p) && (SomeStretch(c, p, before) || NoneWaiting(p))
  }

  lemma {:induction false} BeginKeepsStretch(c: Call, p: Pool, s: Step, before: nat, from: nat, carried: nat)
    requires Stretch(c, p, before, from, carried) && InLine(p) && Enabled(p, s) && s.Begin?
    ensures Stretch(c, Next(c, p, s), before, from, carried)
    ensures Next(c, p, s).slots == p.slots[s.i := Running]
  {
    var q := Next(c, p, s);
    StepKeepsInv(c, p, s);
    assert from > 0 ==> !p.slots[from - 1].Waiting?;
    assert DoneFaults(c, q, from) == DoneFaults(c, p, from);
    assert RunningFaults(c, q, from) == RunningFaults(c, p, from);
  }

  lemma {:induction false} SuccessStartsStretch(c: Call, p: Pool, s: Step, before: nat, from: nat, carried: nat)
      returns (next: nat)
    requires Stretch(c, p, before, from, carried) && Enabled(p, s) && s.Finish? && c.coros[s.i].Value?
    ensures Stretch(c, Next(c, p, s), before, next, 0)
  {
    var q := Next(c, p, s);
    StepKeepsInv(c, p, s);
    hide Used;
    next := if s.i < from then from else s.i + 1;
    if s.i >= from {
      assert RunningFaults(c, q, next) + {s.i} <= RunningSlots(p);
      SubsetSize(RunningFaults(c, q, next) + {s.i}, RunningSlots(p));
      SubsetSize(RunningFaults(c, q, next), Faults(c.coros, 0, next));
    } else {
      assert RunningFaults(c, q, next) == RunningFaults(c, p, next);
    }
  }

  lemma {:induction false} FaultDone(c: Call, p: Pool, s: Step, from: nat)
    requires Shaped(c, p) && Enabled(p, s) && s.Finish? && CountsAgainstCircuit(c.coros[s.i]) && from <= |p.slots|
    ensures |DoneFaults(c, Next(c, p, s), from)| == |DoneFaults(c, p, from)| + (if s.i < from then 0 else 1)
  {
    var done, slots := DoneFaults(c, p, from), Next(c, p, s).slots;
    assert slots == p.slots[s.i := slots[s.i]] && s.i !in done;
    assert DoneFaults(c, Next(c, p, s), from) == if s.i < from then done else done + {s.i};
  }

  lemma {:induction false} FaultNotRunning(c: Call, p: Pool, s: Step, from: nat)
    requires Shaped(c, p) && Enabled(p, s) && s.Finish? && CountsAgainstCircuit(c.coros[s.i]) && from <= |p.slots|
    ensures |RunningFaults(c, Next(c, p, s), from)| == |RunningFaults(c, p, from)| - (if s.i < from then 1 else 0)
  {
    var running, slots := RunningFaults(c, p, from), Next(c, p, s).slots;
    assert slots == p.slots[s.i := slots[s.i]];
    assert RunningFaults(c, Next(c, p, s), from) == if s.i < from then running - {s.i} else running;
  }

  lemma {:induction false} FaultGoesOn(c: Call, p: Pool, s: Step, before: nat, from: nat, carried: nat)
      returns (more: nat)
    requires Stretch(c, p, before, from, carried) && Enabled(p, s) && s.Finish? && CountsAgainstCircuit(c.coros[s.i])
    ensures var q := Next(c, p, s);
      && q.breaker.failureCount <= |DoneFaults(c, q, from)| + more
      && more + |RunningFaults(c, q, from)| <= Carried(c, before, from)
    ensures Next(c, p, s).breaker.state.Closed? ==> Stretch(c, Next(c, p, s), before, from, more)
  {
    StepKeepsInv(c, p, s);
    FaultDone(c, p, s, from);
    FaultNotRunning(c, p, s, from);
    hide DoneFaults, RunningFaults, Carried, Inv;
    more := if s.i < from then carried + 1 else carried;
  }

  /** A fault that trips the circuit while a slot waits exhibits the stretch. */
  lemma {:induction false} TrippingStretch(c: Call, p: Pool, s: Step, before: nat, from: nat, carried: nat, to: nat)
    requires Stretch(c, p, before, from, carried) && Enabled(p, s) && s.Finish? && CountsAgainstCircuit(c.coros[s.i])
    requires !Next(c, p, s).breaker.state.Closed?
    requires InLine(p) && to < |p.slots| && p.slots[to].Waiting? && FirstInLine(p, to)
    ensures from <= to && TripsOver(c, before, from, to)
  {
    var q := Next(c, p, s);
    var more := FaultGoesOn(c, p, s, before, from, carried);
    assert forall i :: to <= i < |p.slots| ==> p.slots[i].Waiting?;
    assert Values(c.coros, from, to) + {s.i} <= RunningSlots(p);
    SubsetSize(Values(c.coros, from, to) + {s.i}, RunningSlots(p));
    assert DoneFaults(c, q, from) <= Faults(c.coros, from, to);
    SubsetSize(DoneFaults(c, q, from), Faults(c.coros, from, to));
  }

  lemma {:induction false} NeutralKeepsStretch(c: Call, p: Pool, s: Step, before: nat, from: nat, carried: nat)
    requires Stretch(c, p, before, from, carried) && Enabled(p, s) && s.Finish?
    requires !c.coros[s.i].Value? && !CountsAgainstCircuit(c.coros[s.i])
    ensures Stretch(c, Next(c, p, s), before, from, carried)
  {
    var q := Next(c, p, s);
    StepKeepsInv(c, p, s);
    assert DoneFaults(c, q, from) == DoneFaults(c, p, from);
    assert RunningFaults(c, q, from) == RunningFaults(c, p, from);
  }

  lemma {:induction false} StepKeepsLine(c: Call, p: Pool, s: Step)
    requires Shaped(c, p) && Enabled(p, s) && InLine(p)
    ensures InLine(Next(c, p, s))
    ensures NoneWaiting(p) ==> NoneWaiting(Next(c, p, s))
    ensures !s.Begin? && !Skipped(p) ==> !Skipped(Next(c, p, s))
  {
  }

  lemma {:induction false} FinishKeepsCalm(c: Call, p: Pool, s: Step, before: nat)
    requires c.permits >= 1 && Calm(c, p, before) && SomeStretch(c, p, before) && Enabled(p, s) && s.Finish?
              && !CanTrip(c, before)
    ensures SomeStretch(c, Next(c, p, s), before) || NoneWaiting(Next(c, p, s))
  {
    var from, carried :| Stretch(c, p, before, from, carried);
    if c.coros[s.i].Value? {
      var next := SuccessStartsStretch(c, p, s, before, from, carried);
    } else if !CountsAgainstCircuit(c.coros[s.i]) {
      NeutralKeepsStretch(c, p, s, before, from, carried);
    } else if Next(c, p, s).breaker.state.Closed? {
      var more := FaultGoesOn(c, p, s, before, from, carried);
    } else if i: nat :| i < |p.slots| && p.slots[i].Waiting? {
      var to := NextInLine(p, i);
      TrippingStretch(c, p, s, before, from, carried, to);
      assert false;
    } else {
      StepKeepsLine(c, p, s);
    }
  }

  lemma {:induction false} StepKeepsCalm(c: Call, p: Pool, s: Step, before: nat)
    requires c.permits >= 1 && Calm(c, p, before) && Enabled(p, s) && !s.Others? && !CanTrip(c, before)
    ensures Calm(c, Next(c, p, s), before)
  {
    StepKeepsInv(c, p, s);
    StepKeepsLine(c, p, s);
    if s.Begin? {
      var from, carried :| Stretch(c, p, before, from, carried);
      BeginKeepsStretch(c, p, s, before, from, carried);
    } else if SomeStretch(c, p, before) {
      FinishKeepsCalm(c, p, s, before);
    }
  }

  lemma {:induction false} ScheduleKeepsCalm(c: Call, p: Pool, steps: seq<Step>, before: nat)
    requires c.permits >= 1 && Calm(c, p, before) && Schedule(c, p, steps) && Alone(steps) && !CanTrip(c, before)
    ensures Calm(c, Run(c, p, steps), before)
    decreases |steps|
  {
    if steps != [] {
      StepKeepsCalm(c, p, steps[0], before);
      ScheduleKeepsCalm(c, Next(c, p, steps[0]), steps[1..], before);
    }
  }

  /** Without a stretch that can trip the circuit no schedule skips anything. */
  lemma {:induction false} NothingSkipped(c: Call, breaker: Breaker, now: real, steps: seq<Step>)
    requires c.permits >= 1 && !CanTrip(c, breaker.failureCount)
    requires breaker.state.Closed? && breaker.failureCount < c.config.failureThreshold
    requires Schedule(c, Start(c, breaker, now), steps) && Alone(steps)
    ensures !Skipped(Run(c, Start(c, breaker, now), steps))
  {
    var p := Start(c, breaker, now);
    StartInv(c.config, c.coros, c.permits, breaker, now);
    assert RunningFaults(c, p, 0) == {};
    assert Stretch(c, p, breaker.failureCount, 0, breaker.failureCount);
    ScheduleKeepsCalm(c, p, steps, breaker.failureCount);
  }

  /** In particular when the counted network errors of the whole call cannot reach the threshold. */
  lemma {:induction false} TooFewFaults(c: Call, before: nat)
    requires c.permits >= 1 && before + |Faults(c.coros, 0, |c.coros|)| < c.config.failureThreshold
    ensures !CanTrip(c, before)
  {
    forall from: nat, to: nat | from <= to < |c.coros| ensures !TripsOver(c, before, from, to) {
      var early, late := Faults(c.coros, 0, from), Faults(c.coros, from, to);
      assert early !! late && early + late <= Faults(c.coros, 0, |c.coros|);
      SubsetSize(early + late, Faults(c.coros, 0, |c.coros|));
    }
  }

  // ---------------------------------------------------------------------------
  // Every permit can be used
  // ---------------------------------------------------------------------------

  ghost predicate FirstRunning(p: Pool, k: nat) {
    forall i: nat :: i < |p.slots| ==> p.slots[i] == if i < k then Running else Waiting
  }

  lemma {:induction false} OneMoreRuns(c: Call, p: Pool, k: nat)
    requires Inv(c, p) && FirstRunning(p, k) && |RunningSlots(p)| == k && k < |p.slots| && k < c.permits
    requires p.breaker.state.Closed?
    ensures var s := Begin(k, p.now);
      && Enabled(p, s) && Next(c, p, s).breaker == p.breaker && Next(c, p, s).now == p.now
      && FirstRunning(Next(c, p, s), k + 1) && |RunningSlots(Next(c, p, s))| == k + 1
  {
    assert RunningSlots(Next(c, p, Begin(k, p.now))) == RunningSlots(p) + {k};
  }

  /**
   The bound on what runs at once is reached: while the circuit is CLOSED, any number of
   coroutines up to `max(1, maxConcurrent)` can run together.
   */
  lemma {:induction false} AllPermitsUsed(config: Config, coros: seq<Outcome>, maxConcurrent: int,
                                          breaker: Breaker, now: real, k: nat) returns (steps: seq<Step>)
    requires breaker.state.Closed? && k <= |coros| && k <= (if maxConcurrent < 1 then 1 else maxConcurrent)
    ensures var c := Requested(config, coros, maxConcurrent);
      && Schedule(c, Start(c, breaker, now), steps)
      && Run(c, Start(c, breaker, now), steps).breaker == breaker
      && Run(c, Start(c, breaker, now), steps).now == now
      && FirstRunning(Run(c, Start(c, breaker, now), steps), k)
      && |RunningSlots(Run(c, Start(c, breaker, now), steps))| == k
  {
    var c := Requested(config, coros, maxConcurrent);
    var p := Start(c, breaker, now);
    if k == 0 {
      steps := [];
      assert Schedule(c, p, []) && Run(c, p, []) == p && RunningSlots(p) == {};
    } else {
      steps := AllPermitsUsed(config, coros, maxConcurrent, breaker, now, k - 1);
      StartInv(config, coros, maxConcurrent, breaker, now);
      ScheduleKeepsInv(c, p, steps);
      hide Inv, Next, Enabled, Schedule, Run, RunningSlots, FirstRunning;
      OneMoreRuns(c, Run(c, p, steps), k - 1);
      RunAppends(c, p, steps, Begin(k - 1, now));
      steps := steps + [Begin(k - 1, now)];
    }
  }

  // ---------------------------------------------------------------------------
  // With such a stretch some schedule skips a slot
  // ---------------------------------------------------------------------------

  ghost predicate Reachable(c: Call, p: Pool, q: Pool)
    requires Shaped(c, p)
  {
    exists steps :: Schedule(c, p, steps) && Alone(steps) && Run(c, p, steps) == q
  }

  lemma {:induction false} RunAppends(c: Call, p: Pool, steps: seq<Step>, s: Step)
    requires Shaped(c, p) && Schedule(c, p, steps) && Enabled(Run(c, p, steps), s)
    ensures Schedule(c, p, steps + [s])
    ensures Run(c, p, steps + [s]) == Next(c, Run(c, p, steps), s)
    decreases |steps|
  {
    if steps == [] {
      assert (steps + [s])[1..] == [];
    } else {
      RunAppends(c, Next(c, p, steps[0]), steps[1..], s);
      assert (steps + [s])[1..] == steps[1..] + [s];
    }
  }

  lemma {:induction false} Reaches(c: Call, p: Pool, q: Pool, s: Step)
    requires Shaped(c, p) && Shaped(c, q) && Reachable(c, p, q) && Enabled(q, s) && !s.Others?
    ensures Reachable(c, p, Next(c, q, s))
  {
    var steps :| Schedule(c, p, steps) && Alone(steps) && Run(c, p, steps) == q;
    RunAppends(c, p, steps, s);
  }

  ghost predicate SkipsFrom(c: Call, p: Pool)
    requires Shaped(c, p)
  {
    exists steps :: Schedule(c, p, steps) && Alone(steps) && Skipped(Run(c, p, steps))
  }

  /** The first `begun` slots have begun, all of them are done but the `held` ones, and the circuit is CLOSED. */
  ghost predicate Stage(c: Call, p: Pool, q: Pool, begun: nat, held: set<nat>)
    requires Shaped(c, p)
  {
    && Layout(c, p, q, begun, held)
    && q.breaker.state.Closed? && q.breaker.failureCount < c.config.failureThreshold
  }

  ghost predicate Layout(c: Call, p: Pool, q: Pool, begun: nat, held: set<nat>)
    requires Shaped(c, p)
  {
    && Shaped(c, q) && Reachable(c, p, q) && q.permits == c.permits - |held| && begun <= |q.slots|
    && (forall i: nat :: i < |q.slots| ==>
        (q.slots[i].Waiting? <==> begun <= i) && (q.slots[i].Running? <==> i in held))
    && (forall i :: i in held ==> i < begun)
  }

  /** Once the circuit has just tripped, the next slot in line is skipped. */
  lemma {:induction false} TrippedSkips(c: Call, p: Pool, q: Pool, begun: nat, held: set<nat>)
    requires Shaped(c, p) && Layout(c, p, q, begun, held) && begun < |q.slots| && q.permits >= 1
    requires c.config.recoveryTimeout > 0.0 && q.breaker.state.Open? && q.breaker.openedAt == q.now
    ensures SkipsFrom(c, p)
  {
    var s := Begin(begun, q.now);
    Reaches(c, p, q, s);
    var r := Next(c, q, s);
    assert r.slots[begun] == Done(CircuitOpenError);
  }

  lemma {:induction false} HoldOne(c: Call, p: Pool, q: Pool, begun: nat, held: set<nat>) returns (r: Pool)
    requires Shaped(c, p) && Stage(c, p, q, begun, held) && begun < |q.slots| && q.permits >= 1
    ensures Stage(c, p, r, begun + 1, held + {begun}) && r.breaker == q.breaker && r.now == q.now
  {
    var s := Begin(begun, q.now);
    Reaches(c, p, q, s);
    r := Next(c, q, s);
  }

  /** Finishing a held coroutine: a fault counts and may trip the circuit, a success starts over. */
  lemma {:induction false} FinishOne(c: Call, p: Pool, q: Pool, begun: nat, held: set<nat>, i: nat) returns (r: Pool)
    requires Shaped(c, p) && Stage(c, p, q, begun, held) && i in held && begun < |q.slots|
    requires c.permits >= |held| && c.config.recoveryTimeout > 0.0
    ensures SkipsFrom(c, p) || Stage(c, p, r, begun, held - {i})
    ensures SkipsFrom(c, p) || r.breaker.failureCount ==
            if c.coros[i].Value? then 0 else q.breaker.failureCount + if CountsAgainstCircuit(c.coros[i]) then 1 else 0
  {
    var s := Finish(i, q.now);
    Reaches(c, p, q, s);
    r := Next(c, q, s);
    assert Layout(c, p, r, begun, held - {i});
    if !r.breaker.state.Closed? {
      TrippedSkips(c, p, r, begun, held - {i});
    }
  }

  lemma {:induction false} OneMoreIn(coros: seq<Outcome>, lo: nat, hi: nat)
    requires lo <= hi < |coros|
    ensures Faults(coros, lo, hi + 1) == if CountsAgainstCircuit(coros[hi]) then Faults(coros, lo, hi) + {hi}
              else Faults(coros, lo, hi)
    ensures Values(coros, lo, hi + 1) == if coros[hi].Value? then Values(coros, lo, hi) + {hi}
              else Values(coros, lo, hi)
    ensures hi !in Faults(coros, lo, hi) && hi !in Values(coros, lo, hi)
  {
  }

  /** A slot that begins and finishes at once. */
  lemma {:induction false} RunOne(c: Call, p: Pool, q: Pool, begun: nat, held: set<nat>) returns (r: Pool)
    requires Shaped(c, p) && Stage(c, p, q, begun, held) && begun + 1 < |p.slots| == |q.slots|
    requires c.permits > |held| && c.config.recoveryTimeout > 0.0
    ensures SkipsFrom(c, p) || Stage(c, p, r, begun + 1, held)
    ensures SkipsFrom(c, p) || r.breaker.failureCount == if c.coros[begun].Value? then 0
              else q.breaker.failureCount + if CountsAgainstCircuit(c.coros[begun]) then 1 else 0
  {
    var running := HoldOne(c, p, q, begun, held);
    assert held + {begun} - {begun} == held && |held + {begun}| == |held| + 1;
    hide SkipsFrom;
    r := FinishOne(c, p, running, begun + 1, held + {begun}, begun);
  }

  lemma {:induction false} PermitsLeft(c: Call, p: Pool, q: Pool, begun: nat, held: set<nat>)
    requires Shaped(c, p) && Stage(c, p, q, begun, held)
    ensures |q.slots| == |p.slots| && q.permits == c.permits - |held|
  {
  }

  /** Beginning one slot after the other and holding the first faults, up to one permit less than there are. */
  lemma {:induction false} HoldFaults(c: Call, p: Pool, begun: nat) returns (q: Pool, held: set<nat>)
    requires Shaped(c, p) && Stage(c, p, p, 0, {}) && begun < |p.slots|
    requires c.permits >= 1 && c.config.recoveryTimeout > 0.0
    ensures SkipsFrom(c, p) || Stage(c, p, q, begun, held)
    ensures held <= Faults(c.coros, 0, begun)
    ensures |held| == if |Faults(c.coros, 0, begun)| < c.permits then |Faults(c.coros, 0, begun)| else c.permits - 1
  {
    if begun == 0 {
      q, held := p, {};
      assert Faults(c.coros, 0, 0) == {};
    } else {
      var i := begun - 1;
      q, held := HoldFaults(c, p, i);
      OneMoreIn(c.coros, 0, i);
      hide Stage, SkipsFrom, Faults;
      var keep := CountsAgainstCircuit(c.coros[i]) && |held| < c.permits - 1;
      if !SkipsFrom(c, p) {
        PermitsLeft(c, p, q, i, held);
        if keep {
          q := HoldOne(c, p, q, i, held);
        } else {
          q := RunOne(c, p, q, i, held);
        }
      }
      if keep {
        held := held + {i};
      }
    }
  }

  /** The held faults finish one after the other. */
  lemma {:induction false} ReleaseFaults(c: Call, p: Pool, q: Pool, begun: nat, held: set<nat>) returns (r: Pool)
    requires Shaped(c, p) && Stage(c, p, q, begun, held) && begun < |q.slots|
    requires c.permits >= |held| && c.config.recoveryTimeout > 0.0
    requires forall i :: i in held ==> i < |c.coros| && CountsAgainstCircuit(c.coros[i])
    ensures SkipsFrom(c, p) || Stage(c, p, r, begun, {})
    ensures SkipsFrom(c, p) || r.breaker.failureCount == q.breaker.failureCount + |held|
    decreases |held|
  {
    r := q;
    if held != {} {
      var i :| i in held;
      var next := FinishOne(c, p, q, begun, held, i);
      if !SkipsFrom(c, p) {
        r := ReleaseFaults(c, p, next, begun, held - {i});
      }
    }
  }

  /** The stretch: successes are held, everything else finishes at once. */
  lemma {:induction false} RunStretch(c: Call, p: Pool, q: Pool, from: nat, to: nat) returns (r: Pool)
    requires Shaped(c, p) && Stage(c, p, q, from, {}) && from <= to < |p.slots|
    requires |Values(c.coros, from, to)| < c.permits && c.config.recoveryTimeout > 0.0
    ensures SkipsFrom(c, p) || Stage(c, p, r, to, Values(c.coros, from, to))
    ensures SkipsFrom(c, p) || r.breaker.failureCount == q.breaker.failureCount + |Faults(c.coros, from, to)|
  {
    r := q;
    if from == to {
      assert Values(c.coros, from, to) == {} == Faults(c.coros, from, to);
    } else {
      OneMoreIn(c.coros, from, to - 1);
      hide Stage, SkipsFrom, Values, Faults;
      r := RunStretch(c, p, q, from, to - 1);
      if !SkipsFrom(c, p) {
        r := StretchStep(c, p, r, from, to - 1);
      }
    }
  }

  lemma {:induction false} StretchStep(c: Call, p: Pool, q: Pool, from: nat, i: nat) returns (r: Pool)
    requires Shaped(c, p) && from <= i && i + 1 < |p.slots| && Stage(c, p, q, i, Values(c.coros, from, i))
    requires |Values(c.coros, from, i + 1)| < c.permits && c.config.recoveryTimeout > 0.0
    ensures SkipsFrom(c, p) || Stage(c, p, r, i + 1, Values(c.coros, from, i + 1))
    ensures SkipsFrom(c, p) ||
            r.breaker.failureCount == q.breaker.failureCount + if CountsAgainstCircuit(c.coros[i]) then 1 else 0
  {
    var held := Values(c.coros, from, i);
    OneMoreIn(c.coros, from, i);
    PermitsLeft(c, p, q, i, held);
    hide Stage, SkipsFrom, Values;
    if c.coros[i].Value? {
      r := HoldOne(c, p, q, i, held);
    } else {
      r := RunOne(c, p, q, i, held);
    }
  }

  lemma {:induction false} StretchIsReached(c: Call, p: Pool, from: nat) returns (q: Pool)
    requires Shaped(c, p) && Stage(c, p, p, 0, {}) && from < |p.slots|
    requires c.permits >= 1 && c.config.recoveryTimeout > 0.0
    requires from > 0 ==> c.coros[from - 1].Value?
    ensures SkipsFrom(c, p) || Stage(c, p, q, from, {})
    ensures SkipsFrom(c, p) || q.breaker.failureCount == Carried(c, p.breaker.failureCount, from)
  {
    q := p;
    if from > 0 {
      var i := from - 1;
      var held: set<nat>;
      q, held := HoldFaults(c, p, i);
      OneMoreIn(c.coros, 0, i);
      FaultsAreFaults(c.coros, 0, i);
      hide Stage, SkipsFrom, Faults;
      if !SkipsFrom(c, p) {
        PermitsLeft(c, p, q, i, held);
        q := RunOne(c, p, q, i, held);
        if !SkipsFrom(c, p) {
          PermitsLeft(c, p, q, from, held);
          q := ReleaseFaults(c, p, q, from, held);
        }
      }
    }
  }

  lemma {:induction false} FaultsAreFaults(coros: seq<Outcome>, lo: nat, hi: nat)
    requires hi <= |coros|
    ensures forall i :: i in Faults(coros, lo, hi) ==> i < |coros| && CountsAgainstCircuit(coros[i])
  {
  }

  lemma {:induction false} SomethingSkipped(c: Call, breaker: Breaker, now: real)
    requires c.permits >= 1 && c.config.recoveryTimeout > 0.0 && CanTrip(c, breaker.failureCount)
    requires breaker.state.Closed? && breaker.failureCount < c.config.failureThreshold
    ensures SkipsFrom(c, Start(c, breaker, now))
  {
    var p := Start(c, breaker, now);
    assert Schedule(c, p, []) && Alone([]) && Run(c, p, []) == p;
    assert Stage(c, p, p, 0, {});
    var from: nat, to: nat :| from <= to < |c.coros| && TripsOver(c, breaker.failureCount, from, to);
    var q := StretchIsReached(c, p, from);
    if !SkipsFrom(c, p) {
      var r := RunStretch(c, p, q, from, to);
    }
  }

  /**
   Exactly when a call that has a CLOSED breaker for itself can lose a coroutine to the
   circuit: some proper prefix ends in a stretch that can trip it. A call with one permit
   carries nothing over a success, and holds none back.
   */
  lemma {:induction false} SkipCondition(c: Call, breaker: Breaker, now: real)
    requires c.permits >= 1 && c.config.recoveryTimeout > 0.0
    requires breaker.state.Closed? && breaker.failureCount < c.config.failureThreshold
    ensures SkipsFrom(c, Start(c, breaker, now)) <==> CanTrip(c, breaker.failureCount)
  {
    var p := Start(c, breaker, now);
    if CanTrip(c, breaker.failureCount) {
      SomethingSkipped(c, breaker, now);
    } else {
      forall steps | Schedule(c, p, steps) && Alone(steps) ensures !Skipped(Run(c, p, steps)) {
        NothingSkipped(c, breaker, now, steps);
      }
    }
  }

  /** One success followed by threshold many network errors loses nothing, at any concurrency. */
  lemma {:induction false} SuccessFirstExample(threshold: nat, permits: nat, timeout: real, steps: seq<Step>)
    requires threshold >= 1 && permits >= 1
    requires var coros := [Value(0)] + seq(threshold, _ => NetworkError(0));
      var c := Call(Config(threshold, timeout), coros, permits);
      Schedule(c, Start(c, INITIAL, 0.0), steps) && Alone(steps)
    ensures var coros := [Value(0)] + seq(threshold, _ => NetworkError(0));
      var c := Call(Config(threshold, timeout), coros, permits);
      !Skipped(Run(c, Start(c, INITIAL, 0.0), steps))
  {
    var coros := [Value(0)] + seq(threshold, _ => NetworkError(0));
    var c := Call(Config(threshold, timeout), coros, permits);
    forall from: nat, to: nat | from <= to < |coros| ensures !TripsOver(c, 0, from, to) {
      if from == 0 || from == 1 {
        assert Faults(coros, 0, from) == {};
        var faults := Faults(coros, from, to);
        assert 0 !in faults;
        IndicesBetween(1, to, faults);
      }
    }
    NothingSkipped(c, INITIAL, 0.0, steps);
  }

  lemma {:induction false} IndicesBetween(lo: nat, hi: nat, a: set<nat>)
    requires lo <= hi + 1 && forall i :: i in a ==> lo <= i < hi
    ensures |a| <= if hi < lo then 0 else hi - lo
    decreases hi
  {
    if hi <= lo {
      assert a == {};
    } else {
      IndicesBetween(lo, hi - 1, a - {hi - 1});
    }
  }
}
