/**
 Calls that share one breaker (tcbot/utils/circuit_breaker.py, `call` and `try_acquire`).

 Between its acquire and its report a call is suspended, so a call admitted while the
 circuit was CLOSED may report while it is OPEN or HALF_OPEN. A world holds the breaker,
 the clock and the calls still outstanding; a schedule is any sequence of enabled steps.
 No operator calls `reset` here.
 */
module BreakerCalls {
  import opened CircuitBreakers
  import opened FiniteSets

  /** A probe is a call that was let through in HALF_OPEN. */
  datatype Kind = Ordinary | Probe

  /** `late` counts the ordinary calls that reported while the circuit was HALF_OPEN. */
  datatype World = World(breaker: Breaker, now: real, calls: map<nat, Kind>, late: nat)

  datatype Step =
    | Look(at: real)
    | Attempt(id: nat, at: real)
    | Report(id: nat, ending: Ending, at: real)

  const START := World(INITIAL, 0.0, map[], 0)

  ghost predicate Enabled(w: World, s: Step) {
    && w.now <= s.at
    && (s.Attempt? ==> s.id !in w.calls)
    && (s.Report? ==> s.id in w.calls)
  }

  function Next(c: Config, w: World, s: Step): World
    requires s.Report? ==> s.id in w.calls
  {
    match s
    case Look(at) => w.(breaker := Observe(c, w.breaker, at), now := at)
    case Attempt(id, at) =>
      var seen := Observe(c, w.breaker, at);
      w.(breaker := Acquired(c, w.breaker, at),
         now := at,
         calls := if Admits(c, w.breaker, at)
                  then w.calls[id := if seen.state.HalfOpen? then Probe else Ordinary]
                  else w.calls)
    case Report(id, ending, at) =>
      World(Reported(c, w.breaker, ending, at),
            at,
            w.calls - {id},
            w.late + if w.calls[id].Ordinary? && w.breaker.state.HalfOpen? then 1 else 0)
  }

  ghost predicate Schedule(c: Config, w: World, steps: seq<Step>)
    decreases |steps|
  {
    steps != [] ==> Enabled(w, steps[0]) && Schedule(c, Next(c, w, steps[0]), steps[1..])
  }

  ghost function Run(c: Config, w: World, steps: seq<Step>): World
    requires Schedule(c, w, steps)
    decreases |steps|
  {
    if steps == [] then w else Run(c, Next(c, w, steps[0]), steps[1..])
  }

  ghost function Probes(w: World): set<nat> {
    set id | id in w.calls && w.calls[id].Probe?
  }

  /**
   What every step keeps. A reserved probe slot belongs to a probe that is still
   outstanding, so the slot can never be lost; a report frees it for at most one more probe.
   */
  ghost predicate Inv(c: Config, w: World) {
    && |Probes(w)| <= w.late + (if w.breaker.probeInFlight then 1 else 0)
    && (w.breaker.probeInFlight ==> w.breaker.state.HalfOpen? && Probes(w) != {})
    && (w.breaker.state.Closed? <==> w.breaker.failureCount == 0 || w.breaker.failureCount < c.failureThreshold)
  }

  lemma {:induction false} AttemptKeepsInv(c: Config, w: World, id: nat, at: real)
    requires Inv(c, w) && id !in w.calls
    ensures Inv(c, Next(c, w, Attempt(id, at)))
  {
    var w' := Next(c, w, Attempt(id, at));
    if Admits(c, w.breaker, at) && Observe(c, w.breaker, at).state.HalfOpen? {
      assert Probes(w') == Probes(w) + {id};
    } else {
      assert Probes(w') == Probes(w);
    }
  }

  lemma {:induction false} ReportKeepsInv(c: Config, w: World, id: nat, ending: Ending, at: real)
    requires Inv(c, w) && id in w.calls
    ensures Inv(c, Next(c, w, Report(id, ending, at)))
  {
    var w' := Next(c, w, Report(id, ending, at));
    assert Probes(w') == Probes(w) - {id};
    assert |Probes(w')| == |Probes(w)| - if id in Probes(w) then 1 else 0;
    assert !w'.breaker.probeInFlight;
    hide Probes;
  }

  lemma {:induction false} StepKeepsInv(c: Config, w: World, s: Step)
    requires Inv(c, w) && Enabled(w, s)
    ensures Inv(c, Next(c, w, s))
  {
    match s {
      case Look(_) => assert Probes(Next(c, w, s)) == Probes(w);
      case Attempt(id, at) => AttemptKeepsInv(c, w, id, at);
      case Report(id, ending, at) => ReportKeepsInv(c, w, id, ending, at);
    }
  }

  lemma {:induction false} ScheduleKeepsInv(c: Config, w: World, steps: seq<Step>)
    requires Inv(c, w) && Schedule(c, w, steps)
    ensures Inv(c, Run(c, w, steps))
    decreases |steps|
  {
    if steps != [] {
      StepKeepsInv(c, w, steps[0]);
      ScheduleKeepsInv(c, Next(c, w, steps[0]), steps[1..]);
    }
  }

  /** Over every schedule: probes outstanding never exceed one plus the late reports. */
  lemma {:induction false} ProbesBounded(c: Config, steps: seq<Step>)
    requires Schedule(c, START, steps)
    ensures var w := Run(c, START, steps);
      && |Probes(w)| <= 1 + w.late
      && (w.breaker.probeInFlight ==> Probes(w) != {})
  {
    assert Probes(START) == {};
    ScheduleKeepsInv(c, START, steps);
  }

  /** No ordinary call reports during HALF_OPEN in this schedule. */
  ghost predicate NoLateReport(c: Config, w: World, steps: seq<Step>)
    requires Schedule(c, w, steps)
    decreases |steps|
  {
    steps != [] ==>
      && !(steps[0].Report? && w.calls[steps[0].id].Ordinary? && w.breaker.state.HalfOpen?)
      && NoLateReport(c, Next(c, w, steps[0]), steps[1..])
  }

  lemma {:induction false} LateCountsLateReports(c: Config, w: World, steps: seq<Step>)
    requires Schedule(c, w, steps)
    ensures Run(c, w, steps).late >= w.late
    ensures Run(c, w, steps).late == w.late <==> NoLateReport(c, w, steps)
    decreases |steps|
  {
    if steps != [] {
      LateCountsLateReports(c, Next(c, w, steps[0]), steps[1..]);
    }
  }

  /** If every ordinary call reports before HALF_OPEN begins, at most one probe is ever out. */
  lemma {:induction false} SingleProbe(c: Config, steps: seq<Step>)
    requires Schedule(c, START, steps) && NoLateReport(c, START, steps)
    ensures |Probes(Run(c, START, steps))| <= 1
  {
    LateCountsLateReports(c, START, steps);
    ProbesBounded(c, steps);
  }

  // ---------------------------------------------------------------------------
  // What the reports of a schedule amount to
  // ---------------------------------------------------------------------------

  /** Reports of exceptions since the last report of a result; a cancelled call counts for nothing. */
  function FailuresInARow(steps: seq<Step>): nat {
    if steps == [] then 0 else
      match Last(steps)
      case Report(_, Returned, _) => 0
      case Report(_, Raised, _) => FailuresInARow(Init(steps)) + 1
      case _ => FailuresInARow(Init(steps))
  }

  function LastRaisedAt(steps: seq<Step>): real {
    if steps == [] then 0.0
    else if Last(steps).Report? && Last(steps).ending == Raised then Last(steps).at
    else LastRaisedAt(Init(steps))
  }

  function RaisedIn(steps: seq<Step>): nat {
    if steps == [] then 0
    else RaisedIn(Init(steps)) + if Last(steps).Report? && Last(steps).ending == Raised then 1 else 0
  }

  lemma {:induction false} RunLast(c: Config, w: World, steps: seq<Step>)
    requires steps != [] && Schedule(c, w, steps)
    ensures Schedule(c, w, Init(steps)) && Enabled(Run(c, w, Init(steps)), Last(steps))
    ensures Run(c, w, steps) == Next(c, Run(c, w, Init(steps)), Last(steps))
    decreases |steps|
  {
    if |steps| == 1 {
      assert steps[1..] == [] == Init(steps);
    } else {
      RunLast(c, Next(c, w, steps[0]), steps[1..]);
      assert Init(steps)[1..] == Init(steps[1..]);
    }
  }

  /**
   Over every schedule the breaker has counted exactly the exceptions reported since the last
   result, is CLOSED while they are too few to trip it, and dates an open circuit by the last one.
   */
  lemma {:induction false} ReportsCounted(c: Config, steps: seq<Step>)
    requires Schedule(c, START, steps)
    ensures var b := Run(c, START, steps).breaker;
      && b.failureCount == FailuresInARow(steps)
      && (b.state.Closed? <==> FailuresInARow(steps) < Threshold(c))
      && (!b.state.Closed? ==> b.openedAt == LastRaisedAt(steps))
    ensures steps != [] ==> Run(c, START, steps).now == Last(steps).at
    decreases |steps|
  {
    if steps != [] {
      RunLast(c, START, steps);
      ReportsCounted(c, Init(steps));
    }
  }

  /**
   A call is let through exactly when too few exceptions in a row have been reported, or the
   recovery timeout has passed since the last one and no probe is reserved.
   */
  lemma {:induction false} AttemptRule(c: Config, steps: seq<Step>, at: real)
    requires Schedule(c, START, steps)
    ensures var b := Run(c, START, steps).breaker;
      Admits(c, b, at) <==>
      || FailuresInARow(steps) < Threshold(c)
      || ((b.state.HalfOpen? || at - LastRaisedAt(steps) >= c.recoveryTimeout) && !b.probeInFlight)
  {
    ReportsCounted(c, steps);
    assert Probes(START) == {};
    ScheduleKeepsInv(c, START, steps);
  }

  /** A returned call heals the circuit: every attempt after it is let through until threshold many exceptions. */
  lemma {:induction false} SuccessHeals(c: Config, before: seq<Step>, id: nat, at: real, after: seq<Step>, later: real)
    requires Schedule(c, START, before + [Report(id, Returned, at)] + after)
    ensures FailuresInARow(before + [Report(id, Returned, at)] + after) <= RaisedIn(after)
    ensures RaisedIn(after) < Threshold(c) ==>
              Admits(c, Run(c, START, before + [Report(id, Returned, at)] + after).breaker, later)
  {
    var steps := before + [Report(id, Returned, at)] + after;
    NoneBefore(before, id, at, after);
    AttemptRule(c, steps, later);
  }

  lemma {:induction false} NoneBefore(before: seq<Step>, id: nat, at: real, after: seq<Step>)
    ensures FailuresInARow(before + [Report(id, Returned, at)] + after) <= RaisedIn(after)
    decreases |after|
  {
    var steps := before + [Report(id, Returned, at)] + after;
    if after == [] {
      assert Last(steps) == Report(id, Returned, at);
    } else {
      assert Init(steps) == before + [Report(id, Returned, at)] + Init(after) && Last(steps) == Last(after);
      NoneBefore(before, id, at, Init(after));
    }
  }

  /** Each report in full: a result heals, an exception adds one failure, a cancellation only frees the slot. */
  lemma {:induction false} ReportEffect(c: Config, w: World, id: nat, ending: Ending, at: real)
    requires Enabled(w, Report(id, ending, at))
    ensures var b, b' := w.breaker, Next(c, w, Report(id, ending, at)).breaker;
      && !b'.probeInFlight
      && (ending == Returned ==> b'.state == Closed && b'.failureCount == 0)
      && (ending == Raised ==> b'.failureCount == b.failureCount + 1)
      && (ending == Cancelled ==> b'.state == b.state && b'.failureCount == b.failureCount && b'.openedAt == b.openedAt)
  {
  }

  // ---------------------------------------------------------------------------
  // When a second probe can follow the first
  // ---------------------------------------------------------------------------

  predicate NeverReports(steps: seq<Step>, id: nat) {
    forall i :: 0 <= i < |steps| && steps[i].Report? ==> steps[i].id != id
  }

  /** While the probe `id` is still out, some schedule lets another one out beside it. */
  ghost predicate SecondProbe(c: Config, w: World, id: nat) {
    exists steps :: Schedule(c, w, steps) && NeverReports(steps, id) && |Probes(Run(c, w, steps))| > 1
  }

  lemma {:induction false} SecondProbeAfter(c: Config, w: World, s: Step, id: nat)
    requires Enabled(w, s) && NeverReports([s], id) && SecondProbe(c, Next(c, w, s), id)
    ensures SecondProbe(c, w, id)
  {
    var rest :| Schedule(c, Next(c, w, s), rest) && NeverReports(rest, id) && |Probes(Run(c, Next(c, w, s), rest))| > 1;
    var steps := [s] + rest;
    assert steps[1..] == rest && [s][0] == s;
    assert Schedule(c, w, steps) && NeverReports(steps, id);
  }

  lemma {:induction false} TwoProbesOut(c: Config, w: World, id: nat, other: nat)
    requires id in Probes(w) && other in Probes(w) && id != other
    ensures SecondProbe(c, w, id)
  {
    SubsetSize({id, other}, Probes(w));
    assert Schedule(c, w, []) && NeverReports([], id) && Run(c, w, []) == w;
  }

  /** The next attempt is let through as a probe, at once or when the recovery window is over. */
  lemma {:induction false} NextIsProbe(c: Config, w: World, id: nat)
    requires id in Probes(w) && !w.breaker.probeInFlight && !w.breaker.state.Closed?
    ensures SecondProbe(c, w, id)
  {
    var due := w.breaker.openedAt + c.recoveryTimeout;
    var at := if w.breaker.state.Open? && due > w.now then due else w.now;
    var other := UnusedId(w.calls.Keys);
    var w' := Next(c, w, Attempt(other, at));
    assert id in Probes(w') && other in Probes(w');
    TwoProbesOut(c, w', id, other);
    SecondProbeAfter(c, w, Attempt(other, at), id);
  }

  /** With the slot free while a probe is out, enough failing calls lead to another probe. */
  lemma {:induction false} FreeSlotLetsProbeOut(c: Config, w: World, id: nat)
    requires Inv(c, w) && id in Probes(w) && !w.breaker.probeInFlight
    ensures SecondProbe(c, w, id)
    decreases if !w.breaker.state.Closed? then 0
              else if c.failureThreshold <= w.breaker.failureCount then 1
              else c.failureThreshold - w.breaker.failureCount + 1
  {
    if w.breaker.state.Closed? {
      var other := UnusedId(w.calls.Keys);
      var begin, fail := Attempt(other, w.now), Report(other, Raised, w.now);
      var w1 := Next(c, w, begin);
      var w2 := Next(c, w1, fail);
      StepKeepsInv(c, w, begin);
      StepKeepsInv(c, w1, fail);
      assert id in Probes(w2);
      FreeSlotLetsProbeOut(c, w2, id);
      SecondProbeAfter(c, w1, fail, id);
      SecondProbeAfter(c, w, begin, id);
    } else {
      NextIsProbe(c, w, id);
    }
  }

  ghost predicate OnlyProbe(w: World, id: nat) {
    w.calls == map[id := Probe] && w.breaker.state.HalfOpen? && w.breaker.probeInFlight
  }

  lemma {:induction false} OnlyProbeStays(c: Config, w: World, id: nat, steps: seq<Step>)
    requires OnlyProbe(w, id) && Schedule(c, w, steps) && NeverReports(steps, id)
    ensures OnlyProbe(Run(c, w, steps), id)
    decreases |steps|
  {
    if steps != [] {
      assert !steps[0].Report?;
      OnlyProbeStays(c, Next(c, w, steps[0]), id, steps[1..]);
    }
  }

  ghost predicate OrdinaryOut(w: World) {
    exists id :: id in w.calls && w.calls[id].Ordinary?
  }

  /**
   The exact condition for the promise of a single probe: in any world with one probe out,
   another one can join it before it reports if and only if its reservation has already been
   lost or an ordinary call is still outstanding, whose report would lose it.
   */
  lemma {:induction false} SecondProbeIff(c: Config, steps: seq<Step>, id: nat)
    requires Schedule(c, START, steps) && Probes(Run(c, START, steps)) == {id}
    ensures var w := Run(c, START, steps);
      SecondProbe(c, w, id) <==> !w.breaker.probeInFlight || OrdinaryOut(w)
  {
    var w := Run(c, START, steps);
    assert Probes(START) == {};
    ScheduleKeepsInv(c, START, steps);
    assert id in Probes(w);
    if !w.breaker.probeInFlight {
      FreeSlotLetsProbeOut(c, w, id);
    } else if o :| o in w.calls && w.calls[o].Ordinary? {
      var late := Report(o, Cancelled, w.now);
      StepKeepsInv(c, w, late);
      assert id in Probes(Next(c, w, late));
      FreeSlotLetsProbeOut(c, Next(c, w, late), id);
      SecondProbeAfter(c, w, late, id);
    } else {
      assert forall o :: o in w.calls <==> o in Probes(w);
      assert OnlyProbe(w, id);
      forall more | Schedule(c, w, more) && NeverReports(more, id) ensures |Probes(Run(c, w, more))| <= 1 {
        OnlyProbeStays(c, w, id, more);
        assert Probes(Run(c, w, more)) == {id};
      }
    }
  }

  // ---------------------------------------------------------------------------
  // The bound is exact
  // ---------------------------------------------------------------------------

  ghost predicate Reachable(c: Config, w: World) {
    exists steps :: Schedule(c, START, steps) && Run(c, START, steps) == w
  }

  lemma {:induction false} RunAppends(c: Config, w: World, steps: seq<Step>, s: Step)
    requires Schedule(c, w, steps) && Enabled(Run(c, w, steps), s)
    ensures Schedule(c, w, steps + [s])
    ensures Run(c, w, steps + [s]) == Next(c, Run(c, w, steps), s)
    decreases |steps|
  {
    if steps == [] {
      assert (steps + [s])[1..] == [];
    } else {
      RunAppends(c, Next(c, w, steps[0]), steps[1..], s);
      assert (steps + [s])[1..] == steps[1..] + [s];
    }
  }

  lemma {:induction false} Reaches(c: Config, w: World, s: Step, w': World)
    requires Reachable(c, w) && Enabled(w, s) && Next(c, w, s) == w'
    ensures Reachable(c, w')
  {
    var steps :| Schedule(c, START, steps) && Run(c, START, steps) == w;
    RunAppends(c, START, steps, s);
  }

  ghost predicate Between(lo: nat, id: nat, hi: nat) {
    lo <= id < hi
  }

  /** Calls `lo` to `mid - 1` are ordinary, calls `mid` to `hi - 1` are probes. */
  ghost function Outstanding(lo: nat, mid: nat, hi: nat): map<nat, Kind> {
    map id: nat | id < hi && Between(lo, id, hi) :: if id < mid then Ordinary else Probe
  }

  lemma {:induction false} OneMore(lo: nat, mid: nat, hi: nat)
    requires lo <= hi
    ensures Outstanding(lo, mid, hi)[hi := if hi < mid then Ordinary else Probe] == Outstanding(lo, mid, hi + 1)
  {
  }

  /** Ordinary calls differ in their numbers only. */
  lemma {:induction false} OneLess(lo: nat, mid: nat, hi: nat)
    requires lo < hi
    ensures Outstanding(lo, mid, hi) - {lo} == Outstanding(lo + 1, mid, hi)
    ensures Outstanding(lo, mid, hi) - {hi - 1} == Outstanding(lo, mid, hi - 1)
  {
  }

  lemma {:induction false} AllOrdinary(k: nat)
    ensures Outstanding(0, k, k + 1)[k := Ordinary] == Outstanding(0, k + 1, k + 1)
    ensures Outstanding(0, k, k)[k := Ordinary] == Outstanding(0, k + 1, k + 1)
    ensures Outstanding(0, k + 1, k + 1) - {k} == Outstanding(0, k, k)
  {
  }

  lemma {:induction false} ManyOrdinary(c: Config, k: nat)
    ensures Reachable(c, World(INITIAL, 0.0, Outstanding(0, k, k), 0))
  {
    if k == 0 {
      assert Outstanding(0, 0, 0) == map[];
      assert Schedule(c, START, []) && Run(c, START, []) == START;
    } else {
      ManyOrdinary(c, k - 1);
      AllOrdinary(k - 1);
      Reaches(c, World(INITIAL, 0.0, Outstanding(0, k - 1, k - 1), 0), Attempt(k - 1, 0.0),
              World(INITIAL, 0.0, Outstanding(0, k, k), 0));
    }
  }

  ghost function Threshold(c: Config): nat {
    if c.failureThreshold < 1 then 1 else c.failureThreshold
  }

  lemma {:induction false} ManyFailures(c: Config, n: nat, j: nat)
    requires j <= Threshold(c)
    ensures var left := n + Threshold(c) - j;
      Reachable(c, World(Breaker(if j == Threshold(c) then Open else Closed, j, false, 0.0), 0.0,
          Outstanding(0, left, left), 0))
  {
    var left := n + Threshold(c) - j;
    if j == 0 {
      ManyOrdinary(c, left);
    } else {
      ManyFailures(c, n, j - 1);
      AllOrdinary(left);
      Reaches(c, World(Breaker(Closed, j - 1, false, 0.0), 0.0, Outstanding(0, left + 1, left + 1), 0),
          Report(left, Raised, 0.0),
              World(Breaker(if j == Threshold(c) then Open else Closed, j, false, 0.0), 0.0,
                  Outstanding(0, left, left), 0));
    }
  }

  ghost function Due(c: Config): real {
    if c.recoveryTimeout < 0.0 then 0.0 else c.recoveryTimeout
  }

  /** `j` late reports have let `j + 1` probes out. */
  ghost function Crowded(c: Config, n: nat, j: nat): World {
    World(Breaker(HalfOpen, Threshold(c), true, 0.0), Due(c), Outstanding(j, n, n + j + 1), j)
  }

  lemma {:induction false} FirstProbe(c: Config, n: nat)
    ensures Reachable(c, Crowded(c, n, 0))
  {
    ManyFailures(c, n, Threshold(c));
    var open := World(Breaker(Open, Threshold(c), false, 0.0), 0.0, Outstanding(0, n, n), 0);
    var woken := World(Breaker(HalfOpen, Threshold(c), false, 0.0), Due(c), Outstanding(0, n, n), 0);
    Reaches(c, open, Look(Due(c)), woken);
    OneMore(0, n, n);
    Reaches(c, woken, Attempt(n, Due(c)), Crowded(c, n, 0));
  }

  /** A late report frees the slot of the latest probe; the next attempt takes it. */
  lemma {:induction false} LateReportThenProbe(c: Config, w: World, ordinary: nat, next: nat)
    requires Reachable(c, w) && w.breaker.state.HalfOpen? && w.breaker.probeInFlight
    requires ordinary in w.calls && w.calls[ordinary].Ordinary? && next !in w.calls
    ensures Reachable(c, w.(calls := (w.calls - {ordinary})[next := Probe], late := w.late + 1))
  {
    var freed := Next(c, w, Report(ordinary, Cancelled, w.now));
    Reaches(c, w, Report(ordinary, Cancelled, w.now), freed);
    Reaches(c, freed, Attempt(next, w.now), Next(c, freed, Attempt(next, w.now)));
  }

  lemma {:induction false} CrowdedGrows(c: Config, n: nat, j: nat)
    requires j < n
    ensures var w := Crowded(c, n, j);
      && j in w.calls && w.calls[j].Ordinary? && n + j + 1 !in w.calls
      && w.(calls := (w.calls - {j})[n + j + 1 := Probe], late := j + 1) == Crowded(c, n, j + 1)
  {
    OneLess(j, n, n + j + 1);
    OneMore(j + 1, n, n + j + 1);
  }

  lemma {:induction false} OneMoreProbe(c: Config, n: nat, j: nat)
    requires j < n && Reachable(c, Crowded(c, n, j))
    ensures Reachable(c, Crowded(c, n, j + 1))
  {
    CrowdedGrows(c, n, j);
    LateReportThenProbe(c, Crowded(c, n, j), j, n + j + 1);
  }

  lemma {:induction false} LateReportsLetProbesOut(c: Config, n: nat, j: nat)
    requires j <= n
    ensures Reachable(c, Crowded(c, n, j))
  {
    if j == 0 {
      FirstProbe(c, n);
    } else {
      LateReportsLetProbesOut(c, n, j - 1);
      OneMoreProbe(c, n, j - 1);
    }
  }

  ghost function Range(lo: nat, hi: nat): set<nat> {
    set id: nat | id < hi && Between(lo, id, hi)
  }

  lemma {:induction false} RangeSize(lo: nat, hi: nat)
    requires lo <= hi
    ensures |Range(lo, hi)| == hi - lo
  {
    if lo == hi {
      assert Range(lo, hi) == {};
    } else {
      RangeSize(lo, hi - 1);
      assert Between(lo, hi - 1, hi);
      assert Range(lo, hi) == Range(lo, hi - 1) + {hi - 1};
    }
  }

  /**
   The source promises one probe at a time. For every configuration and every `n` there is a
   schedule with `n` late reports in which `n + 1` probes are out together.
   */
  lemma {:induction false} BoundAttained(c: Config, n: nat) returns (w: World)
    ensures Reachable(c, w) && w.late == n && |Probes(w)| == n + 1
  {
    w := Crowded(c, n, n);
    LateReportsLetProbesOut(c, n, n);
    assert Probes(w) == Range(n, n + n + 1);
    RangeSize(n, n + n + 1);
  }
}
