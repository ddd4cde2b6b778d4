/**
 The throttles of tcbot/utils/error_reporter.py: the shipping budget with its overflow
 summary, the owner-message budget per fingerprint, and the capped dedupe map.

 `now` is a reading of the monotonic clock.
 */
module ErrorReporter {
  import opened SlidingWindow

  // ---------------------------------------------------------------------------
  // Fixed windows
  // ---------------------------------------------------------------------------

  /** A window of a given length with a budget; `previous` is when the window before it began. */
  datatype Window = Window(length: real, budget: nat, previous: real, start: real, used: nat)

  /**
   The last `used` of the attempts fall into the current window, at most `before` ones ahead of
   them into the window before it, and everything else is older.
   */
  ghost predicate Windowed(attempts: seq<real>, w: Window, before: nat, now: real) {
    && before <= w.budget && w.used <= w.budget && before + w.used <= |attempts|
    && w.previous + w.length <= w.start <= now
    && (forall i :: 0 <= i < |attempts| - w.used ==> attempts[i] <= w.start)
    && (forall i :: |attempts| - w.used <= i < |attempts| ==> w.start <= attempts[i])
    && (forall i :: 0 <= i < |attempts| - w.used - before ==> attempts[i] <= w.previous)
    && (forall i :: 0 <= i < |attempts| ==> attempts[i] <= now)
  }

  ghost predicate WithinBudget(attempts: seq<real>, length: real, budget: nat) {
    forall lo, hi :: hi - lo <= length ==> CountIn(attempts, lo, hi) <= 2 * budget
  }

  lemma {:induction false} AttemptWithinBudget(attempts: seq<real>, w: Window, before: nat, now: real)
    requires Windowed(attempts, w, before, now) && WithinBudget(attempts, w.length, w.budget) && w.used < w.budget
    ensures WithinBudget(attempts + [now], w.length, w.budget)
    ensures Windowed(attempts + [now], w.(used := w.used + 1), before, now)
  {
    var more := attempts + [now];
    forall lo, hi | hi - lo <= w.length ensures CountIn(more, lo, hi) <= 2 * w.budget {
      CountInAppend(attempts, now, lo, hi);
      if lo <= now < hi {
        CountInLate(more, lo, hi, |attempts| - w.used - before);
      }
    }
  }

  lemma {:induction false} CountInRecent(attempts: seq<real>, lo: real, hi: real, k: nat)
    requires k <= |attempts| && forall i :: k <= i < |attempts| ==> lo <= attempts[i] < hi
    ensures CountIn(attempts, lo, hi) >= |attempts| - k
    decreases |attempts|
  {
    if attempts != [] {
      CountInRecent(attempts[1..], lo, hi, if k == 0 then 0 else k - 1);
    }
  }

  // ---------------------------------------------------------------------------
  // Shipping
  // ---------------------------------------------------------------------------

  const SEND_BUDGET := 20
  const SEND_WINDOW := 60.0

  /** The three module variables of the shipping throttle. */
  datatype Throttle = Throttle(windowStart: real, sent: nat, suppressed: nat)

  class Shipper {
    var windowStart: real
    var sent: nat
    var suppressed: nat

    constructor ()
      ensures View() == Throttle(0.0, 0, 0)
    {
      windowStart, sent, suppressed := 0.0, 0, 0;
    }

    function View(): Throttle
      reads this
    {
      Throttle(windowStart, sent, suppressed)
    }

    /** A call up to its first await: `summary` is the number of reports it must summarise first. */
    method Enter(now: real) returns (summary: nat, attempted: bool)
      modifies this
      ensures View() == Entered(old(View()), now).0
      ensures summary == Entered(old(View()), now).1 && attempted == Entered(old(View()), now).2
    {
      summary, attempted := 0, false;
      if now - windowStart >= SEND_WINDOW {
        windowStart := now;
        sent := 0;
        if suppressed != 0 {
          summary := suppressed;
          suppressed := 0;
          return;
        }
      }
      attempted := Decide();
    }

    /** A call that was awaiting its summary: a failed summary gives the report up too. */
    method Resume(ok: bool) returns (attempted: bool)
      modifies this
      ensures View() == (if ok then Decided(old(View())).0 else old(View()))
      ensures attempted == (ok && Decided(old(View())).1)
    {
      attempted := false;
      if ok {
        attempted := Decide();
      }
    }

    method Decide() returns (attempted: bool)
      modifies this
      ensures View() == Decided(old(View())).0 && attempted == Decided(old(View())).1
    {
      if sent >= SEND_BUDGET {
        suppressed := suppressed + 1;
        return false;
      }
      sent := sent + 1;
      attempted := true;
    }
  }

  function Decided(t: Throttle): (Throttle, bool) {
    if t.sent >= SEND_BUDGET then (t.(suppressed := t.suppressed + 1), false) else (t.(sent := t.sent + 1), true)
  }

  function Entered(t: Throttle, now: real): (Throttle, nat, bool) {
    if now - t.windowStart >= SEND_WINDOW then
      var reopened := Throttle(now, 0, 0);
      if t.suppressed != 0 then (reopened, t.suppressed, false)
      else (Decided(reopened).0, 0, Decided(reopened).1)
    else (Decided(t).0, 0, Decided(t).1)
  }

  /**
   All calls so far. `awaiting` lists, for each call suspended on its summary, how many
   reports that summary stands for; the other counters say what became of the rest.
   */
  datatype Ledger = Ledger(
    throttle: Throttle,
    now: real,
    awaiting: seq<nat>,
    attempts: seq<real>,
    calls: nat,
    summarised: nat,
    lost: nat,
    givenUp: nat)

  const START := Ledger(Throttle(0.0, 0, 0), 0.0, [], [], 0, 0, 0, 0)

  datatype Step = Enter(at: real) | Resume(i: nat, at: real, ok: bool)

  predicate Enabled(l: Ledger, s: Step) {
    s.at >= l.now && (s.Resume? ==> s.i < |l.awaiting|)
  }

  function Next(l: Ledger, s: Step): Ledger
    requires Enabled(l, s)
  {
    match s
    case Enter(at) =>
      var (t, summary, attempted) := Entered(l.throttle, at);
      l.(throttle := t,
         now := at,
         awaiting := if summary > 0 then l.awaiting + [summary] else l.awaiting,
         attempts := if attempted then l.attempts + [at] else l.attempts,
         calls := l.calls + 1)
    case Resume(i, at, ok) =>
      var rest := l.(now := at, awaiting := l.awaiting[..i] + l.awaiting[i + 1..]);
      if ok then
        var (t, attempted) := Decided(l.throttle);
        rest.(throttle := t,
              attempts := if attempted then l.attempts + [at] else l.attempts,
              summarised := l.summarised + l.awaiting[i])
      else rest.(lost := l.lost + l.awaiting[i], givenUp := l.givenUp + 1)
  }

  ghost predicate Schedule(l: Ledger, steps: seq<Step>)
    decreases |steps|
  {
    steps != [] ==> Enabled(l, steps[0]) && Schedule(Next(l, steps[0]), steps[1..])
  }

  ghost function Run(l: Ledger, steps: seq<Step>): Ledger
    requires Schedule(l, steps)
    decreases |steps|
  {
    if steps == [] then l else Run(Next(l, steps[0]), steps[1..])
  }

  function Sum(s: seq<nat>): nat {
    if s == [] then 0 else s[0] + Sum(s[1..])
  }

  lemma {:induction false} SumAppend(s: seq<nat>, t: seq<nat>)
    ensures Sum(s + t) == Sum(s) + Sum(t)
    decreases |s|
  {
    if s == [] {
      assert s + t == t;
    } else {
      assert (s + t)[1..] == s[1..] + t;
      SumAppend(s[1..], t);
    }
  }

  lemma {:induction false} SumRemove(s: seq<nat>, i: nat)
    requires i < |s|
    ensures Sum(s[..i] + s[i + 1..]) == Sum(s) - s[i]
  {
    assert s == s[..i] + ([s[i]] + s[i + 1..]);
    SumAppend(s[..i], [s[i]] + s[i + 1..]);
    SumAppend([s[i]], s[i + 1..]);
    SumAppend(s[..i], s[i + 1..]);
    assert [s[i]][1..] == [];
  }

  /** Every call is attempted, pending, summarised, lost with a failed summary, given up or suspended. */
  ghost predicate Accounted(l: Ledger) {
    l.calls == |l.attempts| + l.throttle.suppressed + l.summarised + l.lost + l.givenUp + |l.awaiting| + Sum(l.awaiting)
  }

  ghost function Sending(t: Throttle, previous: real): Window {
    Window(SEND_WINDOW, SEND_BUDGET, previous, t.windowStart, t.sent)
  }

  ghost predicate Inv(l: Ledger) {
    && Accounted(l) && WithinBudget(l.attempts, SEND_WINDOW, SEND_BUDGET)
    && exists previous, before :: Windowed(l.attempts, Sending(l.throttle, previous), before, l.now)
  }

  lemma {:induction false} EnterKeepsInv(l: Ledger, at: real)
    requires Inv(l) && at >= l.now
    ensures Inv(Next(l, Enter(at)))
  {
    var previous, before :| Windowed(l.attempts, Sending(l.throttle, previous), before, l.now);
    var t, l' := l.throttle, Next(l, Enter(at));
    if at - t.windowStart >= SEND_WINDOW {
      var w := Window(SEND_WINDOW, SEND_BUDGET, t.windowStart, at, 0);
      assert Windowed(l.attempts, w, t.sent, at);
      AttemptWithinBudget(l.attempts, w, t.sent, at);
      assert Windowed(l'.attempts, Sending(l'.throttle, t.windowStart), t.sent, at);
      SumAppend(l.awaiting, [t.suppressed]);
      assert [t.suppressed][1..] == [];
    } else {
      SpendKeepsWindow(l, previous, before, at);
    }
  }

  /** The budget decision within the current window, at the start of a call or after its summary. */
  lemma {:induction false} SpendKeepsWindow(l: Ledger, previous: real, before: nat, at: real)
    requires Windowed(l.attempts, Sending(l.throttle, previous), before, l.now) && at >= l.now
    requires WithinBudget(l.attempts, SEND_WINDOW, SEND_BUDGET)
    ensures var (t, attempted) := Decided(l.throttle);
      var attempts := if attempted then l.attempts + [at] else l.attempts;
      Windowed(attempts, Sending(t, previous), before, at) && WithinBudget(attempts, SEND_WINDOW, SEND_BUDGET)
  {
    if l.throttle.sent < SEND_BUDGET {
      AttemptWithinBudget(l.attempts, Sending(l.throttle, previous), before, at);
    }
  }

  lemma {:induction false} ResumeKeepsInv(l: Ledger, s: Step)
    requires Inv(l) && s.Resume? && Enabled(l, s)
    ensures Inv(Next(l, s))
  {
    var previous, before :| Windowed(l.attempts, Sending(l.throttle, previous), before, l.now);
    var l' := Next(l, s);
    ResumeKeepsAccounts(l, s);
    SpendKeepsWindow(l, previous, before, s.at);
    hide Accounted, WithinBudget;
    assert Windowed(l'.attempts, Sending(l'.throttle, previous), before, s.at);
  }

  lemma {:induction false} ResumeKeepsAccounts(l: Ledger, s: Step)
    requires Accounted(l) && s.Resume? && Enabled(l, s)
    ensures Accounted(Next(l, s))
  {
    SumRemove(l.awaiting, s.i);
  }

  lemma {:induction false} RunKeepsInv(l: Ledger, steps: seq<Step>)
    requires Inv(l) && Schedule(l, steps)
    ensures Inv(Run(l, steps))
    decreases |steps|
  {
    if steps != [] {
      match steps[0] {
        case Enter(at) => EnterKeepsInv(l, at);
        case Resume(_, _, _) => ResumeKeepsInv(l, steps[0]);
      }
      RunKeepsInv(Next(l, steps[0]), steps[1..]);
    }
  }

  /**
   Over every interleaving of calls and summaries: at most two budgets of reports, 40, are
   attempted in any minute, and every call is accounted for.
   */
  lemma {:induction false} ShippingBudget(steps: seq<Step>, lo: real, hi: real)
    requires Schedule(START, steps) && hi - lo <= 60.0
    ensures CountIn(Run(START, steps).attempts, lo, hi) <= 40
    ensures Accounted(Run(START, steps))
  {
    assert Windowed([], Sending(START.throttle, -SEND_WINDOW), 0, 0.0);
    RunKeepsInv(START, steps);
  }

  /**
   A call is suppressed only when the budget is spent: 20 reports have been attempted in the
   minute before it. Otherwise it is attempted at once or awaits its summary.
   */
  lemma {:induction false} SuppressedOnlyWhenSpent(steps: seq<Step>, at: real, hi: real)
    requires Schedule(START, steps) && Enabled(Run(START, steps), Enter(at)) && at < hi
    ensures var l := Run(START, steps);
      var l' := Next(l, Enter(at));
      || l'.attempts == l.attempts + [at]
      || (l'.attempts == l.attempts && l'.awaiting == l.awaiting + [l.throttle.suppressed]
          && l'.throttle.suppressed == 0)
      || (l'.attempts == l.attempts && l'.throttle.suppressed == l.throttle.suppressed + 1
          && CountIn(l.attempts, at - 60.0, hi) >= 20)
  {
    assert Windowed([], Sending(START.throttle, -SEND_WINDOW), 0, 0.0);
    RunKeepsInv(START, steps);
    var l := Run(START, steps);
    var previous, before :| Windowed(l.attempts, Sending(l.throttle, previous), before, l.now);
    if at - l.throttle.windowStart < SEND_WINDOW && l.throttle.sent >= SEND_BUDGET {
      CountInRecent(l.attempts, at - 60.0, hi, |l.attempts| - l.throttle.sent);
    }
  }

  /** A sent summary lets its call go on to the budget; a failed one loses what it stood for and the report. */
  lemma {:induction false} SummaryDecides(l: Ledger, i: nat, at: real, ok: bool)
    requires Enabled(l, Resume(i, at, ok))
    ensures var l' := Next(l, Resume(i, at, ok));
      && l'.calls == l.calls && |l'.awaiting| == |l.awaiting| - 1
      && l'.summarised == l.summarised + (if ok then l.awaiting[i] else 0)
      && l'.lost == l.lost + (if ok then 0 else l.awaiting[i])
      && l'.givenUp == l.givenUp + (if ok then 0 else 1)
      && l'.attempts == (if ok && l.throttle.sent < 20 then l.attempts + [at] else l.attempts)
  {
  }

  // ---------------------------------------------------------------------------
  // Messages to the owner
  // ---------------------------------------------------------------------------

  type Fingerprint = string

  const OWNER_WINDOW := 3600.0
  const OWNER_BUDGET := 3
  const OWNER_MAX := 1000

  /** When the fingerprint's window opened and how many messages it has used. */
  type Usage = (real, int)

  function UsageOf(m: map<Fingerprint, Usage>, fp: Fingerprint, now: real): Usage {
    var entry := if fp in m then m[fp] else (now, 0);
    if now - entry.0 >= OWNER_WINDOW then (now, 0) else entry
  }

  /** The throttle that never forgets an entry: its answer, and its map afterwards. */
  function Suppresses(m: map<Fingerprint, Usage>, fp: Fingerprint, now: real): bool {
    UsageOf(m, fp, now).1 >= OWNER_BUDGET
  }

  function Noted(m: map<Fingerprint, Usage>, fp: Fingerprint, now: real): map<Fingerprint, Usage> {
    var (start, count) := UsageOf(m, fp, now);
    m[fp := (start, if count >= OWNER_BUDGET then count else count + 1)]
  }

  class OwnerThrottle {
    var ownerSent: map<Fingerprint, Usage>
    ghost var unpruned: map<Fingerprint, Usage>
    ghost var clock: real

    /** An entry is either kept as it is or was dropped after it expired. */
    ghost predicate Valid()
      reads this
    {
      && (forall fp :: fp in ownerSent ==> fp in unpruned && ownerSent[fp] == unpruned[fp])
      && (forall fp :: fp in unpruned && fp !in ownerSent ==> clock - unpruned[fp].0 >= OWNER_WINDOW)
    }

    constructor (ghost clock: real)
      ensures Valid() && unpruned == map[] && this.clock == clock
    {
      this.clock := clock;
      ownerSent, unpruned := map[], map[];
    }

    /** Pruning expired entries never changes an answer. */
    method OwnerSuppressed(fp: Fingerprint, now: real) returns (suppressed: bool)
      requires Valid() && clock <= now
      modifies this
      ensures Valid() && clock == now
      ensures suppressed == Suppresses(old(unpruned), fp, now)
      ensures unpruned == Noted(old(unpruned), fp, now)
    {
      clock := now;
      if |ownerSent| >= OWNER_MAX {
        ownerSent := map key | key in ownerSent && now - ownerSent[key].0 < OWNER_WINDOW :: ownerSent[key];
      }
      unpruned := Noted(unpruned, fp, now);
      var start, count := now, 0;
      if fp in ownerSent {
        start, count := ownerSent[fp].0, ownerSent[fp].1;
      }
      if now - start >= OWNER_WINDOW {
        start, count := now, 0;
      }
      if count >= OWNER_BUDGET {
        ownerSent := ownerSent[fp := (start, count)];
        return true;
      }
      ownerSent := ownerSent[fp := (start, count + 1)];
      suppressed := false;
    }
  }

  datatype Report = Report(fp: Fingerprint, at: real)

  /** The throttle after `calls`, and when the owner was told about `fp`. */
  function NotedAll(calls: seq<Report>): map<Fingerprint, Usage> {
    if calls == [] then map[]
    else
      var last := calls[|calls| - 1];
      Noted(NotedAll(calls[..|calls| - 1]), last.fp, last.at)
  }

  function ToldAt(calls: seq<Report>, fp: Fingerprint): seq<real> {
    if calls == [] then []
    else
      var earlier, last := calls[..|calls| - 1], calls[|calls| - 1];
      if last.fp == fp && !Suppresses(NotedAll(earlier), fp, last.at) then ToldAt(earlier, fp) + [last.at]
      else ToldAt(earlier, fp)
  }

  ghost predicate Clocked(calls: seq<Report>, now: real) {
    && (forall i, j :: 0 <= i < j < |calls| ==> calls[i].at <= calls[j].at)
    && (forall i :: 0 <= i < |calls| ==> calls[i].at <= now)
  }

  /** What the throttle knows of `fp` (`m`) against the times its owner was told (`told`). */
  ghost predicate Telling(m: map<Fingerprint, Usage>, told: seq<real>, fp: Fingerprint, w: Window, before: nat,
      now: real) {
    && w.length == OWNER_WINDOW && w.budget == OWNER_BUDGET
    && Windowed(told, w, before, now) && WithinBudget(told, OWNER_WINDOW, OWNER_BUDGET)
    && if fp in m then m[fp] == (w.start, w.used) else told == []
  }

  lemma {:induction false} ReportKeepsTelling(m: map<Fingerprint, Usage>, told: seq<real>, fp: Fingerprint, w: Window,
      before: nat, now: real)
    returns (w': Window, before': nat)
    requires Telling(m, told, fp, w, before, now)
    ensures Telling(Noted(m, fp, now), if Suppresses(m, fp, now) then told else told + [now], fp, w', before', now)
  {
    w', before' := w, before;
    if fp !in m {
      w', before' := Window(OWNER_WINDOW, OWNER_BUDGET, now - OWNER_WINDOW, now, 0), 0;
    } else if now - w.start >= OWNER_WINDOW {
      w', before' := Window(OWNER_WINDOW, OWNER_BUDGET, w.start, now, 0), w.used;
    }
    assert UsageOf(m, fp, now) == (w'.start, w'.used) && Windowed(told, w', before', now);
    if w'.used < OWNER_BUDGET {
      AttemptWithinBudget(told, w', before', now);
      w' := w'.(used := w'.used + 1);
    }
  }

  lemma {:induction false} LaterStillTelling(m: map<Fingerprint, Usage>, told: seq<real>, fp: Fingerprint, w: Window,
      before: nat, at: real, now: real)
    requires Telling(m, told, fp, w, before, at) && at <= now
    ensures Telling(m, told, fp, w, before, now)
  {
  }

  lemma {:induction false} OwnerWindows(calls: seq<Report>, fp: Fingerprint, now: real) returns (w: Window, before: nat)
    requires Clocked(calls, now)
    ensures Telling(NotedAll(calls), ToldAt(calls, fp), fp, w, before, now)
  {
    if calls == [] {
      w, before := Window(OWNER_WINDOW, OWNER_BUDGET, now - OWNER_WINDOW, now, 0), 0;
    } else {
      var earlier, last := calls[..|calls| - 1], calls[|calls| - 1];
      w, before := OwnerWindows(earlier, fp, last.at);
      if last.fp == fp {
        w, before := ReportKeepsTelling(NotedAll(earlier), ToldAt(earlier, fp), fp, w, before, last.at);
      }
      LaterStillTelling(NotedAll(calls), ToldAt(calls, fp), fp, w, before, last.at, now);
      hide Telling;
    }
  }

  /** However often an error repeats, the owner hears of it at most twice the budget, 6 times, in any hour. */
  lemma {:induction false} OwnerBudget(calls: seq<Report>, fp: Fingerprint, now: real, lo: real, hi: real)
    requires Clocked(calls, now) && hi - lo <= 3600.0
    ensures CountIn(ToldAt(calls, fp), lo, hi) <= 6
  {
    var w, before := OwnerWindows(calls, fp, now);
  }

  /** A message to the owner is suppressed only when that error has reached the owner 3 times in the hour before. */
  lemma {:induction false} OwnerSuppressedOnlyWhenTold(calls: seq<Report>, fp: Fingerprint, now: real, hi: real)
    requires Clocked(calls, now) && hi > now && Suppresses(NotedAll(calls), fp, now)
    ensures CountIn(ToldAt(calls, fp), now - 3600.0, hi) >= 3
  {
    var w, before := OwnerWindows(calls, fp, now);
    CountInRecent(ToldAt(calls, fp), now - 3600.0, hi, |ToldAt(calls, fp)| - w.used);
  }

  // ---------------------------------------------------------------------------
  // Dedupe
  // ---------------------------------------------------------------------------

  const DEDUPE_WINDOW := 30.0
  const RECENT_MAX := 1000

  function Live(m: map<Fingerprint, real>, now: real): map<Fingerprint, real> {
    map key | key in m && now - m[key] <= DEDUPE_WINDOW :: m[key]
  }

  lemma {:induction false} SomeOldest(m: map<Fingerprint, real>, keys: set<Fingerprint>) returns (oldest: Fingerprint)
    requires keys != {} && keys <= m.Keys
    ensures oldest in keys && forall key :: key in keys ==> m[oldest] <= m[key]
    decreases |keys|
  {
    oldest :| oldest in keys;
    if keys != {oldest} {
      var other := SomeOldest(m, keys - {oldest});
      if m[other] < m[oldest] {
        oldest := other;
      }
    }
  }

  /** `kept` is `m` without some of its oldest entries. */
  ghost predicate DropsOldest(m: map<Fingerprint, real>, kept: map<Fingerprint, real>) {
    && (forall key :: key in kept ==> key in m && kept[key] == m[key])
    && (forall gone, key :: gone in m && gone !in kept && key in kept ==> m[gone] <= m[key])
  }

  /** What a lookup of `fp` in `m` answers, and the map it leaves. */
  predicate Marked(m: map<Fingerprint, real>, fp: Fingerprint, now: real, seen: bool, left: map<Fingerprint, real>) {
    seen == (fp in m) && left == if seen then m else m[fp := now]
  }

  function Fingerprints(calls: seq<Report>): set<Fingerprint> {
    set i | 0 <= i < |calls| :: calls[i].fp
  }

  /** Reference definition: the lookup has been answered no within the last 30 seconds before. */
  ghost predicate Repeats(calls: seq<Report>, i: nat)
    requires i < |calls|
    decreases i
  {
    exists j: nat ::
      j < i && calls[j].fp == calls[i].fp && calls[i].at - calls[j].at <= 30.0 && !Repeats(calls, j)
  }

  /** The map holds first sightings, and all that are still in the window of the last lookup. */
  ghost predicate Sighted(calls: seq<Report>, n: nat, m: map<Fingerprint, real>)
    requires n <= |calls|
  {
    && (forall fp :: fp in m ==> exists j: nat :: j < n && calls[j] == Report(fp, m[fp]) && !Repeats(calls, j))
    && (forall j: nat :: j < n && !Repeats(calls, j) ==>
          || (calls[j].fp in m && m[calls[j].fp] >= calls[j].at)
          || calls[n - 1].at - calls[j].at > 30.0)
  }

  lemma {:induction false} SightedFits(calls: seq<Report>, n: nat, m: map<Fingerprint, real>)
    requires n <= |calls| && Sighted(calls, n, m) && |Fingerprints(calls)| < RECENT_MAX
    ensures |m| < RECENT_MAX
  {
    forall fp | fp in m ensures fp in Fingerprints(calls) {
      var j: nat :| j < n && calls[j] == Report(fp, m[fp]) && !Repeats(calls, j);
    }
    assert Fingerprints(calls) == m.Keys + (Fingerprints(calls) - m.Keys);
  }

  lemma {:induction false} SightedAtStart(calls: seq<Report>)
    ensures Sighted(calls, 0, map[])
  {
  }

  lemma {:induction false} FoundIffRepeats(calls: seq<Report>, n: nat, m: map<Fingerprint, real>)
    requires n < |calls| && Sighted(calls, n, m)
    requires forall i, j :: 0 <= i < j < |calls| ==> calls[i].at <= calls[j].at
    ensures calls[n].fp in Live(m, calls[n].at) <==> Repeats(calls, n)
  {
    var call := calls[n];
    if call.fp in Live(m, call.at) {
      var j: nat :| j < n && calls[j] == Report(call.fp, m[call.fp]) && !Repeats(calls, j);
      assert Repeats(calls, n);
    }
    if Repeats(calls, n) {
      var j: nat :| j < n && calls[j].fp == call.fp && call.at - calls[j].at <= 30.0 && !Repeats(calls, j);
      assert call.fp in m && m[call.fp] >= calls[j].at;
    }
  }

  lemma {:induction false} KeptAreSightings(calls: seq<Report>, n: nat, m: map<Fingerprint, real>, seen: bool,
                                            left: map<Fingerprint, real>, fp: Fingerprint)
    requires n < |calls| && Sighted(calls, n, m) && (seen <==> Repeats(calls, n)) && fp in left
    requires Marked(Live(m, calls[n].at), calls[n].fp, calls[n].at, seen, left)
    ensures exists j: nat :: j < n + 1 && calls[j] == Report(fp, left[fp]) && !Repeats(calls, j)
  {
    hide Repeats;
    if fp in Live(m, calls[n].at) {
      var j: nat :| j < n && calls[j] == Report(fp, m[fp]) && !Repeats(calls, j);
    } else {
      assert calls[n] == Report(fp, left[fp]);
    }
  }

  lemma {:induction false} SightingsAreKept(calls: seq<Report>, n: nat, m: map<Fingerprint, real>, seen: bool,
                                            left: map<Fingerprint, real>, j: nat)
    requires n < |calls| && Sighted(calls, n, m) && (seen <==> Repeats(calls, n)) && j < n + 1 && !Repeats(calls, j)
    requires forall i, k :: 0 <= i < k < |calls| ==> calls[i].at <= calls[k].at
    requires Marked(Live(m, calls[n].at), calls[n].fp, calls[n].at, seen, left)
    ensures (calls[j].fp in left && left[calls[j].fp] >= calls[j].at) || calls[n].at - calls[j].at > 30.0
  {
    hide Repeats;
  }

  lemma {:induction false} SightedNext(calls: seq<Report>, n: nat, m: map<Fingerprint, real>, seen: bool,
                                       left: map<Fingerprint, real>)
    requires n < |calls| && Sighted(calls, n, m)
    requires forall i, j :: 0 <= i < j < |calls| ==> calls[i].at <= calls[j].at
    requires Marked(Live(m, calls[n].at), calls[n].fp, calls[n].at, seen, left)
    ensures seen <==> Repeats(calls, n)
    ensures Sighted(calls, n + 1, left)
  {
    FoundIffRepeats(calls, n, m);
    hide Repeats, Live;
    forall fp | fp in left
      ensures exists j: nat :: j < n + 1 && calls[j] == Report(fp, left[fp]) && !Repeats(calls, j)
    {
      KeptAreSightings(calls, n, m, seen, left, fp);
    }
    forall j: nat | j < n + 1 && !Repeats(calls, j)
      ensures (calls[j].fp in left && left[calls[j].fp] >= calls[j].at) || calls[n].at - calls[j].at > 30.0
    {
      SightingsAreKept(calls, n, m, seen, left, j);
    }
    hide Marked;
  }

  class Dedupe {
    var recent: map<Fingerprint, real>

    constructor ()
      ensures recent == map[]
    {
      recent := map[];
    }

    method DropOldest(n: nat)
      requires n <= |recent|
      modifies this
      ensures |recent| == |old(recent)| - n && DropsOldest(old(recent), recent)
    {
      var all := recent;
      for i := 0 to n
        invariant |recent| == |all| - i && DropsOldest(all, recent)
      {
        ghost var witnessed := SomeOldest(recent, recent.Keys);
        var oldest :| oldest in recent && forall key :: key in recent ==> recent[oldest] <= recent[key];
        RemoveOne(recent, oldest);
        recent := recent - {oldest};
      }
    }

    lemma {:induction false} RemoveOne(m: map<Fingerprint, real>, key: Fingerprint)
      requires key in m
      ensures |m - {key}| == |m| - 1
    {
      assert (m - {key}).Keys == m.Keys - {key};
    }

    /**
     Whether the fingerprint was seen within the window. The answer is exact as long as fewer
     than 1000 fingerprints are live; the map never outgrows the cap; only the oldest
     entries are ever forgotten early.
     */
    method SeenRecently(fp: Fingerprint, now: real) returns (seen: bool)
      requires |recent| <= 1000
      modifies this
      ensures |recent| <= 1000
      ensures var live := Live(old(recent), now);
        && (seen ==> fp in live)
        && (|live| < 1000 ==> Marked(live, fp, now, seen, recent))
        && (|live| == 1000 ==> exists kept :: DropsOldest(live, kept) && Marked(kept, fp, now, seen, recent)
                                              && |kept| == 900)
    {
      LiveIsSmaller(recent, now);
      recent := Live(recent, now);
      if |recent| >= RECENT_MAX {
        DropOldest(RECENT_MAX / 10);
      }
      if fp in recent {
        return true;
      }
      assert recent[fp := now].Keys == recent.Keys + {fp};
      recent := recent[fp := now];
      seen := false;
    }

    /**
     One lookup after another, on a map that starts empty and never fills up. An answer is yes
     exactly when an earlier lookup of the same fingerprint, itself answered no, lies at most
     30 seconds back: repeats do not extend the window.
     */
    method SeenAll(calls: seq<Report>, now: real) returns (seen: seq<bool>)
      requires Clocked(calls, now) && recent == map[] && |Fingerprints(calls)| < RECENT_MAX
      modifies this
      ensures |seen| == |calls| && forall i: nat :: i < |calls| ==> seen[i] == Repeats(calls, i)
    {
      seen := [];
      SightedAtStart(calls);
      hide Sighted, Repeats, Marked, Live, DropsOldest;
      for i := 0 to |calls|
        invariant |seen| == i && Sighted(calls, i, recent)
        invariant forall j: nat :: j < i ==> seen[j] == Repeats(calls, j)
      {
        SightedFits(calls, i, recent);
        ghost var before := recent;
        LiveIsSmaller(before, calls[i].at);
        var answer := SeenRecently(calls[i].fp, calls[i].at);
        seen := seen + [answer];
        SightedNext(calls, i, before, answer, recent);
      }
    }

    lemma {:induction false} LiveIsSmaller(m: map<Fingerprint, real>, now: real)
      ensures |Live(m, now)| <= |m|
    {
      assert m.Keys == Live(m, now).Keys + (m.Keys - Live(m, now).Keys);
    }
  }
}
