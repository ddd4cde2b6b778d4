/**
 Model of the rate limiters of tcbot/modules/helper/decorators.py: the in-process fallback
 with its bucket clean-up, the Redis sorted-set script, and the limiter that switches
 between them. All are proved against the keep-everything log of module SlidingWindow.

 Each limiter carries, as ghost state, every admission it ever made. `now` is the clock
 reading of a call; one clock that never runs backwards serves all of them.
 */
module RateLimiters {
  import opened SlidingWindow
  import opened Wrappers

  const MAX_BUCKETS := 10_000

  function StampsOf(m: map<int, seq<real>>, uid: int): seq<real> {
    if uid in m then m[uid] else []
  }

  /** The log after a call of `uid`: one admission longer, or unchanged by a denial. */
  function Logged(m: map<int, seq<real>>, uid: int, now: real, admitted: bool): map<int, seq<real>> {
    if admitted then m[uid := StampsOf(m, uid) + [now]] else m
  }

  /** `kept` is what is left of `stamps` after dropping some admissions that expired. */
  ghost predicate Tracks(kept: seq<real>, stamps: seq<real>, clock: real, window: real) {
    && |kept| <= |stamps|
    && (forall i :: 0 <= i < |kept| ==> kept[i] == stamps[|stamps| - |kept| + i])
    && forall i :: 0 <= i < |stamps| - |kept| ==> Expired(stamps[i], clock, window)
  }

  /** The history of one user: sorted, spaced, and tracked by what the limiter kept. */
  ghost predicate Faithful(kept: seq<real>, stamps: seq<real>, clock: real, window: real, limit: nat) {
    && Sorted(stamps, clock)
    && Spaced(stamps, window, limit)
    && Tracks(kept, stamps, clock, window)
  }

  /** `b` is `a` without some of its oldest stamps, all of them expired at `now`. */
  ghost predicate Pruned(a: seq<real>, b: seq<real>, now: real, window: real) {
    && |b| <= |a|
    && (forall i :: 0 <= i < |b| ==> b[i] == a[|a| - |b| + i])
    && forall i :: 0 <= i < |a| - |b| ==> Expired(a[i], now, window)
  }

  lemma {:induction false} TracksPruned(kept: seq<real>, pruned: seq<real>, stamps: seq<real>, clock: real, now: real,
      window: real)
    requires clock <= now && Tracks(kept, stamps, clock, window) && Pruned(kept, pruned, now, window)
    ensures Tracks(pruned, stamps, now, window)
  {
    var n, k, p := |stamps|, |kept|, |pruned|;
    forall i | 0 <= i < n - p ensures Expired(stamps[i], now, window) {
      if i >= n - k {
        assert stamps[i] == kept[i - (n - k)];
      }
    }
  }

  lemma {:induction false} SortedLater(stamps: seq<real>, clock: real, now: real)
    requires clock <= now && Sorted(stamps, clock)
    ensures Sorted(stamps, now)
  {
  }

  lemma {:induction false} FaithfulLater(kept: seq<real>, pruned: seq<real>, stamps: seq<real>, clock: real,
      now: real, window: real, limit: nat)
    requires clock <= now && Faithful(kept, stamps, clock, window, limit) && Pruned(kept, pruned, now, window)
    ensures Faithful(pruned, stamps, now, window, limit)
  {
    SortedLater(stamps, clock, now);
    TracksPruned(kept, pruned, stamps, clock, now, window);
  }

  lemma {:induction false} TracksCount(kept: seq<real>, stamps: seq<real>, clock: real, window: real)
    requires Tracks(kept, stamps, clock, window)
    requires forall i :: 0 <= i < |kept| ==> !Expired(kept[i], clock, window)
    ensures LiveCount(stamps, clock, window) == |kept|
  {
    var k := |stamps| - |kept|;
    assert forall i :: k <= i < |stamps| ==> stamps[i] == kept[i - k];
    LiveSuffix(stamps, clock, window, k);
  }

  ghost predicate AllFaithful(kept: map<int, seq<real>>, history: map<int, seq<real>>, clock: real, window: real,
      limit: nat) {
    forall uid :: Faithful(StampsOf(kept, uid), StampsOf(history, uid), clock, window, limit)
  }

  /** Time passing and throwing expired stamps away lose nothing that can still matter. */
  lemma {:induction false} PruningIsInvisible(kept: map<int, seq<real>>, kept': map<int, seq<real>>,
                                              history: map<int, seq<real>>, clock: real, now: real,
                                              window: real, limit: nat)
    requires clock <= now && AllFaithful(kept, history, clock, window, limit)
    requires forall uid :: Pruned(StampsOf(kept, uid), StampsOf(kept', uid), now, window)
    ensures AllFaithful(kept', history, now, window, limit)
  {
    forall uid ensures Faithful(StampsOf(kept', uid), StampsOf(history, uid), now, window, limit) {
      FaithfulLater(StampsOf(kept, uid), StampsOf(kept', uid), StampsOf(history, uid), clock, now, window, limit);
    }
  }

  lemma {:induction false} FaithfulAdmit(kept: seq<real>, stamps: seq<real>, now: real, window: real, limit: nat)
    requires Faithful(kept, stamps, now, window, limit) && limit >= 1 && Admitted(stamps, now, window, limit)
    ensures Faithful(kept + [now], stamps + [now], now, window, limit)
  {
    AdmissionKeepsSpacing(stamps, now, window, limit);
    hide Sorted, Spaced, Admitted;
  }

  lemma {:induction false} AdmissionIsFaithful(kept: map<int, seq<real>>, history: map<int, seq<real>>, uid: int,
                                               now: real, window: real, limit: nat)
    requires AllFaithful(kept, history, now, window, limit) && limit >= 1
    requires Admitted(StampsOf(history, uid), now, window, limit)
    ensures AllFaithful(kept[uid := StampsOf(kept, uid) + [now]], history[uid := StampsOf(history, uid) + [now]], now,
              window, limit)
  {
    hide Faithful;
    var kept', history' := kept[uid := StampsOf(kept, uid) + [now]], history[uid := StampsOf(history, uid) + [now]];
    forall u ensures Faithful(StampsOf(kept', u), StampsOf(history', u), now, window, limit) {
      assert Faithful(StampsOf(kept, u), StampsOf(history, u), now, window, limit);
      if u == uid {
        FaithfulAdmit(StampsOf(kept, uid), StampsOf(history, uid), now, window, limit);
      }
    }
  }

  /** After dropping what expired, the stamps left are the admissions that still count. */
  lemma {:induction false} KeptAreLive(kept: map<int, seq<real>>, history: map<int, seq<real>>, uid: int,
                                       now: real, window: real, limit: nat)
    requires AllFaithful(kept, history, now, window, limit)
    requires StampsOf(kept, uid) != [] ==> !Expired(StampsOf(kept, uid)[0], now, window)
    ensures LiveCount(StampsOf(history, uid), now, window) == |StampsOf(kept, uid)|
    ensures StampsOf(kept, uid) != [] ==>
              ExactWait(StampsOf(history, uid), now, window) == window - (now - StampsOf(kept, uid)[0])
    ensures StampsOf(kept, uid) != [] ==> now - StampsOf(kept, uid)[0] < window
    ensures forall i :: 0 <= i < |StampsOf(kept, uid)| ==> StampsOf(kept, uid)[0] <= StampsOf(kept, uid)[i] <= now
  {
    assert Faithful(StampsOf(kept, uid), StampsOf(history, uid), now, window, limit);
    var a, stamps := StampsOf(kept, uid), StampsOf(history, uid);
    assert forall i :: 0 <= i < |a| ==> a[i] == stamps[|stamps| - |a| + i];
    TracksCount(a, stamps, now, window);
  }

  lemma {:induction false} FirstIsOldest(kept: map<int, seq<real>>, history: map<int, seq<real>>, uid: int,
                                         clock: real, window: real, limit: nat)
    requires AllFaithful(kept, history, clock, window, limit)
    ensures var a := StampsOf(kept, uid);
      && (forall i, j :: 0 <= i <= j < |a| ==> a[i] <= a[j])
      && (forall i :: 0 <= i < |a| ==> a[i] <= clock)
  {
    assert Faithful(StampsOf(kept, uid), StampsOf(history, uid), clock, window, limit);
    var a, stamps := StampsOf(kept, uid), StampsOf(history, uid);
    assert forall i :: 0 <= i < |a| ==> a[i] == stamps[|stamps| - |a| + i];
  }

  // ---------------------------------------------------------------------------
  // The in-process limiter
  // ---------------------------------------------------------------------------

  /** The stamps of a bucket lie within one window of each other. */
  ghost predicate Tight(bucket: seq<real>, window: real) {
    bucket != [] && (|bucket| > 1 ==> bucket[|bucket| - 1] - bucket[0] < window)
  }

  lemma {:induction false} OldIsExpired(kept: map<int, seq<real>>, history: map<int, seq<real>>, uid: int, now: real,
                                        window: real, limit: nat)
    requires AllFaithful(kept, history, now, window, limit) && uid in kept && Tight(kept[uid], window)
    requires kept[uid][0] <= now - window * 2.0
    ensures forall i :: 0 <= i < |kept[uid]| ==> Expired(kept[uid][i], now, window)
  {
    FirstIsOldest(kept, history, uid, now, window, limit);
    var a := StampsOf(kept, uid);
    hide AllFaithful;
    forall i | 0 <= i < |a| ensures Expired(a[i], now, window) {
      assert a[0] <= a[i] <= a[|a| - 1];
    }
  }

  class LocalLimiter {
    const maxCalls: int
    const window: real
    var buckets: map<int, seq<real>>
    ghost var history: map<int, seq<real>>
    ghost var clock: real

    /** A user without a bucket is always admitted, so the effective limit is at least one. */
    ghost function Limit(): nat {
      if maxCalls < 1 then 1 else maxCalls
    }

    ghost predicate Valid()
      reads this
    {
      && AllFaithful(buckets, history, clock, window, Limit())
      && forall uid :: uid in buckets ==> Tight(buckets[uid], window)
    }

    constructor (maxCalls: int, window: real, ghost clock: real)
      ensures Valid() && this.maxCalls == maxCalls && this.window == window
      ensures history == map[] && this.clock == clock
    {
      this.maxCalls, this.window, this.clock := maxCalls, window, clock;
      buckets, history := map[], map[];
      new;
      forall uid ensures Faithful(StampsOf(buckets, uid), StampsOf(history, uid), clock, window, Limit()) {
        assert StampsOf(buckets, uid) == [];
      }
    }

    ghost method Elapse(now: real)
      requires Valid() && clock <= now
      modifies this`clock
      ensures Valid() && clock == now
    {
      PruningIsInvisible(buckets, buckets, history, clock, now, window, Limit());
      clock := now;
    }

    /** Pops the expired stamps off the front of a bucket. */
    method DropExpired(uid: int, now: real) returns (dq: seq<real>)
      requires Valid() && clock <= now && uid in buckets
      modifies this`buckets, this`clock
      ensures clock == now && AllFaithful(buckets, history, now, window, Limit())
      ensures uid in buckets && buckets[uid] == dq
      ensures forall u :: u in buckets && (u != uid || dq != []) ==> Tight(buckets[u], window)
      ensures dq != [] ==> !Expired(dq[0], now, window)
    {
      dq := buckets[uid];
      while dq != [] && now - dq[0] >= window
        invariant Pruned(buckets[uid], dq, now, window)
      {
        dq := dq[1..];
      }
      KeepPruned(uid, dq, now);
      buckets := buckets[uid := dq];
      clock := now;
    }

    lemma {:induction false} KeepPruned(uid: int, dq: seq<real>, now: real)
      requires Valid() && clock <= now && uid in buckets && Pruned(buckets[uid], dq, now, window)
      ensures AllFaithful(buckets[uid := dq], history, now, window, Limit())
      ensures dq != [] ==> Tight(dq, window)
    {
      PruningIsInvisible(buckets, buckets[uid := dq], history, clock, now, window, Limit());
      FirstIsOldest(buckets, history, uid, clock, window, Limit());
      var a := buckets[uid];
      assert Tight(a, window);
      assert StampsOf(buckets, uid) == a;
      if |dq| > 1 {
        assert a[0] <= a[|a| - |dq|];
        assert dq[0] == a[|a| - |dq|] && dq[|dq| - 1] == a[|a| - 1];
      }
    }

    method Admit(uid: int, now: real)
      requires clock == now && AllFaithful(buckets, history, now, window, Limit())
      requires forall u :: u in buckets && u != uid ==> Tight(buckets[u], window)
      requires StampsOf(buckets, uid) != [] ==> !Expired(StampsOf(buckets, uid)[0], now, window)
      requires |StampsOf(buckets, uid)| < Limit()
      modifies this`buckets, this`history
      ensures Valid()
      ensures Admitted(StampsOf(old(history), uid), now, window, Limit())
      ensures history == old(history)[uid := StampsOf(old(history), uid) + [now]]
    {
      KeptAreLive(buckets, history, uid, now, window, Limit());
      AdmissionIsFaithful(buckets, history, uid, now, window, Limit());
      history := history[uid := StampsOf(history, uid) + [now]];
      if uid in buckets {
        buckets := buckets[uid := buckets[uid] + [now]];
      } else {
        assert StampsOf(buckets, uid) + [now] == [now];
        buckets := buckets[uid := [now]];
      }
    }

    /** Forgets every bucket whose oldest stamp is two windows old or older. */
    method ForgetOldBuckets(now: real)
      requires Valid() && clock == now
      modifies this`buckets
      ensures Valid()
    {
      var cutoff := now - window * 2.0;
      ghost var before := buckets;
      buckets := map k | k in buckets && buckets[k] != [] && buckets[k][0] > cutoff :: buckets[k];
      forall uid ensures Pruned(StampsOf(before, uid), StampsOf(buckets, uid), now, window) {
        if uid in before && before[uid][0] <= cutoff {
          OldIsExpired(before, history, uid, now, window, Limit());
        }
      }
      PruningIsInvisible(before, buckets, history, now, now, window, Limit());
    }

    /**
     One call of `uid`. The decision and the new log are those of the specification, whatever
     buckets the clean-up has thrown away; `answer` is the number the source returns.
     */
    method Check(uid: int, now: real) returns (admitted: bool, answer: real)
      requires Valid() && clock <= now
      modifies this
      ensures Valid() && clock == now
      ensures admitted == Admitted(StampsOf(old(history), uid), now, window, Limit())
      ensures history == Logged(old(history), uid, now, admitted)
      ensures admitted ==> answer == 0.0
      ensures !admitted ==>
                && LiveCount(StampsOf(history, uid), now, window) > 0
                && NearestTenth(answer, ExactWait(StampsOf(history, uid), now, window))
    {
      if uid !in buckets {
        Elapse(now);
        Admit(uid, now);
        if |buckets| > MAX_BUCKETS {
          ForgetOldBuckets(now);
        }
        return true, 0.0;
      }
      var dq := DropExpired(uid, now);
      if dq == [] {
        Admit(uid, now);
        return true, 0.0;
      }
      if |dq| >= maxCalls {
        KeptAreLive(buckets, history, uid, now, window, Limit());
        RoundingIsNearest(window - (now - dq[0]));
        return false, RoundedToTenths(window - (now - dq[0]));
      }
      Admit(uid, now);
      return true, 0.0;
    }

    lemma {:induction false} AtMostLimitPerWindow(uid: int, lo: real, hi: real)
      requires Valid() && hi - lo <= window
      ensures CountIn(StampsOf(history, uid), lo, hi) <= Limit()
    {
      assert Faithful(StampsOf(buckets, uid), StampsOf(history, uid), clock, window, Limit());
      WindowBound(StampsOf(history, uid), clock, window, Limit(), lo, hi);
    }
  }

  // ---------------------------------------------------------------------------
  // The rounded answer
  // ---------------------------------------------------------------------------

  function RoundHalfEven(x: real): int {
    var below := x.Floor;
    var rest := x - below as real;
    if rest < 0.5 || (rest == 0.5 && below % 2 == 0) then below else below + 1
  }

  function RoundedToTenths(x: real): real {
    RoundHalfEven(x * 10.0) as real / 10.0
  }

  /** A whole number of tenths at most half a tenth away, the even one of two that are as near. */
  ghost predicate NearestTenth(answer: real, exact: real) {
    && answer * 10.0 == (answer * 10.0).Floor as real
    && -0.05 <= answer - exact <= 0.05
    && (answer - exact in {-0.05, 0.05} ==> (answer * 10.0).Floor % 2 == 0)
  }

  lemma {:induction false} RoundingIsNearest(x: real)
    ensures NearestTenth(RoundedToTenths(x), x)
  {
    var y := x * 10.0;
    var k := RoundHalfEven(y);
    assert RoundedToTenths(x) * 10.0 == k as real && (k as real).Floor == k;
    assert -0.5 <= k as real - y <= 0.5;
    assert k as real - y in {-0.5, 0.5} ==> k % 2 == 0;
  }

  lemma {:induction false} HalfwayBetween(k: int, m: int, exact: real)
    requires -0.5 <= k as real - exact * 10.0 <= 0.5 && -0.5 <= m as real - exact * 10.0 <= 0.5
    ensures k > m ==> k == m + 1 && k as real - exact * 10.0 == 0.5 && m as real - exact * 10.0 == -0.5
  {
    if k > m {
      assert k as real >= m as real + 1.0;
    }
  }

  /** So the rounded answer is determined: no other number is nearest. */
  lemma {:induction false} NearestTenthIsUnique(a: real, b: real, exact: real)
    requires NearestTenth(a, exact) && NearestTenth(b, exact)
    ensures a == b
  {
    HalfwayBetween((a * 10.0).Floor, (b * 10.0).Floor, exact);
    HalfwayBetween((b * 10.0).Floor, (a * 10.0).Floor, exact);
  }

  /**
   Callers read the answer 0.0 as admitted. A denied call gets that answer exactly when the
   oldest admission that counts has at most a twentieth of a second left.
   */
  lemma {:induction false} DenialReadAsAdmission(stamps: seq<real>, now: real, window: real, limit: nat, answer: real)
    requires Sorted(stamps, now) && Spaced(stamps, window, limit) && limit >= 1
    requires !Admitted(stamps, now, window, limit)
    requires LiveCount(stamps, now, window) > 0 && NearestTenth(answer, ExactWait(stamps, now, window))
    ensures var oldest := stamps[|stamps| - LiveCount(stamps, now, window)];
      answer == 0.0 <==> window - (now - oldest) <= 0.05
  {
    WaitIsTight(stamps, now, window, limit, now);
    var k := (answer * 10.0).Floor;
    if ExactWait(stamps, now, window) <= 0.05 {
      assert answer * 10.0 <= 1.0 && k <= 1;
    }
  }

  /** One call per 30 seconds, admitted at 0: the call at 29.96 is denied with answer 0.0. */
  lemma {:induction false} DenialReadAsAdmissionExample()
    ensures !Admitted([0.0], 29.96, 30.0, 1)
    ensures LiveCount([0.0], 29.96, 30.0) == 1 && NearestTenth(0.0, ExactWait([0.0], 29.96, 30.0))
  {
    assert [0.0][1..] == [];
    assert LiveCount([0.0], 29.96, 30.0) == 1;
    assert ExactWait([0.0], 29.96, 30.0) == 0.04;
    assert (0.4).Floor == 0;
  }

  // ---------------------------------------------------------------------------
  // The Redis script
  // ---------------------------------------------------------------------------

  function Ceil(x: real): int {
    -((-x).Floor)
  }

  /** The instant a key written at `now` expires: the window plus one second. */
  function Expiry(now: real, window: real): (at: real)
    ensures now + window + 1.0 <= at < now + window + 1.001
  {
    now + (Ceil(window * 1000.0) + 1000) as real / 1000.0
  }

  /** A wait in tenths of a second, rounded up and never below one tenth. */
  function ScriptAnswer(wait: real): (tenths: int)
    ensures tenths >= 1
    ensures wait > 0.0 ==> (tenths - 1) as real < wait * 10.0 <= tenths as real
  {
    Ceil((if wait < 0.1 then 0.1 else wait) * 10.0)
  }

  /** A key outlives every score stored under it by a full window. */
  ghost predicate AllOutlived(zsets: map<int, seq<real>>, expireAt: map<int, real>, window: real) {
    forall uid :: uid in zsets ==> uid in expireAt && Outlived(zsets[uid], expireAt[uid], window)
  }

  ghost predicate Outlived(z: seq<real>, expiry: real, window: real) {
    forall i :: 0 <= i < |z| ==> z[i] + window <= expiry
  }

  /** The script's keys: one sorted set of scores per user, and the instant it expires. */
  class ScriptLimiter {
    const maxCalls: int
    const window: real
    var zsets: map<int, seq<real>>
    var expireAt: map<int, real>
    ghost var history: map<int, seq<real>>
    ghost var clock: real

    ghost function Limit(): nat {
      if maxCalls < 0 then 0 else maxCalls
    }

    ghost predicate Valid()
      reads this
    {
      && AllFaithful(zsets, history, clock, window, Limit())
      && AllOutlived(zsets, expireAt, window)
    }

    constructor (maxCalls: int, window: real, ghost clock: real)
      ensures Valid() && this.maxCalls == maxCalls && this.window == window
      ensures history == map[] && this.clock == clock
    {
      this.maxCalls, this.window, this.clock := maxCalls, window, clock;
      zsets, expireAt, history := map[], map[], map[];
      new;
      forall uid ensures Faithful(StampsOf(zsets, uid), StampsOf(history, uid), clock, window, Limit()) {
        assert StampsOf(zsets, uid) == [];
      }
    }

    ghost method Elapse(now: real)
      requires Valid() && clock <= now
      modifies this`clock
      ensures Valid() && clock == now
    {
      PruningIsInvisible(zsets, zsets, history, clock, now, window, Limit());
      clock := now;
    }

    /** What is left under the key after ZREMRANGEBYSCORE up to `now - window`. */
    method Unexpired(uid: int, now: real) returns (z: seq<real>)
      requires AllOutlived(zsets, expireAt, window)
      ensures Pruned(StampsOf(zsets, uid), z, now, window)
      ensures z != [] ==> !Expired(z[0], now, window)
    {
      if uid !in zsets || now >= expireAt[uid] {
        assert uid in zsets ==> Outlived(zsets[uid], expireAt[uid], window);
        return [];
      }
      z := zsets[uid];
      while z != [] && z[0] <= now - window
        invariant Pruned(zsets[uid], z, now, window)
      {
        z := z[1..];
      }
    }

    lemma {:induction false} DropsOnlyExpired(uid: int, z: seq<real>, now: real)
      requires Valid() && clock <= now && Pruned(StampsOf(zsets, uid), z, now, window)
      ensures var after := if z == [] then zsets - {uid} else zsets[uid := z];
        AllFaithful(after, history, now, window, Limit()) && AllOutlived(after, expireAt, window)
    {
      var after := if z == [] then zsets - {uid} else zsets[uid := z];
      assert StampsOf(after, uid) == z;
      PruningIsInvisible(zsets, after, history, clock, now, window, Limit());
      forall u | u in after ensures u in expireAt && Outlived(after[u], expireAt[u], window) {
        assert u in zsets && Outlived(zsets[u], expireAt[u], window);
      }
    }

    /** The script: 0 when the call is admitted, else the wait in tenths of a second. */
    method Eval(uid: int, now: real) returns (result: int)
      requires Valid() && clock <= now
      modifies this
      ensures Valid() && clock == now
      ensures var admitted := Admitted(StampsOf(old(history), uid), now, window, maxCalls);
        && history == Logged(old(history), uid, now, admitted)
        && (admitted ==> result == 0)
        && (!admitted && maxCalls >= 1 ==>
              && LiveCount(StampsOf(history, uid), now, window) > 0
              && result == ScriptAnswer(ExactWait(StampsOf(history, uid), now, window)))
    {
      hide AllFaithful;
      var z := Unexpired(uid, now);
      DropsOnlyExpired(uid, z, now);
      zsets := if z == [] then zsets - {uid} else zsets[uid := z];
      clock := now;
      assert StampsOf(zsets, uid) == z;
      KeptAreLive(zsets, history, uid, now, window, Limit());
      if |z| < maxCalls {
        Record(uid, now);
        return 0;
      }
      if z != [] {
        return ScriptAnswer(window - (now - z[0]));
      }
      result := Ceil(window * 10.0);
    }

    /** ZADD and PEXPIRE. */
    method Record(uid: int, now: real)
      requires clock == now && AllFaithful(zsets, history, now, window, Limit()) && AllOutlived(zsets, expireAt, window)
      requires StampsOf(zsets, uid) != [] ==> !Expired(StampsOf(zsets, uid)[0], now, window)
      requires |StampsOf(zsets, uid)| < maxCalls
      modifies this`zsets, this`expireAt, this`history
      ensures Valid()
      ensures history == Logged(old(history), uid, now, true)
    {
      KeptAreLive(zsets, history, uid, now, window, Limit());
      AdmissionIsFaithful(zsets, history, uid, now, window, Limit());
      history := history[uid := StampsOf(history, uid) + [now]];
      zsets := zsets[uid := StampsOf(zsets, uid) + [now]];
      expireAt := expireAt[uid := Expiry(now, window)];
    }

    lemma {:induction false} AtMostLimitPerWindow(uid: int, lo: real, hi: real)
      requires Valid() && hi - lo <= window && maxCalls >= 1
      ensures CountIn(StampsOf(history, uid), lo, hi) <= maxCalls
    {
      assert Faithful(StampsOf(zsets, uid), StampsOf(history, uid), clock, window, Limit());
      WindowBound(StampsOf(history, uid), clock, window, Limit(), lo, hi);
    }
  }

  /** The script's answer is never short: a retry after it is admitted, if nothing else was. */
  lemma {:induction false} ScriptWaitSuffices(stamps: seq<real>, now: real, window: real, limit: nat)
    requires Sorted(stamps, now) && Spaced(stamps, window, limit) && limit >= 1
    requires !Admitted(stamps, now, window, limit)
    ensures var tenths := ScriptAnswer(ExactWait(stamps, now, window));
      && Admitted(stamps, now + tenths as real / 10.0, window, limit)
      && !Admitted(stamps, now + (tenths - 1) as real / 10.0, window, limit)
  {
    WaitIsTight(stamps, now, window, limit, now);
    var exact := ExactWait(stamps, now, window);
    var tenths := ScriptAnswer(exact);
    assert tenths as real / 10.0 >= exact > (tenths - 1) as real / 10.0;
    WaitIsTight(stamps, now, window, limit, now + tenths as real / 10.0);
    WaitIsTight(stamps, now, window, limit, now + (tenths - 1) as real / 10.0);
  }

  // ---------------------------------------------------------------------------
  // The two side by side
  // ---------------------------------------------------------------------------

  datatype Call = Call(uid: int, at: real)

  /** What the specification has logged after `calls`, and whether it admits the k-th of them. */
  function LogAfter(calls: seq<Call>, window: real, limit: int): map<int, seq<real>>
    decreases |calls|, 0
  {
    if calls == [] then map[]
    else
      var k := |calls| - 1;
      Logged(LogAfter(calls[..k], window, limit), calls[k].uid, calls[k].at, Grants(calls, k, window, limit))
  }

  predicate Grants(calls: seq<Call>, k: nat, window: real, limit: int)
    requires k < |calls|
    decreases k, 1
  {
    var log := LogAfter(calls[..k], window, limit);
    Admitted(StampsOf(log, calls[k].uid), calls[k].at, window, limit)
  }

  predicate InOrder(calls: seq<Call>, start: real) {
    && (forall i :: 0 <= i < |calls| ==> start <= calls[i].at)
    && (forall i, j :: 0 <= i < j < |calls| ==> calls[i].at <= calls[j].at)
  }

  /** The first decisions are those of the specification. */
  predicate AsGranted(decisions: seq<bool>, calls: seq<Call>, window: real, limit: int) {
    |decisions| <= |calls| && forall k :: 0 <= k < |decisions| ==> decisions[k] == Grants(calls, k, window, limit)
  }

  lemma {:induction false} DecideNext(decisions: seq<bool>, calls: seq<Call>, window: real, limit: int, decision: bool)
    requires AsGranted(decisions, calls, window, limit) && |decisions| < |calls|
    requires decision == Grants(calls, |decisions|, window, limit)
    ensures AsGranted(decisions + [decision], calls, window, limit)
  {
  }

  /** The instant of the call before the i-th. */
  function ClockAt(calls: seq<Call>, start: real, i: nat): real
    requires i <= |calls|
  {
    if i == 0 then start else calls[i - 1].at
  }

  /** On one clock, the bucket and the script grant and deny the same calls, however many there are. */
  method SameDecisions(maxCalls: int, window: real, start: real, calls: seq<Call>)
      returns (local: seq<bool>, script: seq<bool>)
    requires maxCalls >= 1 && InOrder(calls, start)
    ensures |local| == |script| == |calls|
    ensures forall k :: 0 <= k < |calls| ==> local[k] == script[k] == Grants(calls, k, window, maxCalls)
  {
    assert LogAfter([], window, maxCalls) == map[];
    assert calls[..0] == [];
    var bucket := new LocalLimiter(maxCalls, window, start);
    var redis := new ScriptLimiter(maxCalls, window, start);
    local, script := [], [];
    assert AsGranted(local, calls, window, maxCalls);
    assert forall i :: 0 <= i < |calls| ==> ClockAt(calls, start, i) <= calls[i].at == ClockAt(calls, start, i + 1);
    hide *;
    for i := 0 to |calls|
      invariant bucket.Valid() && redis.Valid() && bucket.clock == redis.clock == ClockAt(calls, start, i)
      invariant bucket.maxCalls == redis.maxCalls == maxCalls && bucket.window == redis.window == window
      invariant bucket.history == redis.history == LogAfter(calls[..i], window, maxCalls)
      invariant |local| == i && local == script && AsGranted(local, calls, window, maxCalls)
    {
      LogGrows(calls, i, window, maxCalls);
      var a, b := CheckBoth(bucket, redis, calls[i].uid, calls[i].at);
      DecideNext(local, calls, window, maxCalls, a);
      local, script := local + [a], script + [b];
    }
    AllAsGranted(local, calls, window, maxCalls);
  }

  lemma {:induction false} AllAsGranted(decisions: seq<bool>, calls: seq<Call>, window: real, limit: int)
    requires AsGranted(decisions, calls, window, limit) && |decisions| == |calls|
    ensures forall k :: 0 <= k < |calls| ==> decisions[k] == Grants(calls, k, window, limit)
  {
  }

  method CheckBoth(bucket: LocalLimiter, redis: ScriptLimiter, uid: int, now: real) returns (local: bool, script: bool)
    requires bucket.Valid() && redis.Valid() && bucket.clock == redis.clock <= now
    requires bucket.history == redis.history && bucket.maxCalls == redis.maxCalls >= 1 && bucket.window == redis.window
    modifies bucket, redis
    ensures bucket.Valid() && redis.Valid() && bucket.clock == redis.clock == now
    ensures local == script == Admitted(StampsOf(old(bucket.history), uid), now, bucket.window, bucket.maxCalls)
    ensures bucket.history == redis.history == Logged(old(bucket.history), uid, now, local)
  {
    var answer: real;
    local, answer := bucket.Check(uid, now);
    var result := redis.Eval(uid, now);
    script := result == 0;
  }

  lemma {:induction false} LogGrows(calls: seq<Call>, i: nat, window: real, limit: int)
    requires i < |calls|
    ensures LogAfter(calls[..i + 1], window, limit)
         == Logged(LogAfter(calls[..i], window, limit), calls[i].uid, calls[i].at, Grants(calls, i, window, limit))
    ensures Grants(calls, i, window, limit)
         == Admitted(StampsOf(LogAfter(calls[..i], window, limit), calls[i].uid), calls[i].at, window, limit)
  {
    assert calls[..i + 1][..i] == calls[..i];
  }

  // ---------------------------------------------------------------------------
  // Switching between the two
  // ---------------------------------------------------------------------------

  /** A check that awaits Redis: the instant it was begun, and the script's result if the script runs at all. */
  datatype Awaited = Awaited(uid: int, at: real, result: Option<int>)

  /** The awaiting checks of a user for which the script has recorded an admission in the interval. */
  ghost function Owed(awaiting: map<nat, Awaited>, uid: int, lo: real, hi: real): set<nat> {
    set id | id in awaiting && awaiting[id].uid == uid && awaiting[id].result == Some(0) && lo <= awaiting[id].at < hi
  }

  /** In every interval, each grant and each admission still owed was logged by one side or the other. */
  ghost predicate Covered(grants: seq<real>, awaiting: map<nat, Awaited>, uid: int,
                          locals: seq<real>, remotes: seq<real>)
  {
    forall lo, hi ::
      CountIn(grants, lo, hi) + |Owed(awaiting, uid, lo, hi)| <= CountIn(locals, lo, hi) + CountIn(remotes, lo, hi)
  }

  ghost predicate AllCovered(granted: map<int, seq<real>>, awaiting: map<nat, Awaited>,
                             locals: map<int, seq<real>>, remotes: map<int, seq<real>>)
  {
    forall uid :: Covered(StampsOf(granted, uid), awaiting, uid, StampsOf(locals, uid), StampsOf(remotes, uid))
  }

  lemma {:induction false} OwedAfterSend(awaiting: map<nat, Awaited>, id: nat, a: Awaited, uid: int, lo: real, hi: real)
    requires id !in awaiting
    ensures |Owed(awaiting[id := a], uid, lo, hi)|
         == |Owed(awaiting, uid, lo, hi)| + if a.uid == uid && a.result == Some(0) && lo <= a.at < hi then 1 else 0
  {
    var owed, after := Owed(awaiting, uid, lo, hi), Owed(awaiting[id := a], uid, lo, hi);
    assert id !in owed;
    assert after == if a.uid == uid && a.result == Some(0) && lo <= a.at < hi then owed + {id} else owed;
  }

  lemma {:induction false} OwedAfterEnd(awaiting: map<nat, Awaited>, id: nat, uid: int, lo: real, hi: real)
    requires id in awaiting
    ensures var a := awaiting[id];
      |Owed(awaiting - {id}, uid, lo, hi)|
      == |Owed(awaiting, uid, lo, hi)| - if a.uid == uid && a.result == Some(0) && lo <= a.at < hi then 1 else 0
  {
    var before := awaiting - {id};
    assert before[id := awaiting[id]] == awaiting;
    OwedAfterSend(before, id, awaiting[id], uid, lo, hi);
  }

  lemma {:induction false} LoggedCount(m: map<int, seq<real>>, uid: int, now: real, admitted: bool,
                                      u: int, lo: real, hi: real)
    ensures CountIn(StampsOf(Logged(m, uid, now, admitted), u), lo, hi)
         == CountIn(StampsOf(m, u), lo, hi) + if admitted && u == uid && lo <= now < hi then 1 else 0
  {
    CountInAppend(StampsOf(m, uid), now, lo, hi);
  }

  /** The script has run, or not, for a check that goes on to await its result. */
  lemma {:induction false} SendStaysCovered(granted: map<int, seq<real>>, awaiting: map<nat, Awaited>,
                                            locals: map<int, seq<real>>, remotes: map<int, seq<real>>,
                                            id: nat, a: Awaited)
    requires AllCovered(granted, awaiting, locals, remotes) && id !in awaiting
    ensures AllCovered(granted, awaiting[id := a], locals, Logged(remotes, a.uid, a.at, a.result == Some(0)))
  {
    var remotes' := Logged(remotes, a.uid, a.at, a.result == Some(0));
    forall u ensures Covered(StampsOf(granted, u), awaiting[id := a], u, StampsOf(locals, u), StampsOf(remotes', u)) {
      assert Covered(StampsOf(granted, u), awaiting, u, StampsOf(locals, u), StampsOf(remotes, u));
      forall lo, hi
        ensures CountIn(StampsOf(granted, u), lo, hi) + |Owed(awaiting[id := a], u, lo, hi)|
             <= CountIn(StampsOf(locals, u), lo, hi) + CountIn(StampsOf(remotes', u), lo, hi)
      {
        OwedAfterSend(awaiting, id, a, u, lo, hi);
        LoggedCount(remotes, a.uid, a.at, a.result == Some(0), u, lo, hi);
      }
    }
  }

  /** The result has arrived: what was owed is granted. */
  lemma {:induction false} ReceiptStaysCovered(granted: map<int, seq<real>>, awaiting: map<nat, Awaited>,
                                               locals: map<int, seq<real>>, remotes: map<int, seq<real>>, id: nat)
    requires AllCovered(granted, awaiting, locals, remotes) && id in awaiting
    ensures var a := awaiting[id];
      AllCovered(Logged(granted, a.uid, a.at, a.result == Some(0)), awaiting - {id}, locals, remotes)
  {
    var a := awaiting[id];
    var granted' := Logged(granted, a.uid, a.at, a.result == Some(0));
    forall u ensures Covered(StampsOf(granted', u), awaiting - {id}, u, StampsOf(locals, u), StampsOf(remotes, u)) {
      assert Covered(StampsOf(granted, u), awaiting, u, StampsOf(locals, u), StampsOf(remotes, u));
      forall lo, hi
        ensures CountIn(StampsOf(granted', u), lo, hi) + |Owed(awaiting - {id}, u, lo, hi)|
             <= CountIn(StampsOf(locals, u), lo, hi) + CountIn(StampsOf(remotes, u), lo, hi)
      {
        OwedAfterEnd(awaiting, id, u, lo, hi);
        LoggedCount(granted, a.uid, a.at, a.result == Some(0), u, lo, hi);
      }
    }
  }

  /** The result is lost: what was owed is forgotten. */
  lemma {:induction false} LossStaysCovered(granted: map<int, seq<real>>, awaiting: map<nat, Awaited>,
                                            locals: map<int, seq<real>>, remotes: map<int, seq<real>>, id: nat)
    requires AllCovered(granted, awaiting, locals, remotes) && id in awaiting
    ensures AllCovered(granted, awaiting - {id}, locals, remotes)
  {
    forall u ensures Covered(StampsOf(granted, u), awaiting - {id}, u, StampsOf(locals, u), StampsOf(remotes, u)) {
      assert Covered(StampsOf(granted, u), awaiting, u, StampsOf(locals, u), StampsOf(remotes, u));
      forall lo, hi ensures |Owed(awaiting - {id}, u, lo, hi)| <= |Owed(awaiting, u, lo, hi)| {
        OwedAfterEnd(awaiting, id, u, lo, hi);
      }
    }
  }

  /** The bucket decides, and grants what it logs. */
  lemma {:induction false} LocalStaysCovered(granted: map<int, seq<real>>, awaiting: map<nat, Awaited>,
                                             locals: map<int, seq<real>>, remotes: map<int, seq<real>>,
                                             uid: int, now: real, admitted: bool)
    requires AllCovered(granted, awaiting, locals, remotes)
    ensures AllCovered(Logged(granted, uid, now, admitted), awaiting, Logged(locals, uid, now, admitted), remotes)
  {
    var granted', locals' := Logged(granted, uid, now, admitted), Logged(locals, uid, now, admitted);
    forall u ensures Covered(StampsOf(granted', u), awaiting, u, StampsOf(locals', u), StampsOf(remotes, u)) {
      assert Covered(StampsOf(granted, u), awaiting, u, StampsOf(locals, u), StampsOf(remotes, u));
      forall lo, hi
        ensures CountIn(StampsOf(granted', u), lo, hi) + |Owed(awaiting, u, lo, hi)|
             <= CountIn(StampsOf(locals', u), lo, hi) + CountIn(StampsOf(remotes, u), lo, hi)
      {
        LoggedCount(granted, uid, now, admitted, u, lo, hi);
        LoggedCount(locals, uid, now, admitted, u, lo, hi);
      }
    }
  }

  function InSeconds(tenths: int): real {
    RoundedToTenths(tenths as real / 10.0)
  }

  lemma {:induction false} TenthsAreExact(tenths: int)
    ensures InSeconds(tenths) * 10.0 == tenths as real
  {
    var x := tenths as real / 10.0 * 10.0;
    assert x == tenths as real && x.Floor == tenths;
  }

  /**
   A check with a Redis client is suspended between `Send` and `Receive` or `FallBack`, and any
   steps of other checks, of the same user too, may come between. The script sees the instant
   at which its check began, and runs in the order of those instants.
   */
  class AsyncLimiter {
    const local: LocalLimiter
    const redis: ScriptLimiter
    var awaiting: map<nat, Awaited>
    /** The admissions that either side granted to a caller; a denial answered 0.0 is not one. */
    ghost var granted: map<int, seq<real>>

    ghost predicate Valid()
      reads this, local, redis
    {
      && local.Valid() && redis.Valid() && local.clock == redis.clock
      && local.maxCalls == redis.maxCalls >= 1 && local.window == redis.window
      && AllCovered(granted, awaiting, local.history, redis.history)
    }

    constructor (maxCalls: int, window: real, ghost clock: real)
      requires maxCalls >= 1
      ensures Valid() && fresh(local) && fresh(redis) && granted == map[] && awaiting == map[]
      ensures local.maxCalls == maxCalls && local.window == window && local.clock == clock
    {
      local := new LocalLimiter(maxCalls, window, clock);
      redis := new ScriptLimiter(maxCalls, window, clock);
      granted, awaiting := map[], map[];
      new;
      assert forall uid, lo, hi :: Owed(awaiting, uid, lo, hi) == {};
    }

    /** Without a client the bucket decides at once. */
    method CheckLocally(uid: int, now: real) returns (admitted: bool, answer: real)
      requires Valid() && local.clock <= now
      modifies this`granted, local, redis
      ensures Valid() && local.clock == now && redis.history == old(redis.history)
      ensures admitted == Admitted(StampsOf(old(local.history), uid), now, local.window, local.maxCalls)
      ensures local.history == Logged(old(local.history), uid, now, admitted)
      ensures granted == Logged(old(granted), uid, now, admitted)
      ensures !admitted ==> LiveCount(StampsOf(local.history, uid), now, local.window) > 0
      ensures if admitted then answer == 0.0
              else NearestTenth(answer, ExactWait(StampsOf(local.history, uid), now, local.window))
    {
      hide AllFaithful, AllOutlived, AllCovered;
      redis.Elapse(now);
      admitted, answer := local.Check(uid, now);
      LocalStaysCovered(granted, awaiting, old(local.history), redis.history, uid, now, admitted);
      granted := Logged(granted, uid, now, admitted);
    }

    /** A check begins and sends its script; `runs` says whether the script is ever carried out. */
    method Send(id: nat, uid: int, now: real, runs: bool)
      requires Valid() && local.clock <= now && id !in awaiting
      modifies this`awaiting, local, redis
      ensures Valid() && local.clock == now && local.history == old(local.history)
      ensures id in awaiting && awaiting - {id} == old(awaiting)
      ensures awaiting[id].uid == uid && awaiting[id].at == now && awaiting[id].result.Some? == runs
      ensures var admitted := Admitted(StampsOf(old(redis.history), uid), now, redis.window, redis.maxCalls);
        && redis.history == Logged(old(redis.history), uid, now, runs && admitted)
        && (runs ==> (awaiting[id].result == Some(0) <==> admitted))
        && (runs && !admitted ==>
              && LiveCount(StampsOf(redis.history, uid), now, redis.window) > 0
              && awaiting[id].result == Some(ScriptAnswer(ExactWait(StampsOf(redis.history, uid), now, redis.window))))
    {
      hide AllFaithful, AllOutlived, AllCovered;
      local.Elapse(now);
      var a := Awaited(uid, now, None);
      if runs {
        var result := redis.Eval(uid, now);
        a := a.(result := Some(result));
      } else {
        redis.Elapse(now);
      }
      SendStaysCovered(granted, awaiting, local.history, old(redis.history), id, a);
      awaiting := awaiting[id := a];
    }

    /** The script's result arrives and is the answer, in seconds. */
    method Receive(id: nat) returns (admitted: bool, answer: real)
      requires Valid() && id in awaiting && awaiting[id].result.Some?
      modifies this
      ensures Valid() && awaiting == old(awaiting) - {id}
      ensures local.history == old(local.history) && redis.history == old(redis.history)
      ensures local.clock == old(local.clock)
      ensures var a := old(awaiting)[id];
        && admitted == (a.result == Some(0)) && answer * 10.0 == a.result.value as real
        && granted == Logged(old(granted), a.uid, a.at, admitted)
    {
      hide AllFaithful, AllOutlived, AllCovered;
      var a := awaiting[id];
      admitted, answer := a.result == Some(0), InSeconds(a.result.value);
      TenthsAreExact(a.result.value);
      ReceiptStaysCovered(granted, awaiting, local.history, redis.history, id);
      awaiting := awaiting - {id};
      granted := Logged(granted, a.uid, a.at, admitted);
    }

    /** An error or the timeout arrives instead, whether or not the script has run; the bucket decides. */
    method FallBack(id: nat, now: real) returns (admitted: bool, answer: real)
      requires Valid() && id in awaiting && local.clock <= now
      modifies this, local, redis
      ensures Valid() && local.clock == now && awaiting == old(awaiting) - {id}
      ensures var uid := old(awaiting)[id].uid;
        && admitted == Admitted(StampsOf(old(local.history), uid), now, local.window, local.maxCalls)
        && local.history == Logged(old(local.history), uid, now, admitted) && redis.history == old(redis.history)
        && granted == Logged(old(granted), uid, now, admitted)
        && (!admitted ==> LiveCount(StampsOf(local.history, uid), now, local.window) > 0)
        && if admitted then answer == 0.0
           else NearestTenth(answer, ExactWait(StampsOf(local.history, uid), now, local.window))
    {
      hide AllFaithful, AllOutlived, AllCovered;
      var uid := awaiting[id].uid;
      LossStaysCovered(granted, awaiting, local.history, redis.history, id);
      awaiting := awaiting - {id};
      admitted, answer := CheckLocally(uid, now);
    }

    /** However checks overlap and switch on errors, a user is granted at most twice the limit per window. */
    lemma {:induction false} AtMostTwiceTheLimit(uid: int, lo: real, hi: real)
      requires Valid() && hi - lo <= local.window
      ensures CountIn(StampsOf(granted, uid), lo, hi) <= 2 * local.maxCalls
    {
      assert Covered(StampsOf(granted, uid), awaiting, uid, StampsOf(local.history, uid), StampsOf(redis.history, uid));
      local.AtMostLimitPerWindow(uid, lo, hi);
      redis.AtMostLimitPerWindow(uid, lo, hi);
    }

    /**
     Any schedule of steps of any checks, on one clock that never runs backwards. A step of a
     check that is not due is passed over.
     */
    method Replay(steps: seq<CheckStep>)
      requires Valid() && forall i :: 0 <= i < |steps| ==> local.clock <= steps[i].now
      requires forall i, j :: 0 <= i < j < |steps| ==> steps[i].now <= steps[j].now
      modifies this, local, redis
      ensures Valid()
      ensures forall uid, lo, hi :: hi - lo <= local.window ==>
                CountIn(StampsOf(granted, uid), lo, hi) <= 2 * local.maxCalls
    {
      for i := 0 to |steps|
        invariant Valid() && forall j :: i <= j < |steps| ==> local.clock <= steps[j].now
      {
        Take(steps[i]);
      }
      forall uid, lo, hi | hi - lo <= local.window
        ensures CountIn(StampsOf(granted, uid), lo, hi) <= 2 * local.maxCalls
      {
        AtMostTwiceTheLimit(uid, lo, hi);
      }
    }

    method Take(step: CheckStep)
      requires Valid() && local.clock <= step.now
      modifies this, local, redis
      ensures Valid() && local.clock <= step.now
    {
      var admitted, answer := false, 0.0;
      match step {
        case Locally(uid, now) =>
          admitted, answer := CheckLocally(uid, now);
        case Sends(id, uid, now, runs) =>
          if id !in awaiting {
            Send(id, uid, now, runs);
          }
        case Receives(id, _) =>
          if id in awaiting && awaiting[id].result.Some? {
            admitted, answer := Receive(id);
          }
        case FallsBack(id, now) =>
          if id in awaiting {
            admitted, answer := FallBack(id, now);
          }
      }
    }
  }

  datatype CheckStep =
    | Locally(uid: int, now: real)
    | Sends(id: nat, uid: int, now: real, runs: bool)
    | Receives(id: nat, now: real)
    | FallsBack(id: nat, now: real)
}
