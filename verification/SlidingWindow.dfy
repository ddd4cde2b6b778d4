/**
 The specification both rate limiters of tcbot/modules/helper/decorators.py refine: keep
 every admission of a user for ever and admit a call when fewer than `limit` of them are
 younger than one window. Instants and windows are exact numbers.
 */
module SlidingWindow {

  /** Admissions of one user, oldest first, none after `now`. */
  ghost predicate Sorted(stamps: seq<real>, now: real) {
    && (forall i, j :: 0 <= i <= j < |stamps| ==> stamps[i] <= stamps[j])
    && (forall i :: 0 <= i < |stamps| ==> stamps[i] <= now)
  }

  predicate Expired(t: real, now: real, window: real) {
    now - t >= window
  }

  function LiveCount(stamps: seq<real>, now: real, window: real): (n: nat)
    ensures n <= |stamps|
  {
    if stamps == [] then 0
    else (if Expired(stamps[0], now, window) then 0 else 1) + LiveCount(stamps[1..], now, window)
  }

  predicate Admitted(stamps: seq<real>, now: real, window: real, limit: int) {
    LiveCount(stamps, now, window) < limit
  }

  /** Time until the oldest admission that still counts stops counting. */
  function ExactWait(stamps: seq<real>, now: real, window: real): real
    requires LiveCount(stamps, now, window) > 0
  {
    window - (now - stamps[|stamps| - LiveCount(stamps, now, window)])
  }

  /** Any `limit + 1` consecutive admissions span at least one window. */
  ghost predicate Spaced(stamps: seq<real>, window: real, limit: nat) {
    forall i, j :: 0 <= i && i + limit <= j < |stamps| ==> stamps[j] - stamps[i] >= window
  }

  lemma {:induction false} LiveSuffix(stamps: seq<real>, now: real, window: real, k: nat)
    requires k <= |stamps|
    requires forall i :: 0 <= i < k ==> Expired(stamps[i], now, window)
    requires forall i :: k <= i < |stamps| ==> !Expired(stamps[i], now, window)
    ensures LiveCount(stamps, now, window) == |stamps| - k
    decreases |stamps|
  {
    if stamps != [] {
      LiveSuffix(stamps[1..], now, window, if k == 0 then 0 else k - 1);
    }
  }

  /** In a sorted log the admissions that still count are its last ones. */
  lemma {:induction false} LiveAreLast(stamps: seq<real>, now: real, window: real)
    requires Sorted(stamps, now)
    ensures var k := |stamps| - LiveCount(stamps, now, window);
      && (forall i :: 0 <= i < k ==> Expired(stamps[i], now, window))
      && (forall i :: k <= i < |stamps| ==> !Expired(stamps[i], now, window))
    decreases |stamps|
  {
    if stamps != [] {
      LiveAreLast(stamps[1..], now, window);
      if !Expired(stamps[0], now, window) {
        LiveSuffix(stamps, now, window, 0);
      } else {
        var k := |stamps| - LiveCount(stamps, now, window);
        assert k == |stamps[1..]| - LiveCount(stamps[1..], now, window) + 1;
        assert forall i :: 1 <= i < |stamps| ==> stamps[i] == stamps[1..][i - 1];
      }
    }
  }

  /** Admitting keeps the log sorted and spaced. */
  lemma {:induction false} AdmissionKeepsSpacing(stamps: seq<real>, now: real, window: real, limit: nat)
    requires Sorted(stamps, now) && Spaced(stamps, window, limit) && limit >= 1
    requires Admitted(stamps, now, window, limit)
    ensures Sorted(stamps + [now], now) && Spaced(stamps + [now], window, limit)
  {
    LiveAreLast(stamps, now, window);
  }

  function CountIn(stamps: seq<real>, lo: real, hi: real): nat {
    if stamps == [] then 0
    else (if lo <= stamps[0] < hi then 1 else 0) + CountIn(stamps[1..], lo, hi)
  }

  lemma {:induction false} CountInAppend(stamps: seq<real>, t: real, lo: real, hi: real)
    ensures CountIn(stamps + [t], lo, hi) == CountIn(stamps, lo, hi) + (if lo <= t < hi then 1 else 0)
  {
    if stamps == [] {
      assert stamps + [t] == [t];
    } else {
      CountInAppend(stamps[1..], t, lo, hi);
      assert (stamps + [t])[1..] == stamps[1..] + [t];
    }
  }

  lemma {:induction false} CountInLate(stamps: seq<real>, lo: real, hi: real, k: nat)
    requires k <= |stamps| && forall i :: 0 <= i < k ==> stamps[i] < lo
    ensures CountIn(stamps, lo, hi) <= |stamps| - k
    decreases |stamps|
  {
    if stamps != [] {
      CountInLate(stamps[1..], lo, hi, if k == 0 then 0 else k - 1);
    }
  }

  /** No more than `limit` admissions in any half-open interval of one window or less. */
  lemma {:induction false} WindowBound(stamps: seq<real>, now: real, window: real, limit: nat, lo: real, hi: real)
    requires Sorted(stamps, now) && Spaced(stamps, window, limit) && limit >= 1
    requires hi - lo <= window
    ensures CountIn(stamps, lo, hi) <= limit
    decreases |stamps|
  {
    if stamps != [] {
      var n := |stamps|;
      var t := stamps[n - 1];
      if t >= hi {
        assert stamps == stamps[..n - 1] + [t];
        CountInAppend(stamps[..n - 1], t, lo, hi);
        WindowBound(stamps[..n - 1], now, window, limit, lo, hi);
      } else if n > limit {
        CountInLate(stamps, lo, hi, n - limit);
      } else {
        CountInLate(stamps, lo, hi, 0);
      }
    }
  }

  lemma {:induction false} LiveAtMostLimit(stamps: seq<real>, now: real, window: real, limit: nat)
    requires Sorted(stamps, now) && Spaced(stamps, window, limit)
    ensures LiveCount(stamps, now, window) <= limit
  {
    LiveAreLast(stamps, now, window);
    if |stamps| > limit {
      assert stamps[|stamps| - 1] - stamps[|stamps| - 1 - limit] >= window;
    }
  }

  /**
   The exact wait of a denied call is tight: as long as nothing else is admitted (denials
   leave the log alone), a retry is admitted exactly from `now + ExactWait` on.
   */
  lemma {:induction false} WaitIsTight(stamps: seq<real>, now: real, window: real, limit: nat, later: real)
    requires Sorted(stamps, now) && Spaced(stamps, window, limit) && limit >= 1
    requires !Admitted(stamps, now, window, limit) && now <= later
    ensures LiveCount(stamps, now, window) == limit
    ensures ExactWait(stamps, now, window) > 0.0
    ensures Admitted(stamps, later, window, limit) <==> later >= now + ExactWait(stamps, now, window)
  {
    LiveAreLast(stamps, now, window);
    LiveAtMostLimit(stamps, now, window, limit);
    LiveAreLast(stamps, later, window);
  }
}
